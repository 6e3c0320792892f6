/**
 * Replacing spans of a text: the pure form, gap by gap, and the right-to-left replacement of
 * `redaction/src/assemble.ts` that computes it.
 */
module Splice {
  import opened Text
  import opened Detection

  /** The text between the matches, from `from` on: one piece more than there are matches. */
  function Gaps(text: string, from: nat, ms: seq<SecretMatch>): (gaps: seq<string>)
    requires Spaced(text, from, ms)
    ensures |gaps| == |ms| + 1
    decreases |ms|
  {
    if ms == [] then [text[from..]]
    else [text[from..ms[0].start]] + Gaps(text, ms[0].end, ms[1..])
  }

  /** Matches lie one after the other from `from` on. */
  predicate Spaced(text: string, from: nat, ms: seq<SecretMatch>)
    decreases |ms|
  {
    if ms == [] then from <= |text|
    else from <= ms[0].start <= ms[0].end <= |text| && Spaced(text, ms[0].end, ms[1..])
  }

  /** Gap, replacement, gap, ..., gap. */
  function Interleave(gaps: seq<string>, parts: seq<string>): string
    requires |gaps| == |parts| + 1
    decreases |parts|
  {
    if parts == [] then gaps[0] else gaps[0] + parts[0] + Interleave(gaps[1..], parts[1..])
  }

  function Spliced(text: string, ms: seq<SecretMatch>, parts: seq<string>): string
    requires Spaced(text, 0, ms) && |parts| == |ms|
  {
    Interleave(Gaps(text, 0, ms), parts)
  }

  lemma {:induction false} SpacedOutOfOrder(text: string, from: nat, ms: seq<SecretMatch>)
    requires InDocumentOrder(text, ms) && from <= |text| && (ms != [] ==> from <= ms[0].start)
    ensures Spaced(text, from, ms)
    decreases |ms|
  {
    if ms != [] {
      assert InDocumentOrder(text, ms[1..]);
      assert |ms| > 1 ==> ms[0].end <= ms[1].start;
      SpacedOutOfOrder(text, ms[0].end, ms[1..]);
    }
  }

  lemma {:induction false} SpacedEnds(text: string, from: nat, ms: seq<SecretMatch>)
    requires Spaced(text, from, ms)
    ensures from <= |text| && forall m | m in ms :: from <= m.start <= m.end <= |text|
    decreases |ms|
  {
    if ms != [] {
      SpacedEnds(text, ms[0].end, ms[1..]);
      assert ms == [ms[0]] + ms[1..];
    }
  }

  lemma InterleaveStep(text: string, from: nat, ms: seq<SecretMatch>, part: string, parts: seq<string>)
    requires Spaced(text, from, ms) && ms != [] && |parts| == |ms| - 1
    ensures Interleave(Gaps(text, from, ms), [part] + parts)
         == text[from..ms[0].start] + part + Interleave(Gaps(text, ms[0].end, ms[1..]), parts)
  {
  }

  // ---- Laws of the splice --------------------------------------------------------------------

  function TotalLength(parts: seq<string>): nat {
    if parts == [] then 0 else |parts[0]| + TotalLength(parts[1..])
  }

  function Values(ms: seq<SecretMatch>): seq<string> {
    seq(|ms|, i requires 0 <= i < |ms| => ms[i].value)
  }

  /** With nothing put in, the splice is the text without the matched spans. */
  lemma {:induction false} InterleaveEmpty(gaps: seq<string>, parts: seq<string>)
    requires |gaps| == |parts| + 1 && forall i | 0 <= i < |parts| :: parts[i] == ""
    ensures Interleave(gaps, parts) == Flatten(gaps)
    decreases |parts|
  {
    if parts != [] {
      InterleaveEmpty(gaps[1..], parts[1..]);
    } else {
      assert gaps[1..] == [] && Flatten(gaps) == gaps[0] + Flatten(gaps[1..]);
    }
  }

  lemma {:induction false} InterleaveLength(gaps: seq<string>, parts: seq<string>)
    requires |gaps| == |parts| + 1
    ensures |Interleave(gaps, parts)| == TotalLength(gaps) + TotalLength(parts)
    decreases |parts|
  {
    if parts != [] {
      InterleaveLength(gaps[1..], parts[1..]);
    } else {
      assert gaps[1..] == [];
    }
  }

  /** Putting the matched values back restores the text. */
  lemma {:induction false} RestoreFrom(text: string, from: nat, ms: seq<SecretMatch>)
    requires Spaced(text, from, ms) && forall m | m in ms ::
               m.start <= m.end <= |text| && m.value == text[m.start..m.end]
    ensures Interleave(Gaps(text, from, ms), Values(ms)) == text[from..]
    decreases |ms|
  {
    if ms != [] {
      var m := ms[0];
      assert m in ms;
      RestoreFrom(text, m.end, ms[1..]);
      InterleaveStep(text, from, ms, m.value, Values(ms[1..]));
      assert Values(ms) == [m.value] + Values(ms[1..]);
      hide Gaps, Interleave, Values, Spaced;
      assert text[from..m.start] + text[m.start..m.end] + text[m.end..] == text[from..];
    }
  }

  lemma Restore(text: string, ms: seq<SecretMatch>)
    requires InDocumentOrder(text, ms)
    ensures Spaced(text, 0, ms) && Spliced(text, ms, Values(ms)) == text
  {
    SpacedOutOfOrder(text, 0, ms);
    RestoreFrom(text, 0, ms);
  }

  /** The length is the original's, less the spans, plus what was put in. */
  lemma SplicedLength(text: string, ms: seq<SecretMatch>, parts: seq<string>)
    requires InDocumentOrder(text, ms) && |parts| == |ms|
    ensures Spaced(text, 0, ms)
    ensures |Spliced(text, ms, parts)| + TotalLength(Values(ms)) == |text| + TotalLength(parts)
  {
    Restore(text, ms);
    InterleaveLength(Gaps(text, 0, ms), parts);
    InterleaveLength(Gaps(text, 0, ms), Values(ms));
  }

  // ---- Right to left -------------------------------------------------------------------------

  /** Where the untouched prefix ends once the matches from `i` on are replaced. */
  function Boundary(ms: seq<SecretMatch>, i: nat): nat
    requires i <= |ms|
  {
    if i == 0 then 0 else ms[i - 1].end
  }

  lemma {:induction false} SpacedFrom(text: string, from: nat, ms: seq<SecretMatch>, i: nat)
    requires Spaced(text, from, ms) && i < |ms|
    ensures var before := if i == 0 then from else ms[i - 1].end;
            && before <= ms[i].start <= ms[i].end <= |text|
            && Spaced(text, before, ms[i..]) && Spaced(text, ms[i].end, ms[i + 1..])
    decreases i
  {
    SpacedEnds(text, from, ms);
    if i == 0 {
      assert ms[0..] == ms;
    } else {
      SpacedFrom(text, ms[0].end, ms[1..], i - 1);
      assert ms[1..][i - 1..] == ms[i..] && ms[1..][i..] == ms[i + 1..];
    }
  }

  /** One replacement extends the finished tail of the splice by a gap and a part. */
  lemma ReplaceStep(text: string, ms: seq<SecretMatch>, i: nat, part: string, parts: seq<string>)
    requires Spaced(text, 0, ms) && i < |ms| && |parts| == |ms| - (i + 1)
    ensures Boundary(ms, i) <= ms[i].start <= ms[i].end <= |text|
    ensures Spaced(text, Boundary(ms, i), ms[i..]) && Spaced(text, Boundary(ms, i + 1), ms[i + 1..])
    ensures var done := text[..Boundary(ms, i + 1)] + Interleave(Gaps(text, Boundary(ms, i + 1), ms[i + 1..]), parts);
            && ms[i].end <= |done|
            && done[..ms[i].start] + part + done[ms[i].end..]
               == text[..Boundary(ms, i)] + Interleave(Gaps(text, Boundary(ms, i), ms[i..]), [part] + parts)
  {
    SpacedFrom(text, 0, ms, i);
    assert ms[i..][1..] == ms[i + 1..];
    InterleaveStep(text, Boundary(ms, i), ms[i..], part, parts);
    hide Spaced, Gaps, Interleave;
    CutAndPut(text, Boundary(ms, i), ms[i].start, ms[i].end, part,
              Interleave(Gaps(text, ms[i].end, ms[i + 1..]), parts));
  }

  lemma CutAndPut(text: string, from: nat, start: nat, end: nat, part: string, tail: string)
    requires from <= start <= end <= |text|
    ensures var done := text[..end] + tail;
            done[..start] + part + done[end..] == text[..from] + (text[from..start] + part + tail)
  {
  }

  /** `redactText`'s loop: each match is cut out and its part put in, the last match first. */
  method ReplaceRightToLeft(text: string, ms: seq<SecretMatch>, parts: seq<string>) returns (redacted: string)
    requires Spaced(text, 0, ms) && |parts| == |ms|
    ensures redacted == Spliced(text, ms, parts)
  {
    hide Gaps, Interleave, Spaced;
    redacted := text;
    var i := |ms|;
    SpacedTail(text, ms);
    assert parts[|ms|..] == [];
    assert text == text[..Boundary(ms, |ms|)] + text[Boundary(ms, |ms|)..];
    while i > 0
      invariant 0 <= i <= |ms|
      invariant Boundary(ms, i) <= |text| && Spaced(text, Boundary(ms, i), ms[i..])
      invariant redacted == text[..Boundary(ms, i)] + Interleave(Gaps(text, Boundary(ms, i), ms[i..]), parts[i..])
    {
      i := i - 1;
      ReplaceStep(text, ms, i, parts[i], parts[i + 1..]);
      assert [parts[i]] + parts[i + 1..] == parts[i..];
      redacted := redacted[..ms[i].start] + parts[i] + redacted[ms[i].end..];
    }
    assert ms[0..] == ms && parts[0..] == parts;
  }

  lemma SpacedTail(text: string, ms: seq<SecretMatch>)
    requires Spaced(text, 0, ms)
    ensures Boundary(ms, |ms|) <= |text| && ms[|ms|..] == []
    ensures Spaced(text, Boundary(ms, |ms|), [])
    ensures Interleave(Gaps(text, Boundary(ms, |ms|), []), []) == text[Boundary(ms, |ms|)..]
  {
    SpacedEnds(text, 0, ms);
  }

  // ---- Where everything stands ---------------------------------------------------------------

  /** How far the parts put in before match `i` move it: what they add, less what they replace. */
  function Shift(ms: seq<SecretMatch>, parts: seq<string>, i: nat): int
    requires i <= |ms| == |parts|
  {
    if i == 0 then 0 else Shift(ms, parts, i - 1) + |parts[i - 1]| - (ms[i - 1].end - ms[i - 1].start)
  }

  /** The splice up to match `i`, and how long that is. */
  lemma {:induction false} SplicedUpTo(text: string, ms: seq<SecretMatch>, parts: seq<string>, i: nat)
    returns (head: string)
    requires Spaced(text, 0, ms) && i <= |ms| == |parts|
    ensures Boundary(ms, i) <= |text| && Spaced(text, Boundary(ms, i), ms[i..])
    ensures Spliced(text, ms, parts) == head + Interleave(Gaps(text, Boundary(ms, i), ms[i..]), parts[i..])
    ensures |head| == Boundary(ms, i) + Shift(ms, parts, i)
    ensures i > 0 ==>
              var from := Boundary(ms, i - 1);
              && from <= ms[i - 1].start <= |text|
              && |parts[i - 1]| + (ms[i - 1].start - from) <= |head|
              && head[|head| - |parts[i - 1]|..] == parts[i - 1]
              && head[|head| - |parts[i - 1]| - (ms[i - 1].start - from)..|head| - |parts[i - 1]|]
                 == text[from..ms[i - 1].start]
  {
    hide Gaps, Interleave, Spaced;
    SpacedEnds(text, 0, ms);
    if i == 0 {
      head := "";
      assert ms[0..] == ms && parts[0..] == parts;
    } else {
      var before := SplicedUpTo(text, ms, parts, i - 1);
      SpacedFrom(text, 0, ms, i - 1);
      var from, m, part := Boundary(ms, i - 1), ms[i - 1], parts[i - 1];
      assert ms[i - 1..][1..] == ms[i..] && parts[i - 1..] == [part] + parts[i..];
      InterleaveStep(text, from, ms[i - 1..], part, parts[i..]);
      head := before + text[from..m.start] + part;
    }
  }

  /**
   * Part `i` stands where its match stood, moved by the parts before it; before it stands the text
   * from the previous match on, and behind the last part the rest of the text.
   */
  lemma PartStands(text: string, ms: seq<SecretMatch>, parts: seq<string>, i: nat)
    requires Spaced(text, 0, ms) && i < |ms| == |parts|
    ensures var out, at := Spliced(text, ms, parts), ms[i].start + Shift(ms, parts, i);
            var from := if i == 0 then 0 else ms[i - 1].end;
            && from <= ms[i].start <= ms[i].end <= |text|
            && 0 <= at - (ms[i].start - from) && at + |parts[i]| <= |out|
            && out[at..at + |parts[i]|] == parts[i]
            && out[at - (ms[i].start - from)..at] == text[from..ms[i].start]
            && (i == |ms| - 1 ==> out[at + |parts[i]|..] == text[ms[i].end..])
  {
    hide Gaps, Interleave, Spaced;
    SpacedEnds(text, 0, ms);
    var head := SplicedUpTo(text, ms, parts, i + 1);
    var out := Spliced(text, ms, parts);
    assert out[..|head|] == head;
    if i == |ms| - 1 {
      SpacedTail(text, ms);
      assert parts[|ms|..] == [];
      assert out == head + text[ms[i].end..];
    }
  }

  /** Without matches the splice is the text. */
  lemma NothingToSplice(text: string)
    ensures Spaced(text, 0, []) && Spliced(text, [], []) == text
  {
  }
}
