/**
 * What `redaction/src/assemble.ts` puts on the page, literally: the prompt line by line, the
 * placeholder in the place of every secret, and the marker in a log line.
 */
module Rendering {
  import opened Text
  import opened Detection
  import opened Splice
  import opened Assemble

  // ---- Placeholders --------------------------------------------------------------------------

  /** What stands for match `i` of segment `k`: the kind and the number of its value's record. */
  lemma PlaceholderIsSpelled(source: PromptSource, oracle: Oracle, k: nat, i: nat) returns (r: nat)
    requires OracleFits(source, oracle) && k < |source.segments|
    requires i < |MatchesIn(source.segments[k], oracle)|
    ensures r < |Records(source, oracle)|
    ensures var record, ms := Records(source, oracle)[r], MatchesIn(source.segments[k], oracle);
            && record.placeholder == "[[REDACTED:" + KindName(record.kind) + ":" + Decimal(r + 1) + "]]"
            && Placeholders(ms, FinalGiven(source, oracle))[i] == record.placeholder
  {
    hide MatchesIn, Occurrences, AssignAll, KindName, Bijective;
    Covered(source, oracle, k, |source.segments|);
    var m := MatchesIn(source.segments[k], oracle)[i];
    assert m in MatchesIn(source.segments[k], oracle);
    var all := Occurrences(source, oracle, |source.segments|);
    LedgerIsBijection(all);
    var l := AssignAll(EMPTY_LEDGER, all);
    r := RecordFor(l, Distinct(all), m.value);
    RecordPlaceholder(l, Distinct(all), r);
    Spelling(KindName(l.records[r].kind), Decimal(r + 1));
  }

  lemma Spelling(kind: string, number: string)
    ensures "[[REDACTED:" + (kind + [':'] + number) + "]]" == "[[REDACTED:" + kind + ":" + number + "]]"
  {
  }

  /** Record `r` is of the occurrence at which its value was first met. */
  lemma {:induction false} RecordIsOfOccurrence(occurrences: seq<Occurrence>, r: nat) returns (j: nat)
    requires r < |AssignAll(EMPTY_LEDGER, occurrences).records|
    ensures var l := AssignAll(EMPTY_LEDGER, occurrences);
            && j < |occurrences| && occurrences[j].value in l.given
            && l.given[occurrences[j].value] == l.records[r].placeholder
            && l.records[r].kind == occurrences[j].kind && l.records[r].location == occurrences[j].location
            && forall i | 0 <= i < j :: occurrences[i].value != occurrences[j].value
    decreases |occurrences|
  {
    hide PlaceholderFor;
    var before, last := occurrences[..|occurrences| - 1], |occurrences| - 1;
    if r < |AssignAll(EMPTY_LEDGER, before).records| {
      j := RecordIsOfOccurrence(before, r);
    } else {
      j := last;
      AssignKeeps(EMPTY_LEDGER, before);
      forall i | 0 <= i < last
        ensures occurrences[i].value != occurrences[last].value
      {
        assert before[i] in before;
      }
    }
  }

  /** Every occurrence is a match of some segment, with its place spelled out. */
  lemma {:induction false} OccurrenceIsMatch(source: PromptSource, oracle: Oracle, n: nat, j: nat)
    returns (k: nat, i: nat)
    requires OracleFits(source, oracle) && n <= |source.segments| && j < |Occurrences(source, oracle, n)|
    ensures k < n && i < |MatchesIn(source.segments[k], oracle)|
    ensures var m, o := MatchesIn(source.segments[k], oracle)[i], Occurrences(source, oracle, n)[j];
            && o.value == m.value && o.kind == m.kind
            && o.location == source.segments[k].path + ":" + Decimal(m.line) + ":" + Decimal(m.column)
  {
    hide MatchesIn, OracleFits, InDocumentOrder, Spaced, Decimal;
    Fits(source, oracle, n - 1);
    var before := Occurrences(source, oracle, n - 1);
    if j < |before| {
      k, i := OccurrenceIsMatch(source, oracle, n - 1, j);
    } else {
      k := n - 1;
      var path, ms := source.segments[k].path, MatchesIn(source.segments[k], oracle);
      i := |ms| - 1 - (j - |before|);
      assert Occurrences(source, oracle, n)[j] == Reversed(path, ms)[j - |before|] == OccurrenceOf(path, ms[i]);
    }
  }

  /** A placeholder record names the kind and the place of a match whose value its placeholder stands for. */
  lemma RecordIsOfMatch(source: PromptSource, oracle: Oracle, r: nat) returns (k: nat, i: nat)
    requires OracleFits(source, oracle) && r < |Records(source, oracle)|
    ensures k < |source.segments| && i < |MatchesIn(source.segments[k], oracle)|
    ensures var m, record := MatchesIn(source.segments[k], oracle)[i], Records(source, oracle)[r];
            && record.kind == m.kind
            && record.location == source.segments[k].path + ":" + Decimal(m.line) + ":" + Decimal(m.column)
            && Lookup(FinalGiven(source, oracle), m.value) == record.placeholder
  {
    hide MatchesIn, Occurrences, AssignAll, OracleFits, Decimal;
    var j := RecordIsOfOccurrence(Occurrences(source, oracle, |source.segments|), r);
    k, i := OccurrenceIsMatch(source, oracle, |source.segments|, j);
  }

  // ---- The prompt ----------------------------------------------------------------------------

  /** A segment's text in the prompt: whole, or cut with a line that says how much is missing. */
  ghost predicate IsBody(redacted: string, body: string, maxChars: nat) {
    if |redacted| <= maxChars then body == redacted
    else
      body == redacted[..maxChars] + "\n\U{2026} [truncated " + Decimal(|redacted| - maxChars) + " characters]"
  }

  /** One segment in the prompt: a new line, its header, a new line, its text. */
  function Piece(segment: Segment, body: string): string {
    "\n--- " + segment.name + ": " + segment.path + " ---\n" + body
  }

  /** The first `n` segments, one after the other. */
  function Pieces(segments: seq<Segment>, bodies: seq<string>, n: nat): string
    requires n <= |segments| == |bodies|
  {
    if n == 0 then "" else Pieces(segments, bodies, n - 1) + Piece(segments[n - 1], bodies[n - 1])
  }

  /** Every line preceded by the separator. */
  function Prefixed(parts: seq<string>): string {
    if parts == [] then "" else "\n" + parts[0] + Prefixed(parts[1..])
  }

  lemma {:induction false} JoinIsPrefixed(parts: seq<string>)
    requires parts != []
    ensures Join(parts, "\n") == parts[0] + Prefixed(parts[1..])
    decreases |parts|
  {
    if |parts| > 1 {
      JoinIsPrefixed(parts[1..]);
    }
  }

  lemma {:induction false} PrefixedAppend(parts: seq<string>, last: string)
    ensures Prefixed(parts + [last]) == Prefixed(parts) + "\n" + last
    decreases |parts|
  {
    if parts == [] {
      assert [] + [last] == [last] && [last][1..] == [];
    } else {
      PrefixedAppend(parts[1..], last);
      assert (parts + [last])[1..] == parts[1..] + [last];
    }
  }

  /** The redacted text of segment `k`: its splice with the final placeholders. */
  function RedactedSegment(source: PromptSource, oracle: Oracle, k: nat): string
    requires OracleFits(source, oracle) && k < |source.segments|
  {
    var ms := MatchesIn(source.segments[k], oracle);
    Spliced(source.segments[k].content, ms, Placeholders(ms, FinalGiven(source, oracle)))
  }

  lemma RenderedIsPiece(segment: Segment, ms: seq<SecretMatch>, given: map<string, string>, maxChars: nat)
    returns (body: string)
    requires Spaced(segment.content, 0, ms)
    ensures IsBody(Spliced(segment.content, ms, Placeholders(ms, given)), body, maxChars)
    ensures "\n" + Rendered(segment, ms, given, maxChars) == Piece(segment, body)
  {
    hide Spliced, Spaced, Decimal;
    body := Clip(Spliced(segment.content, ms, Placeholders(ms, given)), maxChars);
  }

  lemma {:induction false} RenderedArePieces(source: PromptSource, oracle: Oracle, maxChars: nat, n: nat)
    returns (bodies: seq<string>)
    requires OracleFits(source, oracle) && n <= |source.segments|
    ensures |bodies| == n
    ensures forall k | 0 <= k < n :: IsBody(RedactedSegment(source, oracle, k), bodies[k], maxChars)
    ensures Prefixed(RenderedAll(source, oracle, FinalGiven(source, oracle), maxChars, n))
         == Pieces(source.segments[..n], bodies, n)
  {
    hide MatchesIn, FinalGiven, Rendered, IsBody, Piece, OracleFits, Spliced, Placeholders, InDocumentOrder, Spaced;
    if n == 0 {
      bodies := [];
    } else {
      var before := RenderedArePieces(source, oracle, maxChars, n - 1);
      Fits(source, oracle, n - 1);
      var segment, given := source.segments[n - 1], FinalGiven(source, oracle);
      var body := RenderedIsPiece(segment, MatchesIn(segment, oracle), given, maxChars);
      bodies := before + [body];
      PrefixedAppend(RenderedAll(source, oracle, given, maxChars, n - 1),
                     Rendered(segment, MatchesIn(segment, oracle), given, maxChars));
      PiecesPrefix(source.segments[..n - 1], before, source.segments[..n], bodies, n - 1);
    }
  }

  lemma {:induction false} PiecesPrefix(a: seq<Segment>, x: seq<string>, b: seq<Segment>, y: seq<string>, n: nat)
    requires n <= |a| == |x| && n <= |b| == |y|
    requires forall k | 0 <= k < n :: a[k] == b[k] && x[k] == y[k]
    ensures Pieces(a, x, n) == Pieces(b, y, n)
  {
    hide Piece;
    if n > 0 {
      PiecesPrefix(a, x, b, y, n - 1);
    }
  }

  /** The prompt is the instructions, an empty line, and the segments in order, with nothing else. */
  lemma PromptIsLaidOut(source: PromptSource, oracle: Oracle, maxChars: nat) returns (bodies: seq<string>)
    requires OracleFits(source, oracle)
    ensures |bodies| == |source.segments|
    ensures forall k | 0 <= k < |bodies| :: IsBody(RedactedSegment(source, oracle, k), bodies[k], maxChars)
    ensures PromptText(source, oracle, maxChars)
         == source.instructions + "\n" + Pieces(source.segments, bodies, |bodies|)
  {
    hide RenderedAll, FinalGiven, IsBody, OracleFits, RedactedSegment, Pieces, Join;
    var n := |source.segments|;
    bodies := RenderedArePieces(source, oracle, maxChars, n);
    assert source.segments[..n] == source.segments;
    var rendered := RenderedAll(source, oracle, FinalGiven(source, oracle), maxChars, n);
    var parts := [source.instructions, ""] + rendered;
    JoinIsPrefixed(parts);
    assert parts[1..] == [""] + rendered && parts[1..][1..] == rendered;
  }

  lemma {:induction false} PieceStands(segments: seq<Segment>, bodies: seq<string>, k: nat, n: nat)
    requires k < n <= |segments| == |bodies|
    ensures Pieces(segments, bodies, k) + Piece(segments[k], bodies[k]) <= Pieces(segments, bodies, n)
  {
    hide Piece;
    if k + 1 < n {
      PieceStands(segments, bodies, k, n - 1);
    }
  }

  /** Segment `k` stands behind the instructions, a newline and the segments before it, wherever those end. */
  lemma SegmentStands(source: PromptSource, oracle: Oracle, maxChars: nat, k: nat) returns (bodies: seq<string>)
    requires OracleFits(source, oracle) && k < |source.segments|
    ensures |bodies| == |source.segments|
    ensures forall j | 0 <= j < |bodies| :: IsBody(RedactedSegment(source, oracle, j), bodies[j], maxChars)
    ensures var text, segment := PromptText(source, oracle, maxChars), source.segments[k];
            var piece := "\n--- " + segment.name + ": " + segment.path + " ---\n" + bodies[k];
            var at := |source.instructions| + 1 + |Pieces(source.segments, bodies, k)|;
            && at + |piece| <= |text| && text[at..at + |piece|] == piece
            && source.instructions + "\n" <= text && (k == |bodies| - 1 ==> at + |piece| == |text|)
  {
    hide IsBody, RedactedSegment, OracleFits, PromptText;
    bodies := PromptIsLaidOut(source, oracle, maxChars);
    PieceStands(source.segments, bodies, k, |bodies|);
    var head, all := source.instructions + "\n", Pieces(source.segments, bodies, |bodies|);
    var before, piece := Pieces(source.segments, bodies, k), Piece(source.segments[k], bodies[k]);
    hide Pieces;
    PieceInside(head, all, before, piece);
    assert piece == "\n--- " + source.segments[k].name + ": " + source.segments[k].path + " ---\n" + bodies[k];
  }

  lemma PieceInside(head: string, all: string, before: string, piece: string)
    requires before + piece <= all
    ensures |head| + |before| + |piece| <= |head + all| && head <= head + all
    ensures (head + all)[|head| + |before|..|head| + |before| + |piece|] == piece
  {
    var n := |before + piece|;
    assert all[..n] == before + piece && (before + piece)[|before|..] == piece;
    assert all[..n][|before|..] == all[|before|..n];
    assert (head + all)[|head| + |before|..|head| + n] == all[|before|..n];
  }

  /** In a segment's redacted text every match has given way to its placeholder, at the place that follows. */
  lemma PlaceholderStands(source: PromptSource, oracle: Oracle, k: nat, i: nat) returns (r: nat)
    requires OracleFits(source, oracle) && k < |source.segments|
    requires i < |MatchesIn(source.segments[k], oracle)|
    ensures r < |Records(source, oracle)|
    ensures var ms, redacted := MatchesIn(source.segments[k], oracle), RedactedSegment(source, oracle, k);
            var spelled := "[[REDACTED:" + KindName(Records(source, oracle)[r].kind) + ":" + Decimal(r + 1) + "]]";
            var at := ms[i].start + Shift(ms, Placeholders(ms, FinalGiven(source, oracle)), i);
            && 0 <= at && at + |spelled| <= |redacted| && redacted[at..at + |spelled|] == spelled
  {
    hide MatchesIn, FinalGiven, Records, Spliced, KindName, Shift, Decimal;
    r := PlaceholderIsSpelled(source, oracle, k, i);
    var segment := source.segments[k];
    var ms := MatchesIn(segment, oracle);
    PartStands(segment.content, ms, Placeholders(ms, FinalGiven(source, oracle)), i);
  }

  // ---- Log lines -----------------------------------------------------------------------------

  lemma RedactedIs(text: string, oracle: Oracle)
    requires WellFormed(text, oracle(text))
    ensures var ms := Detect(text, oracle(text));
            Spaced(text, 0, ms) && Redacted(text, oracle) == Spliced(text, ms, KindMarkers(ms))
  {
    MatchesInDocumentOrder(text, oracle(text));
    SpacedOutOfOrder(text, 0, Detect(text, oracle(text)));
  }

  /**
   * In a log line the marker of its kind stands for every match, the text between matches stands
   * unchanged before it, and behind the last one the rest.
   */
  lemma MarkerStands(text: string, oracle: Oracle, i: nat)
    requires WellFormed(text, oracle(text)) && i < |Detect(text, oracle(text))|
    ensures var ms, out := Detect(text, oracle(text)), Redacted(text, oracle);
            var marker := "[[REDACTED:" + KindName(ms[i].kind) + "]]";
            var from, at := if i == 0 then 0 else ms[i - 1].end, ms[i].start + Shift(ms, KindMarkers(ms), i);
            && from <= ms[i].start <= ms[i].end <= |text|
            && 0 <= at - (ms[i].start - from) && at + |marker| <= |out|
            && out[at..at + |marker|] == marker
            && out[at - (ms[i].start - from)..at] == text[from..ms[i].start]
            && (i == |ms| - 1 ==> out[at + |marker|..] == text[ms[i].end..])
  {
    hide Detect, Redacted, Spliced, Spaced, KindName, Shift, WellFormed;
    RedactedIs(text, oracle);
    var ms := Detect(text, oracle(text));
    PartStands(text, ms, KindMarkers(ms), i);
    assert KindMarkers(ms)[i] == "[[REDACTED:" + KindName(ms[i].kind) + "]]";
  }

  lemma QuietLineStays(text: string, oracle: Oracle)
    requires WellFormed(text, oracle(text)) && Detect(text, oracle(text)) == []
    ensures Redacted(text, oracle) == text
  {
    hide Detect;
    NothingToSplice(text);
    RedactedIs(text, oracle);
  }

  predicate SameKinds(ms: seq<SecretMatch>, ns: seq<SecretMatch>) {
    |ms| == |ns| && forall i | 0 <= i < |ms| :: ms[i].kind == ns[i].kind
  }

  /** Two lines with the same text around as many secrets of the same kinds become the same line. */
  lemma LinesDoNotShow(s: string, o: Oracle, t: string, p: Oracle)
    requires WellFormed(s, o(s)) && WellFormed(t, p(t))
    requires SameKinds(Detect(s, o(s)), Detect(t, p(t)))
    requires Spaced(s, 0, Detect(s, o(s))) && Spaced(t, 0, Detect(t, p(t)))
    requires Gaps(s, 0, Detect(s, o(s))) == Gaps(t, 0, Detect(t, p(t)))
    ensures Redacted(s, o) == Redacted(t, p)
  {
    hide Detect, Spaced, Gaps, Redacted, WellFormed, KindMarker;
    RedactedIs(s, o);
    RedactedIs(t, p);
    assert KindMarkers(Detect(s, o(s))) == KindMarkers(Detect(t, p(t)));
  }
}
