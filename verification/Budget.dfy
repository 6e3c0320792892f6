/**
 * The two byte counters of `safe-archive/src/guard.ts`: `ByteBudget`, which sits between inflate
 * and the file, and the bounded upload reader. A stream is any sequence of chunks.
 */
module Budget {
  import opened Results
  import opened Bytes
  import opened Refusals
  import opened Text
  import Guard

  /** What a source delivers: chunks, and whether it then ends or breaks (corrupt data, I/O error). */
  datatype Stream = Stream(chunks: seq<Data>, ends: bool)

  datatype Verdict = Completed | Cut(reason: Refusal) | Broken

  /** What comes out of the counter. */
  datatype Fed = Fed(emitted: seq<Data>, verdict: Verdict)

  function Check(written: nat, declared: nat, remaining: int): Option<Refusal> {
    if written > declared then Some(DeclaredSizeMismatch)
    else if written > remaining then Some(ExpansionRatioExceeded)
    else None
  }

  /** The counter over a whole stream, `written` bytes being through already. */
  function Feed(s: Stream, written: nat, declared: nat, remaining: int): Fed
    decreases |s.chunks|
  {
    if s.chunks == [] then Fed([], if s.ends then Completed else Broken)
    else
      var now := written + |s.chunks[0]|;
      match Check(now, declared, remaining)
      case Some(reason) => Fed([], Cut(reason))
      case None =>
        var rest := Feed(Stream(s.chunks[1..], s.ends), now, declared, remaining);
        Fed([s.chunks[0]] + rest.emitted, rest.verdict)
  }

  class ByteBudget {
    var written: nat
    const declared: nat
    const remaining: int

    constructor (declared: nat, remaining: int)
      ensures written == 0 && this.declared == declared && this.remaining == remaining
    {
      this.written := 0;
      this.declared := declared;
      this.remaining := remaining;
    }

    /** `_transform`: count first, then pass the chunk on or refuse. */
    method Transform(chunk: Data) returns (r: Result<Data, Refusal>)
      modifies this
      ensures written == old(written) + |chunk|
      ensures r == match Check(written, declared, remaining) case Some(reason) => Err(reason) case None => Ok(chunk)
    {
      written := written + |chunk|;
      if written > declared {
        return Err(DeclaredSizeMismatch);
      }
      if written > remaining {
        return Err(ExpansionRatioExceeded);
      }
      return Ok(chunk);
    }
  }

  /** Never more than either limit gets through, and a completed stream gets through whole. */
  lemma {:induction false} FeedBounded(s: Stream, written: nat, declared: nat, remaining: int)
    ensures var fed := Feed(s, written, declared, remaining);
            && (written <= declared ==> written + |Flatten(fed.emitted)| <= declared)
            && (written <= remaining ==> written + |Flatten(fed.emitted)| <= remaining)
            && fed.emitted <= s.chunks
            && (fed.verdict == Completed ==> fed.emitted == s.chunks)
    decreases |s.chunks|
  {
    if s.chunks != [] && Check(written + |s.chunks[0]|, declared, remaining).None? {
      var rest := Stream(s.chunks[1..], s.ends);
      FeedBounded(rest, written + |s.chunks[0]|, declared, remaining);
      assert s.chunks == [s.chunks[0]] + s.chunks[1..];
      assert Feed(s, written, declared, remaining).emitted[1..]
          == Feed(rest, written + |s.chunks[0]|, declared, remaining).emitted;
    }
  }

  /** A stream completes exactly when it ends and its total is within both limits. */
  lemma {:induction false} FeedCompletes(s: Stream, written: nat, declared: nat, remaining: int)
    requires written <= declared && written <= remaining
    ensures Feed(s, written, declared, remaining).verdict == Completed
       <==> s.ends && written + |Flatten(s.chunks)| <= declared && written + |Flatten(s.chunks)| <= remaining
    decreases |s.chunks|
  {
    if s.chunks != [] && Check(written + |s.chunks[0]|, declared, remaining).None? {
      FeedCompletes(Stream(s.chunks[1..], s.ends), written + |s.chunks[0]|, declared, remaining);
    }
  }

  /** A declaration inside the remaining budget leaves only one way to be refused. */
  lemma {:induction false} DeclarationRefusesFirst(s: Stream, written: nat, declared: nat, remaining: int)
    requires declared <= remaining
    ensures var verdict := Feed(s, written, declared, remaining).verdict;
            verdict.Cut? ==> verdict.reason == DeclaredSizeMismatch
    decreases |s.chunks|
  {
    if s.chunks != [] && Check(written + |s.chunks[0]|, declared, remaining).None? {
      DeclarationRefusesFirst(Stream(s.chunks[1..], s.ends), written + |s.chunks[0]|, declared, remaining);
    }
  }

  /** A stream that does not complete was too long for its declaration, or else it broke. */
  lemma {:induction false} FeedBreaks(s: Stream, written: nat, declared: nat, remaining: int)
    requires written <= declared <= remaining
    ensures var verdict := Feed(s, written, declared, remaining).verdict;
            verdict != Completed ==>
              verdict == if written + |Flatten(s.chunks)| > declared then Cut(DeclaredSizeMismatch) else Broken
    decreases |s.chunks|
  {
    if s.chunks != [] && Check(written + |s.chunks[0]|, declared, remaining).None? {
      FeedBreaks(Stream(s.chunks[1..], s.ends), written + |s.chunks[0]|, declared, remaining);
    }
  }

  /** How a stream is cut into chunks decides neither whether it completes nor what then got through. */
  lemma CompletionIgnoresChunking(a: Stream, b: Stream, declared: nat, remaining: nat)
    requires Flatten(a.chunks) == Flatten(b.chunks) && a.ends == b.ends
    requires Feed(a, 0, declared, remaining).verdict == Completed
    ensures Feed(b, 0, declared, remaining).verdict == Completed
    ensures Flatten(Feed(a, 0, declared, remaining).emitted) == Flatten(Feed(b, 0, declared, remaining).emitted)
  {
    FeedCompletes(a, 0, declared, remaining);
    FeedCompletes(b, 0, declared, remaining);
    FeedBounded(a, 0, declared, remaining);
    FeedBounded(b, 0, declared, remaining);
  }

  /** The verdict on one particular chunking of some bytes. */
  ghost function VerdictOn(chunks: seq<Data>, declared: nat, remaining: int): Verdict {
    Feed(Stream(chunks, true), 0, declared, remaining).verdict
  }

  lemma {:induction false} VerdictByTotal(chunks: seq<Data>, written: nat, declared: nat, remaining: nat)
    requires written <= declared && written <= remaining
    requires declared <= remaining || written + |Flatten(chunks)| <= declared
    ensures Feed(Stream(chunks, true), written, declared, remaining).verdict ==
            match Check(written + |Flatten(chunks)|, declared, remaining)
            case Some(reason) => Cut(reason)
            case None => Completed
    decreases |chunks|
  {
    if chunks != [] && Check(written + |chunks[0]|, declared, remaining).None? {
      VerdictByTotal(chunks[1..], written + |chunks[0]|, declared, remaining);
    }
  }

  /**
   * The reason for a refusal does depend on the chunking: bytes past a declaration that is itself
   * past the budget are refused as one or the other according to where the first bad chunk ends.
   * It is independent exactly when the declaration is within the budget or is kept.
   */
  lemma ReasonIgnoresChunking(bytes: Data, declared: nat, remaining: nat)
    ensures (forall a: seq<Data>, b: seq<Data> | Flatten(a) == bytes && Flatten(b) == bytes ::
               VerdictOn(a, declared, remaining) == VerdictOn(b, declared, remaining))
       <==> declared <= remaining || |bytes| <= declared
  {
    if declared <= remaining || |bytes| <= declared {
      forall a: seq<Data>, b: seq<Data> | Flatten(a) == bytes && Flatten(b) == bytes
        ensures VerdictOn(a, declared, remaining) == VerdictOn(b, declared, remaining)
      {
        VerdictByTotal(a, 0, declared, remaining);
        VerdictByTotal(b, 0, declared, remaining);
      }
    } else {
      var whole, cut := [bytes], [bytes[..remaining + 1], bytes[remaining + 1..]];
      assert Flatten(whole) == bytes;
      assert cut[1..] == [bytes[remaining + 1..]] && Flatten(cut[1..]) == bytes[remaining + 1..];
      assert Flatten(cut) == bytes;
      assert VerdictOn(whole, declared, remaining) == Cut(DeclaredSizeMismatch);
      assert VerdictOn(cut, declared, remaining) == Cut(ExpansionRatioExceeded);
    }
  }

  function Max(a: nat, b: nat): nat { if a < b then b else a }

  function Longest(chunks: seq<Data>): nat {
    if chunks == [] then 0 else Max(|chunks[0]|, Longest(chunks[1..]))
  }

  lemma {:induction false} LongestBounds(chunks: seq<Data>, k: nat)
    requires k < |chunks|
    ensures |chunks[k]| <= Longest(chunks)
  {
    if k > 0 {
      LongestBounds(chunks[1..], k - 1);
    }
  }

  /**
   * `readBoundedUpload`: the exact concatenation, or a refusal as soon as the total passes the
   * limit. `buffered` is the most that was ever kept and `held` counts the chunk in hand and, at the
   * end, the concatenated copy as well.
   */
  method ReadBoundedUpload(source: seq<Data>, limits: Guard.Limits)
    returns (r: Result<Data, Refusal>, ghost buffered: nat, ghost held: nat)
    ensures r == if |Flatten(source)| <= limits.maxBytes then Ok(Flatten(source)) else Err(ArchiveTooLarge)
    ensures buffered <= limits.maxBytes
    ensures held <= limits.maxBytes + Max(limits.maxBytes, Longest(source))
  {
    var chunks: seq<Data> := [];
    var total := 0;
    buffered, held := 0, 0;
    for k := 0 to |source|
      invariant chunks == source[..k]
      invariant total == |Flatten(chunks)| <= limits.maxBytes
      invariant buffered <= limits.maxBytes && held <= limits.maxBytes + Longest(source)
    {
      var chunk := source[k];
      LongestBounds(source, k);
      held := Max(held, total + |chunk|);
      total := total + |chunk|;
      assert source[..k + 1] == source[..k] + [chunk];
      FlattenAppend(chunks, [chunk]);
      FlattenAppend(source[..k + 1], source[k + 1..]);
      assert source == source[..k + 1] + source[k + 1..] && Flatten([chunk]) == chunk;
      if total > limits.maxBytes {
        return Err(ArchiveTooLarge), buffered, held;
      }
      chunks := chunks + [chunk];
      buffered := Max(buffered, |Flatten(chunks)|);
    }
    assert source[..|source|] == source;
    held := Max(held, 2 * total);
    return Ok(Flatten(chunks)), buffered, held;
  }
}
