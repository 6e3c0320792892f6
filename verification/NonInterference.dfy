/**
 * Redaction as a two-run property: whatever leaves the assembler does not depend on what the
 * detected secrets are, only on where they are, of which kind, and which of them are equal; and the
 * prompt text not even on how long they are.
 */
module NonInterference {
  import opened Text
  import opened Sorting
  import opened Detection
  import opened Splice
  import opened Assemble
  import opened Findings
  import opened Rendering

  // ---- Detection sees shapes only ------------------------------------------------------------

  predicate SameShape(a: Candidate, b: Candidate) { a.kind == b.kind && a.start == b.start && a.end == b.end }

  predicate SameShapes(xs: seq<Candidate>, ys: seq<Candidate>) {
    |xs| == |ys| && forall i | 0 <= i < |xs| :: SameShape(xs[i], ys[i])
  }

  ghost predicate Respects(le: (Candidate, Candidate) -> bool) {
    forall a, b, c, d | SameShape(a, c) && SameShape(b, d) :: le(a, b) == le(c, d)
  }

  lemma {:induction false} InsertShapes(x: Candidate, y: Candidate, xs: seq<Candidate>, ys: seq<Candidate>,
                                        le: (Candidate, Candidate) -> bool)
    requires SameShape(x, y) && SameShapes(xs, ys) && Respects(le)
    ensures SameShapes(Insert(x, xs, le), Insert(y, ys, le))
    decreases |xs|
  {
    if xs != [] && !le(x, xs[0]) {
      assert SameShape(xs[0], ys[0]);
      InsertShapes(x, y, xs[1..], ys[1..], le);
    }
  }

  lemma {:induction false} SortShapes(xs: seq<Candidate>, ys: seq<Candidate>, le: (Candidate, Candidate) -> bool)
    requires SameShapes(xs, ys) && Respects(le)
    ensures SameShapes(Sort(xs, le), Sort(ys, le))
    decreases |xs|
  {
    if xs != [] {
      SortShapes(xs[1..], ys[1..], le);
      InsertShapes(xs[0], ys[0], Sort(xs[1..], le), Sort(ys[1..], le), le);
    }
  }

  lemma CollisionsAgree(xs: seq<Candidate>, ys: seq<Candidate>, c: Candidate, d: Candidate)
    requires SameShapes(xs, ys) && SameShape(c, d)
    ensures (exists a | a in xs :: Collide(a, c)) <==> (exists a | a in ys :: Collide(a, d))
  {
    if a :| a in xs && Collide(a, c) {
      var i :| 0 <= i < |xs| && xs[i] == a;
      assert SameShape(xs[i], ys[i]) && ys[i] in ys && Collide(ys[i], d);
    }
    if a :| a in ys && Collide(a, d) {
      var i :| 0 <= i < |ys| && ys[i] == a;
      assert SameShape(xs[i], ys[i]) && xs[i] in xs && Collide(xs[i], c);
    }
  }

  lemma {:induction false} AcceptShapes(s: seq<Candidate>, t: seq<Candidate>, a: seq<Candidate>, b: seq<Candidate>)
    requires SameShapes(s, t) && SameShapes(a, b)
    ensures SameShapes(Accept(s, a), Accept(t, b))
    decreases |s|
  {
    if s != [] {
      assert SameShape(s[0], t[0]);
      CollisionsAgree(a, b, s[0], t[0]);
      if exists x | x in a :: Collide(x, s[0]) {
        AcceptShapes(s[1..], t[1..], a, b);
      } else {
        AcceptShapes(s[1..], t[1..], a + [s[0]], b + [t[0]]);
      }
    }
  }

  predicate SameNewlines(s: string, t: string) {
    |s| == |t| && forall i | 0 <= i < |s| :: s[i] == '\n' <==> t[i] == '\n'
  }

  lemma {:induction false} StartsAgree(s: string, t: string, n: nat)
    requires SameNewlines(s, t) && n <= |s|
    ensures StartsUpTo(s, n) == StartsUpTo(t, n)
  {
    if n > 0 {
      StartsAgree(s, t, n - 1);
    }
  }

  predicate SameMatch(m: SecretMatch, n: SecretMatch) {
    m.kind == n.kind && m.start == n.start && m.end == n.end && m.line == n.line && m.column == n.column
  }

  predicate SameMatches(ms: seq<SecretMatch>, ns: seq<SecretMatch>) {
    |ms| == |ns| && forall i | 0 <= i < |ms| :: SameMatch(ms[i], ns[i])
  }

  /** Candidates of the same shapes on texts with the same lines give matches that differ in value only. */
  lemma DetectShapes(s: string, t: string, xs: seq<Candidate>, ys: seq<Candidate>)
    requires WellFormed(s, xs) && WellFormed(t, ys) && SameShapes(xs, ys) && SameNewlines(s, t)
    ensures SameMatches(Detect(s, xs), Detect(t, ys))
  {
    hide Sort, Accept, WellFormed, StartsUpTo;
    assert Respects(InOrder) && Respects(Leftmost);
    SortShapes(xs, ys, InOrder);
    AcceptShapes(Sort(xs, InOrder), Sort(ys, InOrder), [], []);
    SortShapes(Accepted(xs), Accepted(ys), Leftmost);
    var a, b := Sort(Accepted(xs), Leftmost), Sort(Accepted(ys), Leftmost);
    MatchesInDocumentOrder(s, xs);
    forall i | 0 <= i < |a|
      ensures SameMatch(Detect(s, xs)[i], Detect(t, ys)[i])
    {
      assert SameShape(a[i], b[i]);
      StartsAgree(s, t, Detect(s, xs)[i].start);
    }
  }

  // ---- The gaps do not see the spans ---------------------------------------------------------

  ghost predicate InMatch(ms: seq<SecretMatch>, i: nat) {
    exists m :: m in ms && m.start <= i < m.end
  }

  ghost predicate AgreeOutside(s: string, t: string, from: nat, ms: seq<SecretMatch>) {
    |s| == |t| && forall i | from <= i < |s| && !InMatch(ms, i) :: s[i] == t[i]
  }

  lemma {:induction false} GapsAgree(s: string, t: string, from: nat, ms: seq<SecretMatch>, ns: seq<SecretMatch>)
    requires Spaced(s, from, ms) && Spaced(t, from, ns) && SameMatches(ms, ns) && AgreeOutside(s, t, from, ms)
    ensures Gaps(s, from, ms) == Gaps(t, from, ns)
    decreases |ms|
  {
    if ms == [] {
      assert s[from..] == t[from..];
    } else {
      var m := ms[0];
      SpacedEnds(s, m.end, ms[1..]);
      assert ms == [m] + ms[1..] && SameMatch(m, ns[0]);
      forall i | from <= i < m.start
        ensures s[i] == t[i]
      {
        assert !InMatch(ms, i);
      }
      assert s[from..m.start] == t[from..m.start];
      forall i | m.end <= i < |s| && !InMatch(ms[1..], i)
        ensures s[i] == t[i]
      {
        assert !InMatch(ms, i);
      }
      GapsAgree(s, t, m.end, ms[1..], ns[1..]);
    }
  }

  // ---- Assignment sees equality only ---------------------------------------------------------

  /** The same kinds, and the same values equal to each other. */
  ghost predicate SamePattern(a: seq<Occurrence>, b: seq<Occurrence>) {
    && |a| == |b|
    && (forall i | 0 <= i < |a| :: a[i].kind == b[i].kind)
    && (forall i, j | 0 <= i < |a| && 0 <= j < |a| :: a[i].value == a[j].value <==> b[i].value == b[j].value)
  }

  /** The values met in the first `n` occurrences. */
  ghost function Met(a: seq<Occurrence>, n: nat): set<string>
    requires n <= |a|
  {
    if n == 0 then {} else Met(a, n - 1) + {a[n - 1].value}
  }

  lemma {:induction false} MetAt(a: seq<Occurrence>, n: nat, v: string) returns (j: nat)
    requires n <= |a| && v in Met(a, n)
    ensures j < n && a[j].value == v
  {
    if v == a[n - 1].value {
      j := n - 1;
    } else {
      j := MetAt(a, n - 1, v);
    }
  }

  lemma {:induction false} MetHas(a: seq<Occurrence>, n: nat, j: nat)
    requires j < n <= |a|
    ensures a[j].value in Met(a, n)
  {
    if j < n - 1 {
      MetHas(a, n - 1, j);
    }
  }

  /** Occurrence `j` has the same placeholder in both runs. */
  ghost predicate AgreeAt(a: seq<Occurrence>, b: seq<Occurrence>, j: nat, l: Ledger, k: Ledger)
    requires j < |a| == |b|
  {
    a[j].value in l.given && b[j].value in k.given && l.given[a[j].value] == k.given[b[j].value]
  }

  /** The ledgers of two runs that agree up to the values themselves. */
  ghost predicate Parallel(a: seq<Occurrence>, b: seq<Occurrence>, n: nat, l: Ledger, k: Ledger)
    requires n <= |a| == |b|
  {
    && l.ordinal == k.ordinal
    && l.given.Keys == Met(a, n) && k.given.Keys == Met(b, n)
    && forall j | 0 <= j < n :: AgreeAt(a, b, j, l, k)
  }

  lemma Equalities(a: seq<Occurrence>, b: seq<Occurrence>, i: nat, j: nat)
    requires SamePattern(a, b) && i < |a| && j < |a|
    ensures |a| == |b| && (a[i].value == a[j].value <==> b[i].value == b[j].value)
    ensures a[i].kind == b[i].kind
  {
  }

  /** A value met before in one run was met before in the other, at the same place. */
  lemma MetBefore(a: seq<Occurrence>, b: seq<Occurrence>, n: nat, l: Ledger, k: Ledger)
    requires |a| == |b| && SamePattern(a, b) && n < |a| && Parallel(a, b, n, l, k)
    ensures a[n].value in l.given <==> b[n].value in k.given
    ensures a[n].value in l.given ==> AgreeAt(a, b, n, l, k)
  {
    hide SamePattern;
    if a[n].value in l.given {
      var j := MetAt(a, n, a[n].value);
      Equalities(a, b, j, n);
      assert AgreeAt(a, b, j, l, k);
    } else if b[n].value in k.given {
      var j := MetAt(b, n, b[n].value);
      Equalities(a, b, j, n);
      MetHas(a, n, j);
    }
  }

  lemma ParallelStep(a: seq<Occurrence>, b: seq<Occurrence>, n: nat, l: Ledger, k: Ledger)
    requires |a| == |b| && SamePattern(a, b) && n < |a| && Parallel(a, b, n, l, k)
    ensures Parallel(a, b, n + 1, Assign(l, a[n]), Assign(k, b[n]))
  {
    hide PlaceholderFor, SamePattern;
    MetBefore(a, b, n, l, k);
    Equalities(a, b, n, n);
    var l', k' := Assign(l, a[n]), Assign(k, b[n]);
    assert l'.given.Keys == Met(a, n + 1);
    assert k'.given.Keys == Met(b, n + 1);
    forall j | 0 <= j < n + 1
      ensures AgreeAt(a, b, j, l', k')
    {
      if j < n {
        Equalities(a, b, j, n);
        assert AgreeAt(a, b, j, l, k);
      }
    }
  }

  lemma NothingMet(a: seq<Occurrence>, b: seq<Occurrence>)
    requires |a| == |b|
    ensures Parallel(a, b, 0, AssignAll(EMPTY_LEDGER, a[..0]), AssignAll(EMPTY_LEDGER, b[..0]))
  {
  }

  lemma {:induction false} AssignParallel(a: seq<Occurrence>, b: seq<Occurrence>, n: nat)
    requires |a| == |b| && SamePattern(a, b) && n <= |a|
    ensures Parallel(a, b, n, AssignAll(EMPTY_LEDGER, a[..n]), AssignAll(EMPTY_LEDGER, b[..n]))
  {
    hide Assign, SamePattern, Parallel, AssignAll;
    if n == 0 {
      NothingMet(a, b);
    } else {
      AssignParallel(a, b, n - 1);
      AssignNext(a, n - 1);
      AssignNext(b, n - 1);
      ParallelStep(a, b, n - 1, AssignAll(EMPTY_LEDGER, a[..n - 1]), AssignAll(EMPTY_LEDGER, b[..n - 1]));
    }
  }

  /** If the places are the same too, so are the records. */
  lemma {:induction false} RecordsAgree(a: seq<Occurrence>, b: seq<Occurrence>, n: nat)
    requires |a| == |b| && SamePattern(a, b) && n <= |a|
    requires forall i | 0 <= i < |a| :: a[i].location == b[i].location
    ensures AssignAll(EMPTY_LEDGER, a[..n]).records == AssignAll(EMPTY_LEDGER, b[..n]).records
  {
    hide SamePattern, Parallel, AssignAll, PlaceholderFor;
    if n == 0 {
      AssignNothing(EMPTY_LEDGER);
      assert a[..0] == [] && b[..0] == [];
    } else {
      RecordsAgree(a, b, n - 1);
      AssignNext(a, n - 1);
      AssignNext(b, n - 1);
      AssignParallel(a, b, n - 1);
      var l, k := AssignAll(EMPTY_LEDGER, a[..n - 1]), AssignAll(EMPTY_LEDGER, b[..n - 1]);
      MetBefore(a, b, n - 1, l, k);
      SameOrdinals(a, b, n - 1, l, k);
      Equalities(a, b, n - 1, n - 1);
    }
  }

  lemma SameOrdinals(a: seq<Occurrence>, b: seq<Occurrence>, n: nat, l: Ledger, k: Ledger)
    requires n <= |a| == |b| && Parallel(a, b, n, l, k)
    ensures l.ordinal == k.ordinal
  {
  }

  lemma AssignNext(a: seq<Occurrence>, n: nat)
    requires n < |a|
    ensures AssignAll(EMPTY_LEDGER, a[..n + 1]) == Assign(AssignAll(EMPTY_LEDGER, a[..n]), a[n])
  {
    hide Assign;
    assert a[..n + 1][..n] == a[..n];
  }

  // ---- Two sources ---------------------------------------------------------------------------

  /** Two segments with the same text around as many secrets of the same kinds. */
  ghost predicate SameAround(s: Segment, o: Oracle, t: Segment, p: Oracle) {
    && s.name == t.name && s.path == t.path
    && WellFormed(s.content, o(s.content)) && WellFormed(t.content, p(t.content))
    && SameKinds(MatchesIn(s, o), MatchesIn(t, p))
    && Gaps(s.content, 0, MatchesIn(s, o)) == Gaps(t.content, 0, MatchesIn(t, p))
  }

  /** Equal around the secrets; of those, only which are equal to each other is the same. */
  ghost predicate Alike(s: PromptSource, o: Oracle, t: PromptSource, p: Oracle) {
    && s.instructions == t.instructions && |s.segments| == |t.segments|
    && (forall k | 0 <= k < |s.segments| :: SameAround(s.segments[k], o, t.segments[k], p))
    && OracleFits(s, o) && OracleFits(t, p)
    && SameEqualities(Occurrences(s, o, |s.segments|), Occurrences(t, p, |t.segments|))
  }

  /** The same places, kinds included; ends may differ. */
  predicate SamePlaces(ms: seq<SecretMatch>, ns: seq<SecretMatch>) {
    && |ms| == |ns|
    && forall i | 0 <= i < |ms| ::
         ms[i].kind == ns[i].kind && ms[i].line == ns[i].line && ms[i].column == ns[i].column
  }

  /** Alike, with every secret beginning on the same line and column. */
  ghost predicate AlikeInPlace(s: PromptSource, o: Oracle, t: PromptSource, p: Oracle) {
    && Alike(s, o, t, p)
    && forall k | 0 <= k < |s.segments| :: SamePlaces(MatchesIn(s.segments[k], o), MatchesIn(t.segments[k], p))
  }

  ghost predicate SameEqualities(a: seq<Occurrence>, b: seq<Occurrence>) {
    forall i, j | 0 <= i < |a| && 0 <= j < |a| && i < |b| && j < |b| ::
      a[i].value == a[j].value <==> b[i].value == b[j].value
  }

  /**
   * Two segments with the same spans, kinds, lines and columns detected, and the same text outside
   * those spans. Nothing is asked of candidates that lost, nor of the text inside a span.
   */
  ghost predicate SimilarSegments(s: Segment, o: Oracle, t: Segment, p: Oracle) {
    && s.name == t.name && s.path == t.path
    && WellFormed(s.content, o(s.content)) && WellFormed(t.content, p(t.content))
    && SameMatches(MatchesIn(s, o), MatchesIn(t, p))
    && AgreeOutside(s.content, t.content, 0, MatchesIn(s, o))
  }

  /** Candidates that match up one by one, on texts with newlines in the same places, are enough. */
  lemma ShapesMakeSimilar(s: Segment, o: Oracle, t: Segment, p: Oracle)
    requires s.name == t.name && s.path == t.path
    requires WellFormed(s.content, o(s.content)) && WellFormed(t.content, p(t.content))
    requires SameShapes(o(s.content), p(t.content)) && SameNewlines(s.content, t.content)
    requires AgreeOutside(s.content, t.content, 0, MatchesIn(s, o))
    ensures SimilarSegments(s, o, t, p)
  {
    hide Detect, SameShapes, SameMatches, AgreeOutside;
    DetectShapes(s.content, t.content, o(s.content), p(t.content));
  }

  /** Equal but for the secrets: same spans, kinds and places, same text elsewhere, same equalities. */
  ghost predicate Indistinguishable(s: PromptSource, o: Oracle, t: PromptSource, p: Oracle) {
    && s.instructions == t.instructions && |s.segments| == |t.segments|
    && (forall k | 0 <= k < |s.segments| :: SimilarSegments(s.segments[k], o, t.segments[k], p))
    && OracleFits(s, o) && OracleFits(t, p)
    && SameEqualities(Occurrences(s, o, |s.segments|), Occurrences(t, p, |t.segments|))
  }

  lemma SimilarIsSameAround(s: Segment, o: Oracle, t: Segment, p: Oracle)
    requires SimilarSegments(s, o, t, p)
    ensures SameAround(s, o, t, p)
  {
    hide Detect, Gaps, Spaced;
    GapsAgree(s.content, t.content, 0, MatchesIn(s, o), MatchesIn(t, p));
    forall i | 0 <= i < |MatchesIn(s, o)|
      ensures MatchesIn(s, o)[i].kind == MatchesIn(t, p)[i].kind
    {
      assert SameMatch(MatchesIn(s, o)[i], MatchesIn(t, p)[i]);
    }
  }

  lemma SimilarIsInPlace(s: Segment, o: Oracle, t: Segment, p: Oracle)
    requires SimilarSegments(s, o, t, p)
    ensures SamePlaces(MatchesIn(s, o), MatchesIn(t, p))
  {
    hide MatchesIn, AgreeOutside;
    var ms, ns := MatchesIn(s, o), MatchesIn(t, p);
    forall i | 0 <= i < |ms|
      ensures ms[i].kind == ns[i].kind && ms[i].line == ns[i].line && ms[i].column == ns[i].column
    {
      assert SameMatch(ms[i], ns[i]);
    }
  }

  lemma IndistinguishableIsAlike(s: PromptSource, o: Oracle, t: PromptSource, p: Oracle)
    requires Indistinguishable(s, o, t, p)
    ensures AlikeInPlace(s, o, t, p)
  {
    hide SimilarSegments, SameAround, OracleFits, Occurrences, SameEqualities, SamePlaces, MatchesIn;
    forall k | 0 <= k < |s.segments|
      ensures SameAround(s.segments[k], o, t.segments[k], p)
    {
      SimilarIsSameAround(s.segments[k], o, t.segments[k], p);
    }
    forall k | 0 <= k < |s.segments|
      ensures WellFormed(s.segments[k].content, o(s.segments[k].content))
      ensures WellFormed(t.segments[k].content, p(t.segments[k].content))
      ensures SamePlaces(MatchesIn(s.segments[k], o), MatchesIn(t.segments[k], p))
    {
      Fits(s, o, k);
      Fits(t, p, k);
      SimilarIsInPlace(s.segments[k], o, t.segments[k], p);
    }
  }

  lemma {:induction false} OccurrencesAgree(s: PromptSource, o: Oracle, t: PromptSource, p: Oracle, n: nat)
    requires |s.segments| == |t.segments| && n <= |s.segments| && OracleFits(s, o) && OracleFits(t, p)
    requires forall k | 0 <= k < |s.segments| :: SameAround(s.segments[k], o, t.segments[k], p)
    ensures var a, b := Occurrences(s, o, n), Occurrences(t, p, n);
            |a| == |b| && forall i | 0 <= i < |a| :: a[i].kind == b[i].kind
  {
    hide MatchesIn, OracleFits, InDocumentOrder, Spaced, Gaps;
    if n > 0 {
      OccurrencesAgree(s, o, t, p, n - 1);
      Fits(s, o, n - 1);
      Fits(t, p, n - 1);
      var x, y := s.segments[n - 1], t.segments[n - 1];
      assert SameAround(x, o, y, p);
      ReversedKinds(x.path, MatchesIn(x, o), MatchesIn(y, p));
    }
  }

  lemma ReversedKinds(path: string, ms: seq<SecretMatch>, ns: seq<SecretMatch>)
    requires SameKinds(ms, ns)
    ensures var a, b := Reversed(path, ms), Reversed(path, ns);
            |a| == |b| && forall i | 0 <= i < |a| :: a[i].kind == b[i].kind
  {
    forall i | 0 <= i < |ms|
      ensures Reversed(path, ms)[i].kind == Reversed(path, ns)[i].kind
    {
      var m, n := ms[|ms| - 1 - i], ns[|ms| - 1 - i];
      assert m.kind == n.kind;
      assert Reversed(path, ms)[i] == OccurrenceOf(path, m) && Reversed(path, ns)[i] == OccurrenceOf(path, n);
    }
  }

  lemma {:induction false} PlacesAgree(s: PromptSource, o: Oracle, t: PromptSource, p: Oracle, n: nat)
    requires AlikeInPlace(s, o, t, p) && n <= |s.segments|
    ensures |s.segments| == |t.segments| && OracleFits(s, o) && OracleFits(t, p)
    ensures var a, b := Occurrences(s, o, n), Occurrences(t, p, n);
            |a| == |b| && forall i | 0 <= i < |a| :: a[i].location == b[i].location
  {
    hide MatchesIn, OracleFits, InDocumentOrder, Spaced, SameAround, SameEqualities, SamePlaces;
    if n > 0 {
      PlacesAgree(s, o, t, p, n - 1);
      Fits(s, o, n - 1);
      Fits(t, p, n - 1);
      var x, y := s.segments[n - 1], t.segments[n - 1];
      assert x.path == y.path by { SegmentsAgree(s, o, t, p, n - 1); SamePath(x, o, y, p); }
      ReversedPlaces(x.path, MatchesIn(x, o), MatchesIn(y, p));
    }
  }

  lemma SamePath(s: Segment, o: Oracle, t: Segment, p: Oracle)
    requires SameAround(s, o, t, p)
    ensures s.path == t.path && s.name == t.name
  {
  }

  lemma ReversedPlaces(path: string, ms: seq<SecretMatch>, ns: seq<SecretMatch>)
    requires SamePlaces(ms, ns)
    ensures var a, b := Reversed(path, ms), Reversed(path, ns);
            |a| == |b| && forall i | 0 <= i < |a| :: a[i].location == b[i].location
  {
    forall i | 0 <= i < |ms|
      ensures Reversed(path, ms)[i].location == Reversed(path, ns)[i].location
    {
      var m, n := ms[|ms| - 1 - i], ns[|ms| - 1 - i];
      assert m.line == n.line && m.column == n.column;
      assert Reversed(path, ms)[i] == OccurrenceOf(path, m) && Reversed(path, ns)[i] == OccurrenceOf(path, n);
    }
  }

  /** Where match `i` of segment `k` stands among all occurrences. */
  lemma {:induction false} OccurrenceAt(s: PromptSource, o: Oracle, k: nat, i: nat, n: nat)
    requires OracleFits(s, o) && k < n <= |s.segments| && i < |MatchesIn(s.segments[k], o)|
    ensures var ms := MatchesIn(s.segments[k], o);
            var j := |Occurrences(s, o, k)| + |ms| - 1 - i;
            && j < |Occurrences(s, o, n)|
            && Occurrences(s, o, n)[j] == OccurrenceOf(s.segments[k].path, ms[i])
    decreases n
  {
    hide MatchesIn, OracleFits, InDocumentOrder, Spaced;
    Fits(s, o, k);
    Fits(s, o, n - 1);
    if k + 1 < n {
      OccurrenceAt(s, o, k, i, n - 1);
    }
  }

  /** What the sources have in common at segment `k`. */
  lemma SegmentsAgree(s: PromptSource, o: Oracle, t: PromptSource, p: Oracle, k: nat)
    requires Alike(s, o, t, p) && k < |s.segments|
    ensures |s.segments| == |t.segments| && OracleFits(s, o) && OracleFits(t, p)
    ensures SameAround(s.segments[k], o, t.segments[k], p)
  {
    hide SameAround, Occurrences;
  }

  /** The two runs assign the same placeholder at the same places. */
  lemma LedgersAgree(s: PromptSource, o: Oracle, t: PromptSource, p: Oracle)
    requires Alike(s, o, t, p)
    ensures |s.segments| == |t.segments| && OracleFits(s, o) && OracleFits(t, p)
    ensures var a, b := Occurrences(s, o, |s.segments|), Occurrences(t, p, |t.segments|);
            |a| == |b| && Parallel(a, b, |a|, LedgerAfter(s, o, |s.segments|), LedgerAfter(t, p, |t.segments|))
    ensures forall k | 0 <= k < |s.segments| :: |Occurrences(s, o, k)| == |Occurrences(t, p, k)|
  {
    hide MatchesIn, Occurrences, SameAround, OracleFits, AssignAll, Parallel;
    var n := |s.segments|;
    forall k | 0 <= k < n
      ensures |Occurrences(s, o, k)| == |Occurrences(t, p, k)|
    {
      OccurrencesAgree(s, o, t, p, k);
    }
    OccurrencesAgree(s, o, t, p, n);
    var a, b := Occurrences(s, o, n), Occurrences(t, p, n);
    assert SamePattern(a, b);
    AssignParallel(a, b, |a|);
    assert a[..|a|] == a && b[..|a|] == b;
  }

  lemma LookupAgrees(s: PromptSource, o: Oracle, t: PromptSource, p: Oracle, k: nat, ms: seq<SecretMatch>,
                     ns: seq<SecretMatch>, i: nat)
    requires |s.segments| == |t.segments| && OracleFits(s, o) && OracleFits(t, p)
    requires k < |s.segments| && ms == MatchesIn(s.segments[k], o) && ns == MatchesIn(t.segments[k], p)
    requires i < |ms| == |ns| && |Occurrences(s, o, k)| == |Occurrences(t, p, k)|
    requires var a, b := Occurrences(s, o, |s.segments|), Occurrences(t, p, |t.segments|);
             |a| == |b| && Parallel(a, b, |a|, LedgerAfter(s, o, |s.segments|), LedgerAfter(t, p, |t.segments|))
    ensures Lookup(FinalGiven(s, o), ms[i].value) == Lookup(FinalGiven(t, p), ns[i].value)
  {
    hide MatchesIn, Occurrences, OracleFits, LedgerAfter, Met;
    OccurrenceAt(s, o, k, i, |s.segments|);
    OccurrenceAt(t, p, k, i, |t.segments|);
    var j := |Occurrences(s, o, k)| + |ms| - 1 - i;
    assert AgreeAt(Occurrences(s, o, |s.segments|), Occurrences(t, p, |t.segments|), j,
                   LedgerAfter(s, o, |s.segments|), LedgerAfter(t, p, |t.segments|));
  }

  lemma LookupsAgree(s: PromptSource, o: Oracle, t: PromptSource, p: Oracle, k: nat)
    requires Alike(s, o, t, p) && k < |s.segments|
    ensures |s.segments| == |t.segments| && OracleFits(s, o) && OracleFits(t, p)
    ensures Placeholders(MatchesIn(s.segments[k], o), FinalGiven(s, o))
         == Placeholders(MatchesIn(t.segments[k], p), FinalGiven(t, p))
  {
    hide MatchesIn, Occurrences, OracleFits, LedgerAfter, Alike, Parallel, FinalGiven, Lookup, Gaps;
    SegmentsAgree(s, o, t, p, k);
    LedgersAgree(s, o, t, p);
    var ms, ns := MatchesIn(s.segments[k], o), MatchesIn(t.segments[k], p);
    forall i | 0 <= i < |ms|
      ensures Lookup(FinalGiven(s, o), ms[i].value) == Lookup(FinalGiven(t, p), ns[i].value)
    {
      LookupAgrees(s, o, t, p, k, ms, ns, i);
    }
  }

  lemma SourcesFit(s: PromptSource, o: Oracle, t: PromptSource, p: Oracle)
    requires Alike(s, o, t, p)
    ensures |s.segments| == |t.segments| && OracleFits(s, o) && OracleFits(t, p)
  {
  }

  lemma {:induction false} RenderingsAgree(s: PromptSource, o: Oracle, t: PromptSource, p: Oracle, maxChars: nat,
                                           n: nat)
    requires Alike(s, o, t, p) && n <= |s.segments|
    ensures |s.segments| == |t.segments| && OracleFits(s, o) && OracleFits(t, p)
    ensures RenderedAll(s, o, FinalGiven(s, o), maxChars, n) == RenderedAll(t, p, FinalGiven(t, p), maxChars, n)
  {
    hide MatchesIn, FinalGiven, Rendered, OracleFits, Alike, InDocumentOrder, Spaced;
    SourcesFit(s, o, t, p);
    if n > 0 {
      RenderingsAgree(s, o, t, p, maxChars, n - 1);
      Fits(s, o, n - 1);
      Fits(t, p, n - 1);
      SegmentAgrees(s, o, t, p, maxChars, n - 1);
    }
  }

  lemma SegmentAgrees(s: PromptSource, o: Oracle, t: PromptSource, p: Oracle, maxChars: nat, k: nat)
    requires Alike(s, o, t, p) && k < |s.segments|
    ensures |s.segments| == |t.segments| && OracleFits(s, o) && OracleFits(t, p)
    ensures Rendered(s.segments[k], MatchesIn(s.segments[k], o), FinalGiven(s, o), maxChars)
         == Rendered(t.segments[k], MatchesIn(t.segments[k], p), FinalGiven(t, p), maxChars)
  {
    hide Alike, FinalGiven, Interleave, Gaps, Clip, Placeholders, OracleFits, Detect, Spaced;
    SegmentsAgree(s, o, t, p, k);
    LookupsAgree(s, o, t, p, k);
    Fits(s, o, k);
    Fits(t, p, k);
    hide MatchesIn;
  }

  /**
   * The prompt text depends on the text around the secrets, on their kinds and on which of them are
   * equal: not on their characters, not on their lengths, not on line breaks inside them.
   */
  lemma TextDoesNotShow(s: PromptSource, o: Oracle, t: PromptSource, p: Oracle, maxChars: nat)
    requires Alike(s, o, t, p)
    ensures PromptText(s, o, maxChars) == PromptText(t, p, maxChars)
  {
    RenderingsAgree(s, o, t, p, maxChars, |s.segments|);
    assert s.instructions == t.instructions;
    hide Alike, RenderedAll, FinalGiven, OracleFits, Join;
  }

  lemma {:induction false} ReferencesAgree(s: PromptSource, o: Oracle, t: PromptSource, p: Oracle, n: nat)
    requires Indistinguishable(s, o, t, p) && n <= |s.segments|
    ensures |s.segments| == |t.segments| && OracleFits(s, o) && OracleFits(t, p)
    ensures RefsAll(s, o, FinalGiven(s, o), n) == RefsAll(t, p, FinalGiven(t, p), n)
  {
    hide MatchesIn, FinalGiven, RefsOf, OracleFits, SimilarSegments, InDocumentOrder, Spaced, SameEqualities,
         Occurrences;
    if n > 0 {
      ReferencesAgree(s, o, t, p, n - 1);
      Fits(s, o, n - 1);
      Fits(t, p, n - 1);
      SegmentReferences(s, o, t, p, n - 1);
    }
  }

  lemma SegmentReferences(s: PromptSource, o: Oracle, t: PromptSource, p: Oracle, k: nat)
    requires Indistinguishable(s, o, t, p) && k < |s.segments|
    ensures |s.segments| == |t.segments| && OracleFits(s, o) && OracleFits(t, p)
    ensures RefsOf(s.segments[k], MatchesIn(s.segments[k], o), FinalGiven(s, o))
         == RefsOf(t.segments[k], MatchesIn(t.segments[k], p), FinalGiven(t, p))
  {
    hide FinalGiven, Placeholders, RefsOf, OracleFits, Detect, Spaced, Alike, Occurrences, SameEqualities, AgreeOutside,
         SameMatches;
    IndistinguishableIsAlike(s, o, t, p);
    LookupsAgree(s, o, t, p, k);
    Fits(s, o, k);
    Fits(t, p, k);
    assert SimilarSegments(s.segments[k], o, t.segments[k], p);
    var ms, ns := MatchesIn(s.segments[k], o), MatchesIn(t.segments[k], p);
    hide MatchesIn;
    RefsAgree(s.segments[k], t.segments[k], ms, ns, FinalGiven(s, o), FinalGiven(t, p));
  }

  lemma RefsAgree(x: Segment, y: Segment, ms: seq<SecretMatch>, ns: seq<SecretMatch>, f: map<string, string>,
                  g: map<string, string>)
    requires x.name == y.name && x.path == y.path && SameMatches(ms, ns) && Placeholders(ms, f) == Placeholders(ns, g)
    requires InDocumentOrder(x.content, ms) && InDocumentOrder(y.content, ns)
    ensures RefsOf(x, ms, f) == RefsOf(y, ns, g)
  {
    forall i | 0 <= i < |ms|
      ensures RefsOf(x, ms, f)[i] == RefsOf(y, ns, g)[i]
    {
      assert SameMatch(ms[i], ns[i]) && Placeholders(ms, f)[i] == Placeholders(ns, g)[i];
      assert |ms[i].value| == |ns[i].value|;
    }
  }

  lemma RecordsAgreeInAll(s: PromptSource, o: Oracle, t: PromptSource, p: Oracle)
    requires AlikeInPlace(s, o, t, p)
    ensures OracleFits(s, o) && OracleFits(t, p) && Records(s, o) == Records(t, p)
  {
    hide MatchesIn, Occurrences, SameAround, OracleFits, AssignAll, SamePlaces;
    var n := |s.segments|;
    OccurrencesAgree(s, o, t, p, n);
    PlacesAgree(s, o, t, p, n);
    var a, b := Occurrences(s, o, n), Occurrences(t, p, n);
    assert SamePattern(a, b);
    RecordsAgree(a, b, |a|);
    assert a[..|a|] == a && b[..|a|] == b;
  }

  /** References with the lengths left out. */
  function Unmeasured(refs: seq<SecretRef>): seq<SecretRef> {
    seq(|refs|, i requires 0 <= i < |refs| => refs[i].(length := 0))
  }

  lemma {:induction false} PlacedReferencesAgree(s: PromptSource, o: Oracle, t: PromptSource, p: Oracle, n: nat)
    requires AlikeInPlace(s, o, t, p) && n <= |s.segments|
    ensures |s.segments| == |t.segments| && OracleFits(s, o) && OracleFits(t, p)
    ensures Unmeasured(RefsAll(s, o, FinalGiven(s, o), n)) == Unmeasured(RefsAll(t, p, FinalGiven(t, p), n))
  {
    hide MatchesIn, FinalGiven, RefsOf, OracleFits, InDocumentOrder, Spaced, SameEqualities, Occurrences, SamePlaces,
         SameAround;
    if n > 0 {
      PlacedReferencesAgree(s, o, t, p, n - 1);
      Fits(s, o, n - 1);
      Fits(t, p, n - 1);
      var x, y := s.segments[n - 1], t.segments[n - 1];
      SegmentsAgree(s, o, t, p, n - 1);
      SamePath(x, o, y, p);
      LookupsAgree(s, o, t, p, n - 1);
      PlacedRefsAgree(x, y, MatchesIn(x, o), MatchesIn(y, p), FinalGiven(s, o), FinalGiven(t, p));
      UnmeasuredConcat(RefsAll(s, o, FinalGiven(s, o), n - 1), RefsOf(x, MatchesIn(x, o), FinalGiven(s, o)));
      UnmeasuredConcat(RefsAll(t, p, FinalGiven(t, p), n - 1), RefsOf(y, MatchesIn(y, p), FinalGiven(t, p)));
    }
  }

  lemma UnmeasuredConcat(a: seq<SecretRef>, b: seq<SecretRef>)
    ensures Unmeasured(a + b) == Unmeasured(a) + Unmeasured(b)
  {
  }

  lemma PlacedRefsAgree(x: Segment, y: Segment, ms: seq<SecretMatch>, ns: seq<SecretMatch>, f: map<string, string>,
                        g: map<string, string>)
    requires x.name == y.name && x.path == y.path && SamePlaces(ms, ns) && Placeholders(ms, f) == Placeholders(ns, g)
    ensures Unmeasured(RefsOf(x, ms, f)) == Unmeasured(RefsOf(y, ns, g))
  {
    forall i | 0 <= i < |ms|
      ensures Unmeasured(RefsOf(x, ms, f))[i] == Unmeasured(RefsOf(y, ns, g))[i]
    {
      assert ms[i].kind == ns[i].kind && Placeholders(ms, f)[i] == Placeholders(ns, g)[i];
    }
  }

  /** A finding with the length of its evidence left out. */
  function WithoutLength(f: Finding): Finding { f.(evidence := f.evidence.(length := 0)) }

  /**
   * Whatever the secrets become, as long as each begins where it did, the placeholder records are the
   * same and so are the findings, fingerprints included, up to the length their evidence states.
   */
  lemma FindingsStay(s: PromptSource, o: Oracle, t: PromptSource, p: Oracle)
    requires AlikeInPlace(s, o, t, p)
    ensures Records(s, o) == Records(t, p)
    ensures var f, g := SecretsToFindings(Secrets(s, o)), SecretsToFindings(Secrets(t, p));
            && |f| == |g|
            && forall i | 0 <= i < |f| ::
                 WithoutLength(f[i]) == WithoutLength(g[i]) && f[i].fingerprintParts == g[i].fingerprintParts
  {
    hide RefsAll, FinalGiven, OracleFits, Occurrences, SameAround, SamePlaces, Records;
    RecordsAgreeInAll(s, o, t, p);
    PlacedReferencesAgree(s, o, t, p, |s.segments|);
    var a, b := Secrets(s, o), Secrets(t, p);
    assert |Unmeasured(a)| == |Unmeasured(b)|;
    forall i | 0 <= i < |a|
      ensures WithoutLength(FindingOf(a[i])) == WithoutLength(FindingOf(b[i]))
      ensures FindingOf(a[i]).fingerprintParts == FindingOf(b[i]).fingerprintParts
    {
      assert Unmeasured(a)[i] == Unmeasured(b)[i];
    }
  }

  /**
   * Two sources that differ only in what the detected secrets are give the same prompt text, the
   * same placeholder records, the same references and the same findings.
   */
  lemma SecretsDoNotShow(s: PromptSource, o: Oracle, t: PromptSource, p: Oracle, maxChars: nat)
    requires Indistinguishable(s, o, t, p)
    ensures PromptText(s, o, maxChars) == PromptText(t, p, maxChars)
    ensures Records(s, o) == Records(t, p)
    ensures Secrets(s, o) == Secrets(t, p)
    ensures SecretsToFindings(Secrets(s, o)) == SecretsToFindings(Secrets(t, p))
  {
    hide RefsAll, FinalGiven, OracleFits, Occurrences, SimilarSegments, Records, PromptText;
    IndistinguishableIsAlike(s, o, t, p);
    TextDoesNotShow(s, o, t, p, maxChars);
    RecordsAgreeInAll(s, o, t, p);
    ReferencesAgree(s, o, t, p, |s.segments|);
  }

  // ---- An instance ---------------------------------------------------------------------------

  /** One segment holding one secret between two texts. */
  function OneSecret(name: string, path: string, before: string, secret: string, after: string): PromptSource {
    PromptSource("", [Segment(name, path, before + secret + after)])
  }

  /** Detection that finds exactly that secret. */
  function Finds(kind: SecretKind, before: string, secret: string): Oracle {
    _ => [Candidate(kind, secret, |before|, |before| + |secret|)]
  }

  lemma OneMatch(name: string, path: string, before: string, secret: string, after: string, kind: SecretKind)
    requires secret != ""
    ensures var s, o := OneSecret(name, path, before, secret, after), Finds(kind, before, secret);
            && OracleFits(s, o)
            && MatchesIn(s.segments[0], o)
               == [Located(before + secret + after, Candidate(kind, secret, |before|, |before| + |secret|))]
            && |Occurrences(s, o, 1)| == 1
  {
    var s, o := OneSecret(name, path, before, secret, after), Finds(kind, before, secret);
    var text, c := before + secret + after, Candidate(kind, secret, |before|, |before| + |secret|);
    assert text[c.start..c.end] == secret && WellFormed(text, [c]);
    OneAccepted(c);
    assert MatchesIn(s.segments[0], o) == [Located(text, c)];
  }

  lemma OneAccepted(c: Candidate)
    ensures Sort(Accepted([c]), Leftmost) == [c]
  {
    var none: seq<Candidate> := [];
    assert [c][1..] == none && Sort([c], InOrder) == [c] && none + [c] == [c];
    assert Accept([c], none) == Accept(none, [c]) == [c];
    assert Sort([c], Leftmost) == [c];
  }

  /** A position depends on the text before it only. */
  lemma {:induction false} StartsOfPrefix(s: string, t: string, n: nat)
    requires n <= |s| && n <= |t| && s[..n] == t[..n]
    ensures StartsUpTo(s, n) == StartsUpTo(t, n)
  {
    if n > 0 {
      assert s[..n][..n - 1] == s[..n - 1] && t[..n][..n - 1] == t[..n - 1] && s[..n][n - 1] == t[..n][n - 1];
      StartsOfPrefix(s, t, n - 1);
    }
  }

  lemma OneGap(before: string, secret: string, after: string, m: SecretMatch)
    requires m.start == |before| && m.end == |before| + |secret|
    ensures Spaced(before + secret + after, 0, [m])
    ensures Gaps(before + secret + after, 0, [m]) == [before, after]
  {
    var text := before + secret + after;
    var none: seq<SecretMatch> := [];
    assert [m][1..] == none && text[0..|before|] == before && text[m.end..] == after;
    assert Gaps(text, m.end, none) == [after];
  }

  /** What two sources with one secret each have in common, wherever it is rotated to. */
  lemma RotationStaysInPlace(name: string, path: string, before: string, secret: string, rotated: string, after: string,
                             kind: SecretKind)
    requires secret != "" && rotated != ""
    ensures AlikeInPlace(OneSecret(name, path, before, secret, after), Finds(kind, before, secret),
                         OneSecret(name, path, before, rotated, after), Finds(kind, before, rotated))
  {
    hide MatchesIn, Occurrences, Gaps, Spaced;
    var s, o := OneSecret(name, path, before, secret, after), Finds(kind, before, secret);
    var t, p := OneSecret(name, path, before, rotated, after), Finds(kind, before, rotated);
    OneMatch(name, path, before, secret, after, kind);
    OneMatch(name, path, before, rotated, after, kind);
    Fits(s, o, 0);
    Fits(t, p, 0);
    OneGap(before, secret, after, MatchesIn(s.segments[0], o)[0]);
    OneGap(before, rotated, after, MatchesIn(t.segments[0], p)[0]);
    StartsOfPrefix(before + secret + after, before + rotated + after, |before|);
    assert SameAround(s.segments[0], o, t.segments[0], p);
  }

  /**
   * Rotating one secret, alone in one segment, into any other changes neither the prompt text nor
   * the placeholder records, and it is still the same finding, up to the length stated.
   */
  lemma RotationDoesNotShow(name: string, path: string, before: string, secret: string, rotated: string, after: string,
                            kind: SecretKind, maxChars: nat)
    requires secret != "" && rotated != ""
    ensures var s, o := OneSecret(name, path, before, secret, after), Finds(kind, before, secret);
            var t, p := OneSecret(name, path, before, rotated, after), Finds(kind, before, rotated);
            && OracleFits(s, o) && OracleFits(t, p)
            && PromptText(s, o, maxChars) == PromptText(t, p, maxChars)
            && Records(s, o) == Records(t, p)
            && var f, g := SecretsToFindings(Secrets(s, o)), SecretsToFindings(Secrets(t, p));
               && |f| == |g|
               && forall i | 0 <= i < |f| ::
                    WithoutLength(f[i]) == WithoutLength(g[i]) && f[i].fingerprintParts == g[i].fingerprintParts
  {
    hide PromptText, Secrets, SecretsToFindings, MatchesIn, Occurrences, Records, WithoutLength;
    var s, o := OneSecret(name, path, before, secret, after), Finds(kind, before, secret);
    var t, p := OneSecret(name, path, before, rotated, after), Finds(kind, before, rotated);
    RotationStaysInPlace(name, path, before, secret, rotated, after, kind);
    hide OneSecret, Finds;
    TextDoesNotShow(s, o, t, p, maxChars);
    FindingsStay(s, o, t, p);
  }

  /** If it is as long as the old one, the findings are the same altogether. */
  lemma RotationLeavesNoTrace(name: string, path: string, before: string, secret: string, rotated: string,
                              after: string, kind: SecretKind)
    requires |secret| == |rotated| > 0
    ensures var s, o := OneSecret(name, path, before, secret, after), Finds(kind, before, secret);
            var t, p := OneSecret(name, path, before, rotated, after), Finds(kind, before, rotated);
            && OracleFits(s, o) && OracleFits(t, p)
            && SecretsToFindings(Secrets(s, o)) == SecretsToFindings(Secrets(t, p))
  {
    hide PromptText, Secrets, SecretsToFindings, MatchesIn, Occurrences, Records;
    var s, o := OneSecret(name, path, before, secret, after), Finds(kind, before, secret);
    var t, p := OneSecret(name, path, before, rotated, after), Finds(kind, before, rotated);
    OneMatch(name, path, before, secret, after, kind);
    OneMatch(name, path, before, rotated, after, kind);
    Fits(s, o, 0);
    Fits(t, p, 0);
    StartsOfPrefix(before + secret + after, before + rotated + after, |before|);
    var ms := MatchesIn(s.segments[0], o);
    assert ms[0] in ms;
    assert SimilarSegments(s.segments[0], o, t.segments[0], p);
    assert Indistinguishable(s, o, t, p);
    SecretsDoNotShow(s, o, t, p, 0);
  }
}
