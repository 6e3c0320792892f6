/**
 * Credential detection after the regular expressions (`redaction/src/detect.ts`): where a capture
 * sits, which overlapping candidates survive, and on which line they are. The expressions themselves
 * are an oracle: any list of non-empty spans of the text.
 */
module Detection {
  import opened Results
  import opened Sorting

  datatype SecretKind =
    | PrivateKey | AwsAccessKeyId | GithubToken | SlackToken | StripeSecretKey | GoogleApiKey | OpenaiApiKey
    | AnthropicApiKey | SendgridApiKey | NpmToken | TwilioApiKey | Jwt | ConnectionStringPassword
    | AuthorizationHeader | GenericSecretAssignment | HighEntropyString

  datatype Severity = Critical | High | Medium

  function Precedence(kind: SecretKind): nat {
    match kind
    case GenericSecretAssignment => 2
    case HighEntropyString => 1
    case _ => 3
  }

  function SeverityOf(kind: SecretKind): Severity {
    match kind
    case PrivateKey | AwsAccessKeyId | StripeSecretKey => Critical
    case HighEntropyString => Medium
    case _ => High
  }

  datatype Candidate = Candidate(kind: SecretKind, value: string, start: nat, end: nat)

  datatype SecretMatch = SecretMatch(kind: SecretKind, value: string, start: nat, end: nat, line: nat, column: nat)

  predicate IsSpanOf(c: Candidate, text: string) {
    c.start < c.end <= |text| && c.value == text[c.start..c.end]
  }

  predicate WellFormed(text: string, candidates: seq<Candidate>) {
    forall c | c in candidates :: IsSpanOf(c, text)
  }

  // ---- Where a capture group sits ------------------------------------------------------------

  /** One match of a rule: the whole match, and the group the rule names if it names one. */
  datatype RuleMatch = RuleMatch(kind: SecretKind, index: nat, whole: string, usesGroup: bool, captured: Option<string>)

  predicate OccursAt(whole: string, value: string, at: nat) {
    at + |value| <= |whole| && whole[at..at + |value|] == value
  }

  function LastAtOrBefore(whole: string, value: string, at: nat): Option<nat> {
    if OccursAt(whole, value, at) then Some(at)
    else if at == 0 then None
    else LastAtOrBefore(whole, value, at - 1)
  }

  /** `whole.lastIndexOf(value)`. */
  function LastIndexOf(whole: string, value: string): Option<nat> { LastAtOrBefore(whole, value, |whole|) }

  lemma {:induction false} LastIsGreatest(whole: string, value: string, at: nat)
    ensures match LastAtOrBefore(whole, value, at)
            case Some(i) => i <= at && OccursAt(whole, value, i) && forall j | i < j <= at :: !OccursAt(whole, value, j)
            case None => forall j | 0 <= j <= at :: !OccursAt(whole, value, j)
  {
    if !OccursAt(whole, value, at) && at > 0 {
      LastIsGreatest(whole, value, at - 1);
    }
  }

  lemma LastCharacter(whole: string, value: string, at: nat)
    requires value != ""
    ensures OccursAt(whole, value, at) ==> whole[at + |value| - 1] in value
  {
  }

  /**
   * The last occurrence is the capture itself when at most one character follows the capture and
   * that character does not occur in it, as in every rule that names a group.
   */
  lemma LastIndexIsCapture(before: string, value: string, after: string)
    requires value != "" && |after| <= 1 && forall c | c in after :: c !in value
    ensures LastIndexOf(before + value + after, value) == Some(|before|)
  {
    var whole := before + value + after;
    LastIsGreatest(whole, value, |whole|);
    assert OccursAt(whole, value, |before|);
    LastCharacter(whole, value, |before| + 1);
    assert after != "" ==> whole[|whole| - 1] == after[0] && after[0] in after;
  }

  function ValueOf(m: RuleMatch): Option<string> {
    if m.usesGroup then m.captured else Some(m.whole)
  }

  /** The candidate a rule match contributes, if any. */
  function CandidateOf(m: RuleMatch): Option<Candidate> {
    match ValueOf(m)
    case None => None
    case Some(value) =>
      if value == "" then None
      else
        match if m.usesGroup then LastIndexOf(m.whole, value) else Some(0)
        case None => None
        case Some(offset) => Some(Candidate(m.kind, value, m.index + offset, m.index + offset + |value|))
  }

  function CandidatesOf(ms: seq<RuleMatch>): seq<Candidate> {
    if ms == [] then []
    else
      CandidatesOf(ms[..|ms| - 1])
      + match CandidateOf(ms[|ms| - 1]) case Some(c) => [c] case None => []
  }

  method NamedMatches(text: string, ms: seq<RuleMatch>) returns (found: seq<Candidate>)
    requires forall m | m in ms :: OccursAt(text, m.whole, m.index)
    ensures found == CandidatesOf(ms)
    ensures WellFormed(text, found)
  {
    found := [];
    for k := 0 to |ms|
      invariant found == CandidatesOf(ms[..k])
      invariant WellFormed(text, found)
    {
      var m := ms[k];
      assert ms[..k + 1][..k] == ms[..k];
      CandidateIsSpan(text, m);
      var value := ValueOf(m);
      if value == None || value.value == "" {
        continue;
      }
      var offset := if m.usesGroup then LastIndexOf(m.whole, value.value) else Some(0);
      if offset == None {
        continue;
      }
      var start := m.index + offset.value;
      found := found + [Candidate(m.kind, value.value, start, start + |value.value|)];
    }
    assert ms[..|ms|] == ms;
  }

  lemma OccursInside(text: string, whole: string, index: nat, value: string, offset: nat)
    requires OccursAt(text, whole, index) && OccursAt(whole, value, offset)
    ensures OccursAt(text, value, index + offset)
  {
    var start := index + offset;
    forall i | 0 <= i < |value|
      ensures text[start..start + |value|][i] == value[i]
    {
      assert text[start + i] == text[index..index + |whole|][offset + i];
      assert value[i] == whole[offset..offset + |value|][i];
    }
  }

  lemma CandidateIsSpan(text: string, m: RuleMatch)
    requires OccursAt(text, m.whole, m.index)
    ensures CandidateOf(m).Some? ==> IsSpanOf(CandidateOf(m).value, text)
  {
    if CandidateOf(m).Some? {
      var c := CandidateOf(m).value;
      LastIsGreatest(m.whole, c.value, |m.whole|);
      assert !m.usesGroup ==> m.whole[0..|m.whole|] == m.whole;
      OccursInside(text, m.whole, m.index, c.value, c.start - m.index);
    }
  }

  // ---- Which candidates survive --------------------------------------------------------------

  predicate Overlaps(aStart: nat, aEnd: nat, bStart: nat, bEnd: nat) { aStart < bEnd && bStart < aEnd }

  predicate Collide(a: Candidate, b: Candidate) { Overlaps(a.start, a.end, b.start, b.end) }

  function Length(c: Candidate): int { c.end - c.start }

  /** The sort: longest first, then most trusted, then leftmost. */
  predicate InOrder(a: Candidate, b: Candidate) {
    if Length(a) != Length(b) then Length(a) > Length(b)
    else if Precedence(a.kind) != Precedence(b.kind) then Precedence(a.kind) > Precedence(b.kind)
    else a.start <= b.start
  }

  predicate Leftmost(a: Candidate, b: Candidate) { a.start <= b.start }

  /** Greedy acceptance of sorted candidates. */
  function Accept(sorted: seq<Candidate>, accepted: seq<Candidate>): seq<Candidate>
    decreases |sorted|
  {
    if sorted == [] then accepted
    else if exists a | a in accepted :: Collide(a, sorted[0]) then Accept(sorted[1..], accepted)
    else Accept(sorted[1..], accepted + [sorted[0]])
  }

  function Accepted(candidates: seq<Candidate>): seq<Candidate> {
    Accept(Sort(candidates, InOrder), [])
  }

  function Located(text: string, c: Candidate): SecretMatch
    requires c.start <= |text|
  {
    var (line, column) := Position(text, c.start);
    SecretMatch(c.kind, c.value, c.start, c.end, line, column)
  }

  /** What `detectSecrets` returns. */
  function Detect(text: string, candidates: seq<Candidate>): seq<SecretMatch>
    requires WellFormed(text, candidates)
  {
    AcceptedAreCandidates(candidates);
    var ordered := Sort(Accepted(candidates), Leftmost);
    SortSameElements(Accepted(candidates), Leftmost);
    seq(|ordered|, k requires 0 <= k < |ordered| => assert ordered[k] in ordered; Located(text, ordered[k]))
  }

  lemma {:induction false} AcceptKeeps(sorted: seq<Candidate>, accepted: seq<Candidate>)
    ensures forall c | c in Accept(sorted, accepted) :: c in sorted || c in accepted
    ensures accepted <= Accept(sorted, accepted)
    decreases |sorted|
  {
    if sorted != [] {
      AcceptKeeps(sorted[1..], accepted);
      AcceptKeeps(sorted[1..], accepted + [sorted[0]]);
    }
  }

  lemma AcceptedAreCandidates(candidates: seq<Candidate>)
    ensures forall c | c in Accepted(candidates) :: c in candidates
  {
    SortSameElements(candidates, InOrder);
    AcceptKeeps(Sort(candidates, InOrder), []);
  }

  // ---- Lines and columns ---------------------------------------------------------------------

  function Newlines(text: string, n: nat): nat
    requires n <= |text|
  {
    if n == 0 then 0 else Newlines(text, n - 1) + if text[n - 1] == '\n' then 1 else 0
  }

  /** The line starts found in the first `n` characters. */
  function StartsUpTo(text: string, n: nat): (starts: seq<nat>)
    requires n <= |text|
    ensures |starts| == 1 + Newlines(text, n)
    ensures starts[0] == 0 && forall i | 0 <= i < |starts| :: starts[i] <= n
  {
    if n == 0 then [0]
    else StartsUpTo(text, n - 1) + if text[n - 1] == '\n' then [n] else []
  }

  /** Line and column, both from 1: newlines before the offset, and distance from the last line start. */
  function Position(text: string, offset: nat): (nat, nat)
    requires offset <= |text|
  {
    var starts := StartsUpTo(text, offset);
    (|starts|, offset - starts[|starts| - 1] + 1)
  }

  lemma {:induction false} StartsPrefix(text: string, n: nat, m: nat)
    requires n <= m <= |text|
    ensures StartsUpTo(text, n) <= StartsUpTo(text, m)
    ensures forall i | |StartsUpTo(text, n)| <= i < |StartsUpTo(text, m)| :: n < StartsUpTo(text, m)[i]
    decreases m
  {
    if n < m {
      StartsPrefix(text, n, m - 1);
    }
  }

  /** Between the start of its line and an offset there is no newline, and before the start there is. */
  lemma {:induction false} PositionIsOnLine(text: string, offset: nat)
    requires offset <= |text|
    ensures var (line, column) := Position(text, offset);
            && line == 1 + Newlines(text, offset)
            && 1 <= column <= offset + 1
            && var start := offset - (column - 1);
               && (forall i | start <= i < offset :: text[i] != '\n')
               && (start == 0 || text[start - 1] == '\n')
    decreases offset
  {
    if offset > 0 && text[offset - 1] != '\n' {
      PositionIsOnLine(text, offset - 1);
    }
  }

  method LineStarts(text: string) returns (starts: seq<nat>)
    ensures starts == StartsUpTo(text, |text|)
  {
    starts := [0];
    for i := 0 to |text|
      invariant starts == StartsUpTo(text, i)
    {
      if text[i] == '\n' {
        starts := starts + [i + 1];
      }
    }
  }

  /** The binary search, on the line starts of a text. */
  method PositionOf(text: string, starts: seq<nat>, offset: nat) returns (line: nat, column: nat)
    requires starts == StartsUpTo(text, |text|) && offset <= |text|
    ensures (line, column) == Position(text, offset)
  {
    ghost var last := |StartsUpTo(text, offset)| - 1;
    StartsPrefix(text, offset, |text|);
    var low, high := 0, |starts| - 1;
    while low < high
      invariant 0 <= low <= last <= high < |starts|
      decreases high - low
    {
      var mid := (low + high + 1) / 2;
      if starts[mid] <= offset {
        low := mid;
      } else {
        high := mid - 1;
      }
    }
    return low + 1, offset - starts[low] + 1;
  }

  // ---- The whole detector --------------------------------------------------------------------

  method DetectSecrets(text: string, candidates: seq<Candidate>) returns (matches: seq<SecretMatch>)
    requires WellFormed(text, candidates)
    ensures matches == Detect(text, candidates)
  {
    var sorted := Sort(candidates, InOrder);
    var accepted: seq<Candidate> := [];
    assert sorted[0..] == sorted;
    for k := 0 to |sorted|
      invariant Accept(sorted[k..], accepted) == Accepted(candidates)
    {
      assert sorted[k..][1..] == sorted[k + 1..];
      if exists a | a in accepted :: Collide(a, sorted[k]) {
        continue;
      }
      accepted := accepted + [sorted[k]];
    }
    AcceptedAreCandidates(candidates);
    SortSameElements(accepted, Leftmost);
    var starts := LineStarts(text);
    var ordered := Sort(accepted, Leftmost);
    matches := [];
    for k := 0 to |ordered|
      invariant matches == Detect(text, candidates)[..k]
    {
      assert ordered[k] in ordered;
      var line, column := PositionOf(text, starts, ordered[k].start);
      var c := ordered[k];
      matches := matches + [SecretMatch(c.kind, c.value, c.start, c.end, line, column)];
    }
  }

  // ---- What greedy acceptance guarantees -----------------------------------------------------

  lemma OrderIsOrdering()
    ensures Ordering(InOrder) && Ordering(Leftmost)
  {
  }

  /** What decides between candidates: where they are and how far they are trusted. */
  datatype Key = Key(start: nat, end: nat, trust: nat)

  function KeyOf(c: Candidate): Key { Key(c.start, c.end, Precedence(c.kind)) }

  function Keys(cs: seq<Candidate>): set<Key> { set c | c in cs :: KeyOf(c) }

  predicate KeysCollide(a: Key, b: Key) { Overlaps(a.start, a.end, b.start, b.end) }

  /** `a` is strictly preferred to `b`; on distinct keys this is a total order. */
  predicate Preferred(a: Key, b: Key) {
    if a.end - a.start != b.end - b.start then a.end - a.start > b.end - b.start
    else if a.trust != b.trust then a.trust > b.trust
    else a.start < b.start
  }

  /** A selection with no collisions in which every rejected key lost to a preferred one. */
  ghost predicate IsSelection(chosen: set<Key>, keys: set<Key>) {
    && chosen <= keys
    && (forall a, b | a in chosen && b in chosen && a != b :: !KeysCollide(a, b))
    && (forall k | k in keys && k !in chosen :: exists a :: a in chosen && KeysCollide(a, k) && Preferred(a, k))
  }

  ghost function Rivals(keys: set<Key>, k: Key): set<Key> { set r | r in keys && Preferred(r, k) }

  lemma FewerRivals(keys: set<Key>, a: Key, k: Key)
    requires a in keys && Preferred(a, k)
    ensures Rivals(keys, a) < Rivals(keys, k)
  {
    assert a in Rivals(keys, k) && a !in Rivals(keys, a);
  }

  /** Two selections agree on every key, by induction on how many keys are preferred to it. */
  lemma {:induction false} SelectionsAgree(one: set<Key>, two: set<Key>, keys: set<Key>, k: Key)
    requires IsSelection(one, keys) && IsSelection(two, keys) && k in keys
    ensures k in one <==> k in two
    decreases Rivals(keys, k)
  {
    hide Preferred, KeysCollide, Rivals;
    if k in one && k !in two {
      var a :| a in two && KeysCollide(a, k) && Preferred(a, k);
      FewerRivals(keys, a, k);
      SelectionsAgree(one, two, keys, a);
    } else if k in two && k !in one {
      var a :| a in one && KeysCollide(a, k) && Preferred(a, k);
      FewerRivals(keys, a, k);
      SelectionsAgree(one, two, keys, a);
    }
  }

  lemma SelectionIsUnique(one: set<Key>, two: set<Key>, keys: set<Key>)
    requires IsSelection(one, keys) && IsSelection(two, keys)
    ensures one == two
  {
    forall k | k in one + two
      ensures k in one <==> k in two
    {
      SelectionsAgree(one, two, keys, k);
    }
  }

  /** No two of the accepted candidates collide; in particular none is accepted twice. */
  ghost predicate Apart(cs: seq<Candidate>) {
    forall i, j | 0 <= i < j < |cs| :: !Collide(cs[i], cs[j])
  }

  /** Every candidate is there or lost to one sorted before it. */
  ghost predicate Settled(c: Candidate, accepted: seq<Candidate>) {
    exists a :: a in accepted && Collide(a, c) && InOrder(a, c)
  }

  lemma {:induction false} AcceptSettles(sorted: seq<Candidate>, accepted: seq<Candidate>)
    requires SortedBy(accepted + sorted, InOrder) && Apart(accepted)
    requires forall c | c in sorted :: c.start < c.end
    ensures Apart(Accept(sorted, accepted))
    ensures forall c | c in sorted :: Settled(c, Accept(sorted, accepted))
    decreases |sorted|
  {
    if sorted != [] {
      var c, all := sorted[0], accepted + sorted;
      if exists a | a in accepted :: Collide(a, c) {
        var a :| a in accepted && Collide(a, c);
        var i :| 0 <= i < |accepted| && accepted[i] == a;
        assert all[i] == a && all[|accepted|] == c;
        SortedWithout(accepted, sorted);
        AcceptSettles(sorted[1..], accepted);
        AcceptKeeps(sorted[1..], accepted);
        assert a in Accept(sorted, accepted);
        assert Settled(c, Accept(sorted, accepted));
      } else {
        assert (accepted + [c]) + sorted[1..] == all;
        AcceptSettles(sorted[1..], accepted + [c]);
        AcceptKeeps(sorted[1..], accepted + [c]);
        assert c in accepted + [c] && Collide(c, c) && InOrder(c, c);
        assert (accepted + [c])[|accepted|] == c;
        assert Settled(c, Accept(sorted, accepted));
      }
    }
  }

  lemma SortedWithout(accepted: seq<Candidate>, sorted: seq<Candidate>)
    requires sorted != [] && SortedBy(accepted + sorted, InOrder)
    ensures SortedBy(accepted + sorted[1..], InOrder)
  {
    var all, fewer := accepted + sorted, accepted + sorted[1..];
    forall i, j | 0 <= i < j < |fewer|
      ensures InOrder(fewer[i], fewer[j])
    {
      var i', j' := if i < |accepted| then i else i + 1, if j < |accepted| then j else j + 1;
      assert fewer[i] == all[i'] && fewer[j] == all[j'];
    }
  }

  /**
   * Accepted candidates never collide, and every candidate collides with an accepted one that is
   * longer, or as long and at least as trusted.
   */
  lemma AcceptedSettle(text: string, candidates: seq<Candidate>)
    requires WellFormed(text, candidates)
    ensures Apart(Accepted(candidates))
    ensures forall c | c in candidates :: Settled(c, Accepted(candidates))
  {
    OrderIsOrdering();
    SortSorts(candidates, InOrder);
    SortSameElements(candidates, InOrder);
    var sorted := Sort(candidates, InOrder);
    assert [] + sorted == sorted;
    AcceptSettles(sorted, []);
  }

  lemma OrderPrefers(a: Candidate, c: Candidate)
    requires InOrder(a, c) && KeyOf(a) != KeyOf(c)
    ensures Preferred(KeyOf(a), KeyOf(c))
  {
  }

  lemma ApartKeys(cs: seq<Candidate>, a: Key, b: Key)
    requires Apart(cs) && a in Keys(cs) && b in Keys(cs) && a != b
    ensures !KeysCollide(a, b)
  {
  }

  lemma CollideKeys(a: Candidate, c: Candidate)
    ensures KeysCollide(KeyOf(a), KeyOf(c)) == Collide(a, c)
  {
  }

  lemma RejectedLost(accepted: seq<Candidate>, c: Candidate)
    requires Settled(c, accepted) && KeyOf(c) !in Keys(accepted)
    ensures exists a :: a in Keys(accepted) && KeysCollide(a, KeyOf(c)) && Preferred(a, KeyOf(c))
  {
    hide InOrder, Preferred, KeysCollide, Collide, KeyOf;
    var a :| a in accepted && Collide(a, c) && InOrder(a, c);
    assert KeyOf(a) in Keys(accepted);
    OrderPrefers(a, c);
    CollideKeys(a, c);
  }

  lemma AcceptedIsSelection(text: string, candidates: seq<Candidate>)
    requires WellFormed(text, candidates)
    ensures IsSelection(Keys(Accepted(candidates)), Keys(candidates))
  {
    hide Accepted, Apart, Settled, Preferred, KeysCollide, KeyOf;
    var accepted := Accepted(candidates);
    AcceptedAreCandidates(candidates);
    AcceptedSettle(text, candidates);
    forall c | c in candidates && KeyOf(c) !in Keys(accepted)
      ensures exists a :: a in Keys(accepted) && KeysCollide(a, KeyOf(c)) && Preferred(a, KeyOf(c))
    {
      RejectedLost(accepted, c);
    }
    forall a, b | a in Keys(accepted) && b in Keys(accepted) && a != b
      ensures !KeysCollide(a, b)
    {
      ApartKeys(accepted, a, b);
    }
  }

  // ---- What the detector returns -------------------------------------------------------------

  function SpanOf(m: SecretMatch): Key { Key(m.start, m.end, Precedence(m.kind)) }

  function Spans(ms: seq<SecretMatch>): set<Key> { set m | m in ms :: SpanOf(m) }

  /** Non-empty spans of the text, one after the other, each with its own text as value. */
  ghost predicate InDocumentOrder(text: string, ms: seq<SecretMatch>) {
    && (forall i | 0 <= i < |ms| :: ms[i].start < ms[i].end <= |text| && ms[i].value == text[ms[i].start..ms[i].end])
    && (forall i, j | 0 <= i < j < |ms| :: ms[i].end <= ms[j].start)
  }

  /** Matches are disjoint, in document order, and quote the text. */
  lemma MatchesInDocumentOrder(text: string, candidates: seq<Candidate>)
    requires WellFormed(text, candidates)
    ensures InDocumentOrder(text, Detect(text, candidates))
  {
    hide Sort, Accept, Position;
    var accepted := Accepted(candidates);
    AcceptedAreCandidates(candidates);
    AcceptedSettle(text, candidates);
    hide Accepted;
    var ordered, ms := Sort(accepted, Leftmost), Detect(text, candidates);
    OrderIsOrdering();
    SortSorts(accepted, Leftmost);
    SortSameElements(accepted, Leftmost);
    SortPermutes(accepted, Leftmost);
    SpacedOut(accepted, ordered);
    forall i | 0 <= i < |ms|
      ensures ms[i].start == ordered[i].start && ms[i].end == ordered[i].end && ms[i].value == ordered[i].value
      ensures IsSpanOf(ordered[i], text)
    {
      assert ordered[i] in ordered;
    }
  }

  /** Sorting by start lines up candidates that do not collide. */
  lemma SpacedOut(accepted: seq<Candidate>, ordered: seq<Candidate>)
    requires Apart(accepted) && multiset(accepted) == multiset(ordered) && SortedBy(ordered, Leftmost)
    requires forall c | c in accepted :: c.start < c.end
    ensures forall i, j | 0 <= i < j < |ordered| :: ordered[i].end <= ordered[j].start
  {
    forall i, j | 0 <= i < j < |ordered|
      ensures ordered[i].end <= ordered[j].start
    {
      var a, b := ordered[i], ordered[j];
      TwoPlaces(ordered, i, j);
      assert a in multiset(accepted) && b in multiset(accepted);
      var p, q := PlacesOf(accepted, a, b);
      assert if p < q then !Collide(accepted[p], accepted[q]) else !Collide(accepted[q], accepted[p]);
      assert Leftmost(a, b);
    }
  }

  /** Two places of a sequence hold the two values, or one value twice. */
  lemma TwoPlaces<T>(xs: seq<T>, i: nat, j: nat)
    requires i < j < |xs|
    ensures multiset{xs[i], xs[j]} <= multiset(xs)
  {
    assert xs == xs[..i] + [xs[i]] + xs[i + 1..j] + [xs[j]] + xs[j + 1..];
  }

  lemma PlacesOf<T>(xs: seq<T>, a: T, b: T) returns (p: nat, q: nat)
    requires multiset{a, b} <= multiset(xs)
    ensures p < |xs| && q < |xs| && p != q && xs[p] == a && xs[q] == b
  {
    assert a in multiset(xs);
    p :| p < |xs| && xs[p] == a;
    var rest := xs[..p] + xs[p + 1..];
    assert xs == xs[..p] + [xs[p]] + xs[p + 1..];
    assert multiset(xs) == multiset(rest) + multiset{a};
    assert b in multiset(rest);
    var r :| 0 <= r < |rest| && rest[r] == b;
    q := if r < p then r else r + 1;
  }

  lemma MatchSpansAreKeys(text: string, candidates: seq<Candidate>)
    requires WellFormed(text, candidates)
    ensures Spans(Detect(text, candidates)) == Keys(Accepted(candidates))
  {
    hide Sort, Accept, Position;
    var accepted := Accepted(candidates);
    AcceptedAreCandidates(candidates);
    hide Accepted;
    var ordered, ms := Sort(accepted, Leftmost), Detect(text, candidates);
    SortSameElements(accepted, Leftmost);
    forall k
      ensures k in Spans(ms) <==> k in Keys(accepted)
    {
      if m :| m in ms && SpanOf(m) == k {
        var i :| 0 <= i < |ms| && ms[i] == m;
        assert ordered[i] in ordered && KeyOf(ordered[i]) == k;
      }
      if c :| c in accepted && KeyOf(c) == k {
        var i :| 0 <= i < |ordered| && ordered[i] == c;
        assert ms[i] in ms && SpanOf(ms[i]) == k;
      }
    }
  }

  /** Sequences laid out one after the other are determined by the set of their spans. */
  lemma {:induction false} SameSpansSameOrder(text: string, one: seq<SecretMatch>, two: seq<SecretMatch>)
    requires InDocumentOrder(text, one) && InDocumentOrder(text, two)
    requires Spans(one) == Spans(two)
    ensures |one| == |two| && forall i | 0 <= i < |one| :: SpanOf(one[i]) == SpanOf(two[i])
    decreases |one|
  {
    if one == [] || two == [] {
      NoSpans(one);
      NoSpans(two);
    } else {
      FirstSpan(text, one, two);
      RestSpans(text, one);
      RestSpans(text, two);
      SameSpansSameOrder(text, one[1..], two[1..]);
    }
  }

  lemma NoSpans(ms: seq<SecretMatch>)
    ensures Spans(ms) == {} <==> ms == []
  {
    if ms != [] {
      assert ms[0] in ms && SpanOf(ms[0]) in Spans(ms);
    }
  }

  lemma FirstSpan(text: string, one: seq<SecretMatch>, two: seq<SecretMatch>)
    requires InDocumentOrder(text, one) && InDocumentOrder(text, two) && one != [] && two != []
    requires Spans(one) == Spans(two)
    ensures SpanOf(one[0]) == SpanOf(two[0])
  {
    assert one[0] in one && SpanOf(one[0]) in Spans(one);
    assert two[0] in two && SpanOf(two[0]) in Spans(two);
    var i :| 0 <= i < |two| && SpanOf(two[i]) == SpanOf(one[0]);
    var j :| 0 <= j < |one| && SpanOf(one[j]) == SpanOf(two[0]);
    assert i > 0 ==> two[0].end <= two[i].start;
    assert j > 0 ==> one[0].end <= one[j].start;
  }

  lemma RestSpans(text: string, ms: seq<SecretMatch>)
    requires InDocumentOrder(text, ms) && ms != []
    ensures InDocumentOrder(text, ms[1..])
    ensures Spans(ms[1..]) == Spans(ms) - {SpanOf(ms[0])}
  {
  }

  /**
   * The order in which candidates were produced, and how often each was, decides nothing about
   * which spans are reported.
   */
  lemma OrderDoesNotMatter(text: string, one: seq<Candidate>, two: seq<Candidate>)
    requires WellFormed(text, one) && WellFormed(text, two) && Keys(one) == Keys(two)
    ensures var a, b := Detect(text, one), Detect(text, two);
            |a| == |b| && forall i | 0 <= i < |a| :: SpanOf(a[i]) == SpanOf(b[i]) && a[i].value == b[i].value
  {
    hide Detect, Keys, Accepted, IsSelection;
    AcceptedIsSelection(text, one);
    AcceptedIsSelection(text, two);
    SelectionIsUnique(Keys(Accepted(one)), Keys(Accepted(two)), Keys(one));
    MatchSpansAreKeys(text, one);
    MatchSpansAreKeys(text, two);
    MatchesInDocumentOrder(text, one);
    MatchesInDocumentOrder(text, two);
    SameSpansSameOrder(text, Detect(text, one), Detect(text, two));
  }

  lemma MatchHasCandidate(text: string, candidates: seq<Candidate>, i: nat)
    requires WellFormed(text, candidates) && i < |Detect(text, candidates)|
    ensures var m := Detect(text, candidates)[i];
            exists c :: c in candidates && KeyOf(c) == SpanOf(m) && c.kind == m.kind
  {
    hide Sort, Accept, Position;
    AcceptedAreCandidates(candidates);
    hide Accepted;
    SortSameElements(Accepted(candidates), Leftmost);
    var ordered := Sort(Accepted(candidates), Leftmost);
    assert ordered[i] in ordered && ordered[i] in candidates;
  }

  /** No reported span is claimed, at the level of trust that won it, by two kinds. */
  ghost predicate Unanimous(cs: seq<Candidate>) {
    forall c, d | c in cs && d in cs && KeyOf(c) == KeyOf(d) && KeyOf(c) in Keys(Accepted(cs)) :: c.kind == d.kind
  }

  ghost predicate SameCandidates(one: seq<Candidate>, two: seq<Candidate>) {
    forall c :: c in one <==> c in two
  }

  lemma SameCandidatesSameKeys(text: string, one: seq<Candidate>, two: seq<Candidate>)
    requires WellFormed(text, two) && SameCandidates(one, two)
    ensures WellFormed(text, one) && Keys(one) == Keys(two) && Keys(Accepted(one)) == Keys(Accepted(two))
  {
    hide Accepted;
    AcceptedIsSelection(text, one);
    AcceptedIsSelection(text, two);
    SelectionIsUnique(Keys(Accepted(one)), Keys(Accepted(two)), Keys(one));
  }

  /** The kinds agree too where candidates are unanimous. */
  lemma KindsFollowSpans(text: string, one: seq<Candidate>, two: seq<Candidate>)
    requires WellFormed(text, two) && SameCandidates(one, two) && Unanimous(two)
    ensures WellFormed(text, one) && Detect(text, one) == Detect(text, two)
  {
    hide Accepted, WellFormed, KeyOf, SpanOf;
    SameCandidatesSameKeys(text, one, two);
    OrderDoesNotMatter(text, one, two);
    MatchSpansAreKeys(text, two);
    var a, b := Detect(text, one), Detect(text, two);
    forall i | 0 <= i < |a|
      ensures a[i] == b[i]
    {
      MatchHasCandidate(text, one, i);
      MatchHasCandidate(text, two, i);
      var c :| c in one && KeyOf(c) == SpanOf(a[i]) && c.kind == a[i].kind;
      var d :| d in two && KeyOf(d) == SpanOf(b[i]) && d.kind == b[i].kind;
      assert b[i] in b && SpanOf(b[i]) in Spans(b);
      SameMatch(text, one, two, i);
    }
  }

  // A candidate put in front of the list wins its span, if that span is won at its level of trust.

  lemma {:induction false} InsertedFirst(c: Candidate, xs: seq<Candidate>)
    returns (before: seq<Candidate>, after: seq<Candidate>)
    ensures Insert(c, xs, InOrder) == before + [c] + after
    ensures forall x | x in before :: KeyOf(x) != KeyOf(c)
  {
    if xs == [] || InOrder(c, xs[0]) {
      before, after := [], xs;
    } else {
      before, after := InsertedFirst(c, xs[1..]);
      before := [xs[0]] + before;
    }
  }

  lemma {:induction false} AcceptConcat(s: seq<Candidate>, t: seq<Candidate>, accepted: seq<Candidate>)
    ensures Accept(s + t, accepted) == Accept(t, Accept(s, accepted))
    decreases |s|
  {
    if s == [] {
      assert s + t == t;
    } else {
      assert (s + t)[1..] == s[1..] + t && (s + t)[0] == s[0];
      AcceptConcat(s[1..], t, accepted);
      AcceptConcat(s[1..], t, accepted + [s[0]]);
    }
  }

  lemma FrontCandidateWins(text: string, cs: seq<Candidate>, c: Candidate)
    requires WellFormed(text, cs) && c in cs && KeyOf(c) in Keys(Accepted(cs))
    ensures c in Accepted([c] + cs)
  {
    hide KeyOf, KeysCollide, Collide, WellFormed, IsSelection, Insert;
    var all := [c] + cs;
    SameCandidatesSameKeys(text, all, cs);
    AcceptedSettle(text, all);
    assert all[1..] == cs;
    var before, after := InsertedFirst(c, Sort(cs, InOrder));
    var none: seq<Candidate> := [];
    var earlier := Accept(before, none);
    AcceptConcat(before, [c] + after, none);
    assert before + [c] + after == before + ([c] + after);
    assert Accepted(all) == Accept([c] + after, earlier);
    AcceptKeeps(before, none);
    AcceptKeeps([c] + after, earlier);
    forall a | a in earlier
      ensures !Collide(a, c)
    {
      assert KeyOf(a) in Keys(Accepted(all)) && KeyOf(a) != KeyOf(c);
      ApartKeys(Accepted(all), KeyOf(a), KeyOf(c));
      CollideKeys(a, c);
    }
    assert ([c] + after)[0] == c && ([c] + after)[1..] == after;
    AcceptKeeps(after, earlier + [c]);
    assert c in earlier + [c];
  }

  lemma AcceptedIsReported(text: string, cs: seq<Candidate>, c: Candidate)
    requires WellFormed(text, cs) && c in Accepted(cs)
    ensures exists m :: m in Detect(text, cs) && m.start == c.start && m.kind == c.kind
  {
    hide Accepted, Sort, Position;
    AcceptedAreCandidates(cs);
    SortSameElements(Accepted(cs), Leftmost);
    var ordered := Sort(Accepted(cs), Leftmost);
    var i :| 0 <= i < |ordered| && ordered[i] == c;
    assert Detect(text, cs)[i] in Detect(text, cs);
  }

  /** Two matches at one place are one match. */
  lemma OneMatchPerPlace(text: string, cs: seq<Candidate>, m: SecretMatch, n: SecretMatch)
    requires WellFormed(text, cs) && m in Detect(text, cs) && n in Detect(text, cs) && m.start == n.start
    ensures m == n
  {
    hide Detect;
    MatchesInDocumentOrder(text, cs);
    var ms := Detect(text, cs);
    var i :| 0 <= i < |ms| && ms[i] == m;
    var j :| 0 <= j < |ms| && ms[j] == n;
    assert i < j ==> ms[i].end <= ms[j].start;
    assert j < i ==> ms[j].end <= ms[i].start;
  }

  lemma DisagreementShows(text: string, cs: seq<Candidate>, c: Candidate, d: Candidate)
    requires WellFormed(text, cs) && c in cs && d in cs
    requires KeyOf(c) == KeyOf(d) && KeyOf(c) in Keys(Accepted(cs)) && c.kind != d.kind
    ensures SameCandidates([c] + cs, cs) && SameCandidates([d] + cs, cs)
    ensures WellFormed(text, [c] + cs) && WellFormed(text, [d] + cs) && Detect(text, [c] + cs) != Detect(text, [d] + cs)
  {
    hide Detect, Accepted;
    FrontCandidateWins(text, cs, c);
    FrontCandidateWins(text, cs, d);
    AcceptedIsReported(text, [c] + cs, c);
    AcceptedIsReported(text, [d] + cs, d);
    var m :| m in Detect(text, [c] + cs) && m.start == c.start && m.kind == c.kind;
    var n :| n in Detect(text, [d] + cs) && n.start == d.start && n.kind == d.kind;
    if Detect(text, [c] + cs) == Detect(text, [d] + cs) {
      OneMatchPerPlace(text, [c] + cs, m, n);
    }
  }

  /**
   * Whole matches, kinds included, are independent of the order in which candidates were produced
   * exactly when the candidates are unanimous about the kinds of the spans that win.
   */
  lemma KindsIgnoreOrder(text: string, cs: seq<Candidate>)
    requires WellFormed(text, cs)
    ensures (forall one, two | SameCandidates(one, cs) && SameCandidates(two, cs) ::
               WellFormed(text, one) && WellFormed(text, two) && Detect(text, one) == Detect(text, two))
       <==> Unanimous(cs)
  {
    hide Detect, Accepted, KeyOf;
    if Unanimous(cs) {
      forall one, two | SameCandidates(one, cs) && SameCandidates(two, cs)
        ensures WellFormed(text, one) && WellFormed(text, two) && Detect(text, one) == Detect(text, two)
      {
        KindsFollowSpans(text, one, cs);
        KindsFollowSpans(text, two, cs);
      }
    } else {
      var c, d :| c in cs && d in cs && KeyOf(c) == KeyOf(d) && KeyOf(c) in Keys(Accepted(cs)) && c.kind != d.kind;
      DisagreementShows(text, cs, c, d);
    }
  }

  lemma SameMatch(text: string, one: seq<Candidate>, two: seq<Candidate>, i: nat)
    requires WellFormed(text, one) && WellFormed(text, two)
    requires i < |Detect(text, one)| && i < |Detect(text, two)|
    requires var m, n := Detect(text, one)[i], Detect(text, two)[i];
             SpanOf(m) == SpanOf(n) && m.kind == n.kind && m.value == n.value
    ensures Detect(text, one)[i] == Detect(text, two)[i]
  {
  }

  /** Unanimity asks about the winning keys, and those are the one selection there is from the candidates' keys. */
  lemma UnanimityIsOfSelection(text: string, cs: seq<Candidate>)
    requires WellFormed(text, cs)
    ensures Unanimous(cs) <==>
            forall chosen | IsSelection(chosen, Keys(cs)) ::
              forall c, d | c in cs && d in cs && KeyOf(c) == KeyOf(d) && KeyOf(c) in chosen :: c.kind == d.kind
  {
    hide Accepted, WellFormed, KeyOf, IsSelection;
    AcceptedIsSelection(text, cs);
    forall chosen | IsSelection(chosen, Keys(cs))
      ensures chosen == Keys(Accepted(cs))
    {
      SelectionIsUnique(chosen, Keys(Accepted(cs)), Keys(cs));
    }
  }

  /** Candidates of one span and one level of trust that are of one kind leave the order nothing to decide. */
  lemma DistinctKeysIgnoreOrder(text: string, cs: seq<Candidate>, one: seq<Candidate>, two: seq<Candidate>)
    requires WellFormed(text, cs) && SameCandidates(one, cs) && SameCandidates(two, cs)
    requires forall c, d | c in cs && d in cs && KeyOf(c) == KeyOf(d) :: c.kind == d.kind
    ensures WellFormed(text, one) && WellFormed(text, two) && Detect(text, one) == Detect(text, two)
  {
    hide Detect, Accepted;
    KindsIgnoreOrder(text, cs);
  }

  /**
   * A bearer token that is a JWT is captured by two rules of equal trust, as one span. The rule that
   * comes first in the table gives the kind.
   */
  lemma KindMayDependOnOrder()
    ensures var header, token := "authorization: Bearer ", "eyJhbGciOiJI.eyJzdWIiOiIx.c2lnbmF0dXJl";
            var text := header + token;
            var jwt := RuleMatch(Jwt, |header|, token, false, None);
            var bearer := RuleMatch(AuthorizationHeader, 0, text, true, Some(token));
            && OccursAt(text, jwt.whole, jwt.index) && OccursAt(text, bearer.whole, bearer.index)
            && WellFormed(text, CandidatesOf([jwt, bearer])) && WellFormed(text, CandidatesOf([bearer, jwt]))
            && |Detect(text, CandidatesOf([jwt, bearer]))| == |Detect(text, CandidatesOf([bearer, jwt]))| == 1
            && Detect(text, CandidatesOf([jwt, bearer]))[0].kind == Jwt
            && Detect(text, CandidatesOf([bearer, jwt]))[0].kind == AuthorizationHeader
  {
    hide LastIndexOf, Sort, Accept;
    var header, token := "authorization: Bearer ", "eyJhbGciOiJI.eyJzdWIiOiIx.c2lnbmF0dXJl";
    var text := header + token;
    var jwt := RuleMatch(Jwt, |header|, token, false, None);
    var bearer := RuleMatch(AuthorizationHeader, 0, text, true, Some(token));
    LastIndexIsCapture(header, token, "");
    assert header + token + "" == text;
    var c, d := Candidate(Jwt, token, |header|, |text|), Candidate(AuthorizationHeader, token, |header|, |text|);
    TwoCandidates(jwt, bearer, c, d);
    TwoCandidates(bearer, jwt, d, c);
    assert text[|header|..|text|] == token && text[0..|text|] == text;
    FirstOfTwo(c, d);
    FirstOfTwo(d, c);
  }

  lemma TwoCandidates(m: RuleMatch, n: RuleMatch, c: Candidate, d: Candidate)
    requires CandidateOf(m) == Some(c) && CandidateOf(n) == Some(d)
    ensures CandidatesOf([m, n]) == [c, d]
  {
    hide CandidateOf;
    var none: seq<RuleMatch> := [];
    assert [m, n][..1] == [m] && [m][..0] == none;
    assert CandidatesOf(none) == [] && CandidatesOf([m]) == CandidatesOf(none) + [c];
    assert CandidatesOf([m, n]) == CandidatesOf([m]) + [d];
  }

  lemma FirstOfTwo(a: Candidate, b: Candidate)
    requires KeyOf(a) == KeyOf(b) && a.start < a.end
    ensures Sort(Accepted([a, b]), Leftmost) == [a]
  {
    assert [a, b][1..] == [b] && [b][1..] == [];
    assert Sort([b], InOrder) == [b];
    assert Sort([a, b], InOrder) == [a, b];
    assert a in [a] && Collide(a, b);
    assert Accept([b], [a]) == [a];
    var none: seq<Candidate> := [];
    assert none + [a] == [a] && Accept([a, b], none) == Accept([a, b][1..], none + [a]);
    assert Sort([a], Leftmost) == [a];
  }

  // ---- The selection, character by character ------------------------------------------------

  /** The two kinds that are guesses; all others name a vendor or a format. */
  predicate IsGuess(kind: SecretKind) { kind in {GenericSecretAssignment, HighEntropyString} }

  /** `kind` is trusted less than `other`: entropy less than a name, a name less than a format. */
  predicate LessTrusted(kind: SecretKind, other: SecretKind) {
    || (kind == HighEntropyString && other != HighEntropyString)
    || (kind == GenericSecretAssignment && !IsGuess(other))
  }

  lemma AcceptedIsMatch(text: string, cs: seq<Candidate>, c: Candidate) returns (m: SecretMatch)
    requires WellFormed(text, cs) && c in Accepted(cs)
    ensures m in Detect(text, cs) && m.kind == c.kind && m.value == c.value && m.start == c.start && m.end == c.end
  {
    hide Accepted, Sort, Position;
    AcceptedAreCandidates(cs);
    SortSameElements(Accepted(cs), Leftmost);
    var ordered := Sort(Accepted(cs), Leftmost);
    var i :| 0 <= i < |ordered| && ordered[i] == c;
    m := Detect(text, cs)[i];
  }

  /** Every match is one of the candidates, as it was found. */
  lemma MatchIsCandidate(text: string, cs: seq<Candidate>, m: SecretMatch)
    requires WellFormed(text, cs) && m in Detect(text, cs)
    ensures Candidate(m.kind, m.value, m.start, m.end) in cs
  {
    hide Sort, Accept, Position;
    AcceptedAreCandidates(cs);
    hide Accepted;
    SortSameElements(Accepted(cs), Leftmost);
    var ordered, ms := Sort(Accepted(cs), Leftmost), Detect(text, cs);
    var i :| 0 <= i < |ms| && ms[i] == m;
    assert ordered[i] in ordered;
  }

  /**
   * No candidate goes without a match that shares a character with it: one that is longer, or as long
   * and trusted no less, or as long and as trusted and no further right.
   */
  lemma CandidateIsCovered(text: string, cs: seq<Candidate>, c: Candidate) returns (m: SecretMatch, i: nat)
    requires WellFormed(text, cs) && c in cs
    ensures m in Detect(text, cs)
    ensures m.start <= i < m.end && c.start <= i < c.end
    ensures m.end - m.start >= c.end - c.start
    ensures m.end - m.start == c.end - c.start ==> !LessTrusted(m.kind, c.kind)
    ensures m.end - m.start == c.end - c.start && !LessTrusted(c.kind, m.kind) ==> m.start <= c.start
  {
    hide Accepted, Detect, Collide, InOrder, Apart, LessTrusted;
    AcceptedSettle(text, cs);
    AcceptedAreCandidates(cs);
    assert Settled(c, Accepted(cs));
    var a :| a in Accepted(cs) && Collide(a, c) && InOrder(a, c);
    m := AcceptedIsMatch(text, cs, a);
    i := if a.start < c.start then c.start else a.start;
    assert IsSpanOf(a, text) && IsSpanOf(c, text);
    OrderMeans(a, c);
  }

  lemma OrderMeans(a: Candidate, c: Candidate)
    requires Collide(a, c) && InOrder(a, c)
    ensures a.start < c.end && c.start < a.end
    ensures a.end - a.start >= c.end - c.start
    ensures a.end - a.start == c.end - c.start ==> !LessTrusted(a.kind, c.kind)
    ensures a.end - a.start == c.end - c.start && !LessTrusted(c.kind, a.kind) ==> a.start <= c.start
  {
  }

  /** A candidate that shares no character with any other is reported as it is. */
  lemma LoneCandidateIsReported(text: string, cs: seq<Candidate>, c: Candidate)
    requires WellFormed(text, cs) && c in cs
    requires forall d | d in cs && d != c :: d.end <= c.start || c.end <= d.start
    ensures exists m :: m in Detect(text, cs) && m.kind == c.kind && m.value == c.value
                        && m.start == c.start && m.end == c.end
  {
    hide Detect, LessTrusted;
    var m, i := CandidateIsCovered(text, cs, c);
    MatchIsCandidate(text, cs, m);
    var d := Candidate(m.kind, m.value, m.start, m.end);
    assert d == c;
  }

  // ---- What the rules contribute -------------------------------------------------------------

  /** A rule without a group contributes its whole match, unless that is empty. */
  lemma WholeMatchIsCandidate(m: RuleMatch)
    requires !m.usesGroup && m.whole != ""
    ensures CandidateOf(m) == Some(Candidate(m.kind, m.whole, m.index, m.index + |m.whole|))
  {
  }

  /** A rule with a group contributes what the group captured, where it was captured. */
  lemma CaptureIsCandidate(m: RuleMatch, before: string, value: string, after: string)
    requires m.usesGroup && m.captured == Some(value) && m.whole == before + value + after
    requires value != "" && |after| <= 1 && forall c | c in after :: c !in value
    ensures CandidateOf(m) == Some(Candidate(m.kind, value, m.index + |before|, m.index + |before| + |value|))
  {
    LastIndexIsCapture(before, value, after);
  }

  /** Matches contribute one by one, in their order, each by itself. */
  lemma {:induction false} MatchesContribute(ms: seq<RuleMatch>, more: seq<RuleMatch>)
    ensures CandidatesOf(ms + more) == CandidatesOf(ms) + CandidatesOf(more)
    ensures |ms| == 1 ==> CandidatesOf(ms) == match CandidateOf(ms[0]) case Some(c) => [c] case None => []
    decreases |more|
  {
    hide CandidateOf;
    if |ms| == 1 {
      var none: seq<RuleMatch> := ms[..0];
      assert CandidatesOf(none) == [];
    }
    if more == [] {
      assert ms + more == ms;
    } else {
      var before := more[..|more| - 1];
      MatchesContribute(ms, before);
      assert (ms + more)[..|ms + more| - 1] == ms + before;
    }
  }

  // ---- Counting lines ------------------------------------------------------------------------

  /** The newlines before an offset, counted as a set. */
  lemma {:induction false} NewlinesAreCounted(text: string, n: nat)
    requires n <= |text|
    ensures Newlines(text, n) == |set i | 0 <= i < n && text[i] == '\n'|
  {
    if n > 0 {
      NewlinesAreCounted(text, n - 1);
      var before, upto := set i | 0 <= i < n - 1 && text[i] == '\n', set i | 0 <= i < n && text[i] == '\n';
      assert upto == if text[n - 1] == '\n' then before + {n - 1} else before;
    }
  }

  /**
   * A match is on the line after as many newlines as precede it, and its column leads back to the
   * start of that line.
   */
  lemma MatchIsPlaced(text: string, cs: seq<Candidate>, m: SecretMatch)
    requires WellFormed(text, cs) && m in Detect(text, cs)
    ensures m.start <= |text|
    ensures m.line == 1 + |set i | 0 <= i < m.start && text[i] == '\n'|
    ensures 1 <= m.column <= m.start + 1
    ensures forall i | m.start - (m.column - 1) <= i < m.start :: text[i] != '\n'
    ensures m.column <= m.start ==> text[m.start - m.column] == '\n'
  {
    AcceptedAreCandidates(cs);
    hide Accepted, Sort, Position;
    SortSameElements(Accepted(cs), Leftmost);
    var ordered, ms := Sort(Accepted(cs), Leftmost), Detect(text, cs);
    var i :| 0 <= i < |ms| && ms[i] == m;
    assert ordered[i] in ordered && m == Located(text, ordered[i]);
    PositionIsOnLine(text, m.start);
    NewlinesAreCounted(text, m.start);
  }
}
