/**
 * Prompt assembly (`redaction/src/assemble.ts`) and the registry of sealed prompts
 * (`redaction/src/redacted-prompt.ts`).
 */
module Assemble {
  import opened Text
  import opened Detection
  import opened Splice

  /** Stands for the regular expressions: the candidates they find in a text. */
  type Oracle = string -> seq<Candidate>

  datatype Segment = Segment(name: string, path: string, content: string)

  datatype PromptSource = PromptSource(instructions: string, segments: seq<Segment>)

  datatype PlaceholderRecord = PlaceholderRecord(placeholder: string, kind: SecretKind, location: string)

  /** A detected secret without its value. */
  datatype SecretRef = SecretRef(
    kind: SecretKind, severity: Severity, path: string, name: string,
    line: nat, column: nat, length: nat, placeholder: string)

  function KindName(kind: SecretKind): string {
    match kind
    case PrivateKey => "PRIVATE_KEY"
    case AwsAccessKeyId => "AWS_ACCESS_KEY_ID"
    case GithubToken => "GITHUB_TOKEN"
    case SlackToken => "SLACK_TOKEN"
    case StripeSecretKey => "STRIPE_SECRET_KEY"
    case GoogleApiKey => "GOOGLE_API_KEY"
    case OpenaiApiKey => "OPENAI_API_KEY"
    case AnthropicApiKey => "ANTHROPIC_API_KEY"
    case SendgridApiKey => "SENDGRID_API_KEY"
    case NpmToken => "NPM_TOKEN"
    case TwilioApiKey => "TWILIO_API_KEY"
    case Jwt => "JWT"
    case ConnectionStringPassword => "CONNECTION_STRING_PASSWORD"
    case AuthorizationHeader => "AUTHORIZATION_HEADER"
    case GenericSecretAssignment => "GENERIC_SECRET_ASSIGNMENT"
    case HighEntropyString => "HIGH_ENTROPY_STRING"
  }

  function PlaceholderFor(kind: SecretKind, ordinal: nat): string {
    "[[REDACTED:" + (KindName(kind) + [':'] + Decimal(ordinal)) + "]]"
  }

  lemma NoColonAfter(a: string, d: string, i: nat)
    requires AllDigits(d) && |a| < i < |a| + 1 + |d|
    ensures (a + [':'] + d)[i] != ':'
  {
  }

  /** After the last colon there are only digits. */
  lemma SameAfterColon(a: string, d: string, b: string, e: string)
    requires AllDigits(d) && AllDigits(e) && a + [':'] + d == b + [':'] + e
    ensures d == e
  {
    var s := a + [':'] + d;
    assert s[|a|] == ':' && s[|b|] == ':' && |s| == |a| + 1 + |d| == |b| + 1 + |e|;
    if |a| < |b| {
      NoColonAfter(a, d, |b|);
    } else if |b| < |a| {
      NoColonAfter(b, e, |a|);
    }
    assert s[|a| + 1..] == d && s[|b| + 1..] == e;
  }

  /** Different ordinals give different placeholders, whatever the kinds. */
  lemma PlaceholdersDiffer(k: SecretKind, m: nat, l: SecretKind, n: nat)
    requires PlaceholderFor(k, m) == PlaceholderFor(l, n)
    ensures m == n
  {
    hide KindName;
    var a, b := KindName(k) + [':'] + Decimal(m), KindName(l) + [':'] + Decimal(n);
    var p, q := PlaceholderFor(k, m), PlaceholderFor(l, n);
    assert |p| == 11 + |a| + 2 && |q| == 11 + |b| + 2;
    assert p[11..11 + |a|] == a && q[11..11 + |b|] == b;
    SameAfterColon(KindName(k), Decimal(m), KindName(l), Decimal(n));
    DecimalInjective(m, n);
  }

  function Location(path: string, m: SecretMatch): string {
    path + ":" + Decimal(m.line) + ":" + Decimal(m.column)
  }

  // ---- Assigning placeholders ----------------------------------------------------------------

  /** One detected secret as the replacement loop meets it. */
  datatype Occurrence = Occurrence(value: string, kind: SecretKind, location: string)

  /** What the assembler keeps while it works. */
  datatype Ledger = Ledger(given: map<string, string>, ordinal: nat, records: seq<PlaceholderRecord>)

  const EMPTY_LEDGER := Ledger(map[], 0, [])

  function Assign(l: Ledger, o: Occurrence): Ledger {
    if o.value in l.given then l
    else
      var placeholder := PlaceholderFor(o.kind, l.ordinal + 1);
      Ledger(l.given[o.value := placeholder], l.ordinal + 1,
             l.records + [PlaceholderRecord(placeholder, o.kind, o.location)])
  }

  function AssignAll(l: Ledger, occurrences: seq<Occurrence>): Ledger
    decreases |occurrences|
  {
    if occurrences == [] then l
    else Assign(AssignAll(l, occurrences[..|occurrences| - 1]), occurrences[|occurrences| - 1])
  }

  /** The distinct values in the order they were first met. */
  function Distinct(occurrences: seq<Occurrence>): seq<string>
    decreases |occurrences|
  {
    if occurrences == [] then []
    else
      var before, value := Distinct(occurrences[..|occurrences| - 1]), occurrences[|occurrences| - 1].value;
      if value in before then before else before + [value]
  }

  lemma {:induction false} AssignAllConcat(l: Ledger, a: seq<Occurrence>, b: seq<Occurrence>)
    ensures AssignAll(l, a + b) == AssignAll(AssignAll(l, a), b)
    decreases |b|
  {
    hide Assign;
    if b == [] {
      assert a + b == a;
    } else {
      var init := b[..|b| - 1];
      AssignAllConcat(l, a, init);
      assert (a + b)[..|a + b| - 1] == a + init;
      assert (a + b)[|a + b| - 1] == b[|b| - 1];
    }
  }

  /** Assigning more never changes what was given. */
  lemma {:induction false} AssignKeeps(l: Ledger, occurrences: seq<Occurrence>)
    ensures forall v | v in l.given :: v in AssignAll(l, occurrences).given
                                          && AssignAll(l, occurrences).given[v] == l.given[v]
    ensures forall o | o in occurrences :: o.value in AssignAll(l, occurrences).given
    decreases |occurrences|
  {
    if occurrences != [] {
      var before := occurrences[..|occurrences| - 1];
      AssignKeeps(l, before);
      assert occurrences == before + [occurrences[|occurrences| - 1]];
    }
  }

  /** The `i`-th value has the `i`-th record, whose placeholder carries the ordinal `i + 1`. */
  ghost predicate Bijective(l: Ledger, values: seq<string>) {
    && l.ordinal == |values| == |l.records|
    && (forall v :: v in l.given <==> v in values)
    && (forall i, j | 0 <= i < j < |values| :: values[i] != values[j])
    && (forall i | 0 <= i < |values| ::
          values[i] in l.given
          && l.given[values[i]] == l.records[i].placeholder == PlaceholderFor(l.records[i].kind, i + 1))
  }

  lemma AssignKeepsBijection(l: Ledger, values: seq<string>, o: Occurrence)
    requires Bijective(l, values)
    ensures Bijective(Assign(l, o), if o.value in values then values else values + [o.value])
  {
    hide PlaceholderFor;
    if o.value !in values {
      var next, more := Assign(l, o), values + [o.value];
      forall i | 0 <= i < |more|
        ensures more[i] in next.given
        ensures next.given[more[i]] == next.records[i].placeholder == PlaceholderFor(next.records[i].kind, i + 1)
      {
        assert i < |values| ==> more[i] in values;
      }
    }
  }

  /** Placeholders are a bijection between the distinct detected values and the ordinals 1..n. */
  lemma {:induction false} LedgerIsBijection(occurrences: seq<Occurrence>)
    ensures Bijective(AssignAll(EMPTY_LEDGER, occurrences), Distinct(occurrences))
    ensures forall v :: v in Distinct(occurrences) <==> exists o :: o in occurrences && o.value == v
    decreases |occurrences|
  {
    hide Bijective, Assign;
    if occurrences == [] {
      NothingAssigned();
    } else {
      var before, last := occurrences[..|occurrences| - 1], occurrences[|occurrences| - 1];
      LedgerIsBijection(before);
      AssignKeepsBijection(AssignAll(EMPTY_LEDGER, before), Distinct(before), last);
      assert occurrences == before + [last];
      forall v
        ensures v in Distinct(occurrences) <==> exists o :: o in occurrences && o.value == v
      {
        if v == last.value {
          assert last in occurrences;
        } else if v in Distinct(before) {
          var o :| o in before && o.value == v;
          assert o in occurrences;
        }
      }
    }
  }

  lemma NothingAssigned()
    ensures Bijective(EMPTY_LEDGER, [])
  {
  }

  lemma RecordFor(l: Ledger, values: seq<string>, v: string) returns (i: nat)
    requires Bijective(l, values) && v in l.given
    ensures i < |values| == |l.records| && values[i] == v && l.given[v] == PlaceholderFor(l.records[i].kind, i + 1)
  {
    hide PlaceholderFor;
    assert v in values;
    i :| 0 <= i < |values| && values[i] == v;
  }

  /** Equal values share a placeholder; different values get different strings. */
  lemma PlaceholdersAreFaithful(occurrences: seq<Occurrence>, i: nat, j: nat)
    requires i < |occurrences| && j < |occurrences|
    ensures var given := AssignAll(EMPTY_LEDGER, occurrences).given;
            && occurrences[i].value in given && occurrences[j].value in given
            && (given[occurrences[i].value] == given[occurrences[j].value]
                <==> occurrences[i].value == occurrences[j].value)
  {
    hide PlaceholderFor, AssignAll, Distinct, Bijective;
    LedgerIsBijection(occurrences);
    AssignKeeps(EMPTY_LEDGER, occurrences);
    var l, values := AssignAll(EMPTY_LEDGER, occurrences), Distinct(occurrences);
    assert occurrences[i] in occurrences && occurrences[j] in occurrences;
    var p := RecordFor(l, values, occurrences[i].value);
    var q := RecordFor(l, values, occurrences[j].value);
    if l.given[values[p]] == l.given[values[q]] {
      PlaceholdersDiffer(l.records[p].kind, p + 1, l.records[q].kind, q + 1);
    }
  }

  // ---- The specification ---------------------------------------------------------------------

  ghost predicate OracleFits(source: PromptSource, oracle: Oracle) {
    forall k | 0 <= k < |source.segments| :: WellFormed(source.segments[k].content, oracle(source.segments[k].content))
  }

  function MatchesIn(segment: Segment, oracle: Oracle): (ms: seq<SecretMatch>)
    requires WellFormed(segment.content, oracle(segment.content))
    ensures InDocumentOrder(segment.content, ms) && Spaced(segment.content, 0, ms)
  {
    var ms := Detect(segment.content, oracle(segment.content));
    MatchesInDocumentOrder(segment.content, oracle(segment.content));
    SpacedOutOfOrder(segment.content, 0, ms);
    ms
  }

  function OccurrenceOf(path: string, m: SecretMatch): Occurrence { Occurrence(m.value, m.kind, Location(path, m)) }

  /** The replacement loop's order: the last match of the segment first. */
  function Reversed(path: string, ms: seq<SecretMatch>): seq<Occurrence> {
    seq(|ms|, i requires 0 <= i < |ms| => OccurrenceOf(path, ms[|ms| - 1 - i]))
  }

  /** All occurrences of the first `n` segments, in the order they are met. */
  function Occurrences(source: PromptSource, oracle: Oracle, n: nat): seq<Occurrence>
    requires OracleFits(source, oracle) && n <= |source.segments|
  {
    if n == 0 then []
    else
      Occurrences(source, oracle, n - 1)
      + Reversed(source.segments[n - 1].path, MatchesIn(source.segments[n - 1], oracle))
  }

  /** The ledger after the first `n` segments. */
  function LedgerAfter(source: PromptSource, oracle: Oracle, n: nat): Ledger
    requires OracleFits(source, oracle) && n <= |source.segments|
  {
    AssignAll(EMPTY_LEDGER, Occurrences(source, oracle, n))
  }

  predicate Covers(given: map<string, string>, ms: seq<SecretMatch>) {
    forall m | m in ms :: m.value in given
  }

  /** `assigned.get(value)!`; the fallback is what JavaScript prints for a missing entry. */
  function Lookup(given: map<string, string>, value: string): string {
    if value in given then given[value] else "undefined"
  }

  function Placeholders(ms: seq<SecretMatch>, given: map<string, string>): seq<string> {
    seq(|ms|, i requires 0 <= i < |ms| => Lookup(given, ms[i].value))
  }

  function Clip(s: string, maxChars: nat): string {
    if |s| > maxChars then s[..maxChars] + "\n\U{2026} [truncated " + Decimal(|s| - maxChars) + " characters]" else s
  }

  function Rendered(segment: Segment, ms: seq<SecretMatch>, given: map<string, string>, maxChars: nat): string
    requires Spaced(segment.content, 0, ms)
  {
    "--- " + segment.name + ": " + segment.path + " ---\n"
    + Clip(Spliced(segment.content, ms, Placeholders(ms, given)), maxChars)
  }

  function RefOf(segment: Segment, m: SecretMatch, placeholder: string): SecretRef {
    SecretRef(m.kind, SeverityOf(m.kind), segment.path, segment.name, m.line, m.column, |m.value|, placeholder)
  }

  function RefsOf(segment: Segment, ms: seq<SecretMatch>, given: map<string, string>): seq<SecretRef> {
    seq(|ms|, i requires 0 <= i < |ms| => RefOf(segment, ms[i], Lookup(given, ms[i].value)))
  }

  /** Segment `k` has all its values given once it has been gone through, and ever after. */
  lemma {:induction false} Covered(source: PromptSource, oracle: Oracle, k: nat, n: nat)
    requires OracleFits(source, oracle) && k < n <= |source.segments|
    ensures var ms := MatchesIn(source.segments[k], oracle);
            var at, later := LedgerAfter(source, oracle, k + 1).given, LedgerAfter(source, oracle, n).given;
            Covers(at, ms) && Covers(later, ms) && forall m | m in ms :: at[m.value] == later[m.value]
    decreases n
  {
    hide AssignAll, MatchesIn, Reversed, OracleFits, InDocumentOrder, Spaced;
    Fits(source, oracle, k);
    Fits(source, oracle, n - 1);
    var path, ms := source.segments[n - 1].path, MatchesIn(source.segments[n - 1], oracle);
    var before := Occurrences(source, oracle, n - 1);
    AssignAllConcat(EMPTY_LEDGER, before, Reversed(path, ms));
    AssignKeeps(AssignAll(EMPTY_LEDGER, before), Reversed(path, ms));
    if k + 1 < n {
      Covered(source, oracle, k, n - 1);
    } else {
      forall m | m in ms
        ensures m.value in LedgerAfter(source, oracle, n).given
      {
        ReversedHas(path, ms, m);
      }
    }
  }

  lemma ReversedHas(path: string, ms: seq<SecretMatch>, m: SecretMatch)
    requires m in ms
    ensures OccurrenceOf(path, m) in Reversed(path, ms)
  {
    var i :| 0 <= i < |ms| && ms[i] == m;
    assert Reversed(path, ms)[|ms| - 1 - i] == OccurrenceOf(path, m);
  }

  function RenderedAll(source: PromptSource, oracle: Oracle, given: map<string, string>, maxChars: nat, n: nat)
    : seq<string>
    requires OracleFits(source, oracle) && n <= |source.segments|
  {
    if n == 0 then []
    else
      RenderedAll(source, oracle, given, maxChars, n - 1)
      + [Rendered(source.segments[n - 1], MatchesIn(source.segments[n - 1], oracle), given, maxChars)]
  }

  function RefsAll(source: PromptSource, oracle: Oracle, given: map<string, string>, n: nat): seq<SecretRef>
    requires OracleFits(source, oracle) && n <= |source.segments|
  {
    if n == 0 then []
    else
      RefsAll(source, oracle, given, n - 1)
      + RefsOf(source.segments[n - 1], MatchesIn(source.segments[n - 1], oracle), given)
  }

  function FinalGiven(source: PromptSource, oracle: Oracle): map<string, string>
    requires OracleFits(source, oracle)
  {
    LedgerAfter(source, oracle, |source.segments|).given
  }

  /** The provider-bound text: every match replaced by the final placeholder of its value. */
  function PromptText(source: PromptSource, oracle: Oracle, maxChars: nat): string
    requires OracleFits(source, oracle)
  {
    Join([source.instructions, ""]
         + RenderedAll(source, oracle, FinalGiven(source, oracle), maxChars, |source.segments|), "\n")
  }

  function Records(source: PromptSource, oracle: Oracle): seq<PlaceholderRecord>
    requires OracleFits(source, oracle)
  {
    LedgerAfter(source, oracle, |source.segments|).records
  }

  /** The references: one for every match, in document order, whatever the clipping limit is. */
  function Secrets(source: PromptSource, oracle: Oracle): seq<SecretRef>
    requires OracleFits(source, oracle)
  {
    RefsAll(source, oracle, FinalGiven(source, oracle), |source.segments|)
  }

  // ---- Sealed prompts ------------------------------------------------------------------------

  /** A frozen prompt. Anyone may build one; only the registry makes it a redacted one. */
  class RedactedPrompt {
    const text: string
    const placeholders: seq<PlaceholderRecord>
    const redactionCount: nat

    constructor (text: string, placeholders: seq<PlaceholderRecord>, redactionCount: nat)
      ensures this.text == text && this.placeholders == placeholders && this.redactionCount == redactionCount
    {
      this.text, this.placeholders, this.redactionCount := text, placeholders, redactionCount;
    }
  }

  /** What a sealed prompt was assembled from. */
  datatype Origin = Origin(source: PromptSource, oracle: Oracle, maxChars: nat)

  /** The module-private set of every prompt this package sealed. */
  class PromptRegistry {
    var sealed: set<RedactedPrompt>
    ghost var origins: map<RedactedPrompt, Origin>

    ghost predicate Valid()
      reads this
    {
      && origins.Keys == sealed
      && forall p | p in sealed :: IsAssembled(p, origins[p])
    }

    constructor ()
      ensures Valid() && sealed == {}
    {
      sealed, origins := {}, map[];
    }

    /** Seal anything; the registry stays valid when what is sealed was assembled. */
    method SealRedactedPrompt(text: string, placeholders: seq<PlaceholderRecord>, redactionCount: nat,
                              ghost origin: Origin)
      returns (prompt: RedactedPrompt)
      modifies this
      ensures fresh(prompt) && sealed == old(sealed) + {prompt} && origins == old(origins)[prompt := origin]
      ensures prompt.text == text && prompt.placeholders == placeholders && prompt.redactionCount == redactionCount
      ensures old(Valid()) && IsAssembled(prompt, origin) ==> Valid()
    {
      hide IsAssembled;
      prompt := new RedactedPrompt(text, placeholders, redactionCount);
      sealed := sealed + {prompt};
      origins := origins[prompt := origin];
    }

    /** Some sealed prompt has this text. */
    ghost predicate Sealed(text: string)
      reads this
    {
      exists p :: p in sealed && p.text == text
    }

    /** Membership by identity: a copy, or any other object, is not in the set. */
    predicate IsRedactedPrompt(value: object?)
      reads this
    {
      value is RedactedPrompt && (value as RedactedPrompt) in sealed
    }
  }

  ghost predicate IsAssembled(p: RedactedPrompt, origin: Origin) {
    && OracleFits(origin.source, origin.oracle)
    && p.text == PromptText(origin.source, origin.oracle, origin.maxChars)
    && p.placeholders == Records(origin.source, origin.oracle)
    && p.redactionCount == |Secrets(origin.source, origin.oracle)|
  }

  // ---- The assembler -------------------------------------------------------------------------

  /** One turn of the replacement loop: the matches already replaced keep their placeholders. */
  lemma AssignStep(segment: Segment, ms: seq<SecretMatch>, l: Ledger, i: nat)
    requires i < |ms|
    requires Covers(AssignAll(l, Reversed(segment.path, ms)[..|ms| - (i + 1)]).given, ms[i + 1..])
    ensures var before := AssignAll(l, Reversed(segment.path, ms)[..|ms| - (i + 1)]);
            var after := AssignAll(l, Reversed(segment.path, ms)[..|ms| - i]);
            && after == Assign(before, OccurrenceOf(segment.path, ms[i]))
            && Covers(after.given, ms[i..])
            && Placeholders(ms[i..], after.given)
               == [Lookup(after.given, ms[i].value)] + Placeholders(ms[i + 1..], before.given)
  {
    hide AssignAll, PlaceholderFor;
    var reversed := Reversed(segment.path, ms);
    var earlier, upto := reversed[..|ms| - (i + 1)], reversed[..|ms| - i];
    assert upto == earlier + [OccurrenceOf(segment.path, ms[i])];
    AssignAllConcat(l, earlier, [OccurrenceOf(segment.path, ms[i])]);
    AssignOne(AssignAll(l, earlier), OccurrenceOf(segment.path, ms[i]));
    assert ms[i..] == [ms[i]] + ms[i + 1..];
    assert forall j | i + 1 <= j < |ms| :: ms[i + 1..][j - i - 1] == ms[j] && ms[j] in ms[i + 1..];
  }

  lemma AssignOne(l: Ledger, o: Occurrence)
    ensures AssignAll(l, [o]) == Assign(l, o)
  {
  }

  /** The replacement loop of one segment, which also assigns placeholders. */
  method RedactSegment(segment: Segment, ms: seq<SecretMatch>, l: Ledger) returns (redacted: string, ledger: Ledger)
    requires Spaced(segment.content, 0, ms)
    ensures ledger == AssignAll(l, Reversed(segment.path, ms))
    ensures redacted == Spliced(segment.content, ms, Placeholders(ms, ledger.given))
  {
    hide AssignAll, Spaced, Gaps, Interleave, PlaceholderFor, Placeholders;
    ghost var text, reversed := segment.content, Reversed(segment.path, ms);
    redacted, ledger := segment.content, l;
    var i := |ms|;
    NothingReplaced(segment, ms, l);
    while i > 0
      invariant 0 <= i <= |ms|
      invariant ledger == AssignAll(l, reversed[..|ms| - i]) && Covers(ledger.given, ms[i..])
      invariant |Placeholders(ms[i..], ledger.given)| == |ms| - i
      invariant Boundary(ms, i) <= |text| && Spaced(text, Boundary(ms, i), ms[i..])
      invariant redacted == text[..Boundary(ms, i)]
                            + Interleave(Gaps(text, Boundary(ms, i), ms[i..]), Placeholders(ms[i..], ledger.given))
    {
      i := i - 1;
      AssignStep(segment, ms, l, i);
      var m := ms[i];
      ghost var parts := Placeholders(ms[i + 1..], ledger.given);
      if m.value !in ledger.given {
        var placeholder := PlaceholderFor(m.kind, ledger.ordinal + 1);
        ledger := Ledger(ledger.given[m.value := placeholder], ledger.ordinal + 1,
                         ledger.records + [PlaceholderRecord(placeholder, m.kind, Location(segment.path, m))]);
      }
      ReplaceStep(text, ms, i, Lookup(ledger.given, m.value), parts);
      redacted := redacted[..m.start] + Lookup(ledger.given, m.value) + redacted[m.end..];
    }
    assert ms[0..] == ms && reversed[..|ms|] == reversed;
  }

  lemma NothingReplaced(segment: Segment, ms: seq<SecretMatch>, l: Ledger)
    requires Spaced(segment.content, 0, ms)
    ensures AssignAll(l, Reversed(segment.path, ms)[..0]) == l
    ensures Covers(l.given, ms[|ms|..]) && Placeholders(ms[|ms|..], l.given) == []
    ensures Boundary(ms, |ms|) <= |segment.content| && Spaced(segment.content, Boundary(ms, |ms|), ms[|ms|..])
    ensures segment.content == segment.content[..Boundary(ms, |ms|)]
                               + Interleave(Gaps(segment.content, Boundary(ms, |ms|), ms[|ms|..]), [])
  {
    hide Gaps, Interleave, AssignAll, Spaced, Reversed;
    SpacedTail(segment.content, ms);
    SpacedNothing(segment.content, Boundary(ms, |ms|));
    AssignNothing(l);
    assert Reversed(segment.path, ms)[..0] == [] && ms[|ms|..] == [];
    assert segment.content == segment.content[..Boundary(ms, |ms|)] + segment.content[Boundary(ms, |ms|)..];
  }

  lemma SpacedNothing(text: string, from: nat)
    requires from <= |text|
    ensures Spaced(text, from, [])
  {
  }

  lemma AssignNothing(l: Ledger)
    ensures AssignAll(l, []) == l
  {
  }

  /** The placeholders a segment is rendered with are the final ones. */
  lemma PlaceholdersAreFinal(source: PromptSource, oracle: Oracle, k: nat)
    requires OracleFits(source, oracle) && k < |source.segments|
    ensures Placeholders(MatchesIn(source.segments[k], oracle), LedgerAfter(source, oracle, k + 1).given)
         == Placeholders(MatchesIn(source.segments[k], oracle), FinalGiven(source, oracle))
  {
    hide LedgerAfter, MatchesIn;
    Covered(source, oracle, k, |source.segments|);
    var ms := MatchesIn(source.segments[k], oracle);
    assert forall i | 0 <= i < |ms| :: ms[i] in ms;
  }

  lemma LedgerGrows(source: PromptSource, oracle: Oracle, k: nat)
    requires OracleFits(source, oracle) && k < |source.segments|
    ensures LedgerAfter(source, oracle, k + 1)
         == AssignAll(LedgerAfter(source, oracle, k),
                      Reversed(source.segments[k].path, MatchesIn(source.segments[k], oracle)))
  {
    hide AssignAll, MatchesIn;
    AssignAllConcat(EMPTY_LEDGER, Occurrences(source, oracle, k),
                    Reversed(source.segments[k].path, MatchesIn(source.segments[k], oracle)));
  }

  /** References in document order, not in replacement order. */
  method RecordSecrets(segment: Segment, ms: seq<SecretMatch>, given: map<string, string>, before: seq<SecretRef>)
    returns (secrets: seq<SecretRef>)
    ensures secrets == before + RefsOf(segment, ms, given)
  {
    secrets := before;
    for i := 0 to |ms|
      invariant secrets == before + RefsOf(segment, ms, given)[..i]
    {
      secrets := secrets + [RefOf(segment, ms[i], Lookup(given, ms[i].value))];
    }
  }

  lemma FinalIs(source: PromptSource, oracle: Oracle)
    requires OracleFits(source, oracle)
    ensures FinalGiven(source, oracle) == LedgerAfter(source, oracle, |source.segments|).given
  {
  }

  method AssemblePrompt(source: PromptSource, maxChars: nat, oracle: Oracle, registry: PromptRegistry)
    returns (prompt: RedactedPrompt, secrets: seq<SecretRef>)
    requires OracleFits(source, oracle) && registry.Valid()
    modifies registry
    ensures registry.Valid() && fresh(prompt) && registry.sealed == old(registry.sealed) + {prompt}
    ensures IsAssembled(prompt, Origin(source, oracle, maxChars))
    ensures secrets == Secrets(source, oracle)
  {
    hide AssignAll, MatchesIn, Placeholders, Spliced, Reversed, OracleFits, LedgerAfter, Join, RefsOf, FinalGiven, Clip;
    FinalIs(source, oracle);
    var ledger := EMPTY_LEDGER;
    var renderedSegments: seq<string> := [];
    secrets := [];
    assert LedgerAfter(source, oracle, 0) == EMPTY_LEDGER by { LedgerStarts(source, oracle); }
    for k := 0 to |source.segments|
      invariant ledger == LedgerAfter(source, oracle, k)
      invariant renderedSegments == RenderedAll(source, oracle, FinalGiven(source, oracle), maxChars, k)
      invariant secrets == RefsAll(source, oracle, FinalGiven(source, oracle), k)
      modifies {}
    {
      var segment := source.segments[k];
      Fits(source, oracle, k);
      var matches := DetectSecrets(segment.content, oracle(segment.content));
      assert matches == MatchesIn(segment, oracle) by { MatchesAre(segment, oracle); }
      var redacted;
      redacted, ledger := RedactSegment(segment, matches, ledger);
      LedgerGrows(source, oracle, k);
      PlaceholdersAreFinal(source, oracle, k);
      RefsAreFinal(segment, matches, ledger.given, FinalGiven(source, oracle));
      secrets := RecordSecrets(segment, matches, ledger.given, secrets);
      renderedSegments := renderedSegments
        + ["--- " + segment.name + ": " + segment.path + " ---\n" + Clip(redacted, maxChars)];
    }
    var text := Join([source.instructions, ""] + renderedSegments, "\n");
    prompt := registry.SealRedactedPrompt(text, ledger.records, |secrets|, Origin(source, oracle, maxChars));
    assert IsAssembled(prompt, Origin(source, oracle, maxChars));
  }

  lemma LedgerStarts(source: PromptSource, oracle: Oracle)
    requires OracleFits(source, oracle)
    ensures LedgerAfter(source, oracle, 0) == EMPTY_LEDGER
  {
  }

  lemma Fits(source: PromptSource, oracle: Oracle, k: nat)
    requires OracleFits(source, oracle) && k < |source.segments|
    ensures WellFormed(source.segments[k].content, oracle(source.segments[k].content))
  {
  }

  lemma MatchesAre(segment: Segment, oracle: Oracle)
    requires WellFormed(segment.content, oracle(segment.content))
    ensures MatchesIn(segment, oracle) == Detect(segment.content, oracle(segment.content))
  {
  }

  lemma RefsAreFinal(segment: Segment, ms: seq<SecretMatch>, given: map<string, string>, final: map<string, string>)
    requires Placeholders(ms, given) == Placeholders(ms, final)
    ensures RefsOf(segment, ms, given) == RefsOf(segment, ms, final)
  {
    forall i | 0 <= i < |ms|
      ensures Lookup(given, ms[i].value) == Lookup(final, ms[i].value)
    {
      assert Placeholders(ms, given)[i] == Placeholders(ms, final)[i];
    }
  }

  /** One reference stands for every match, in order, with a placeholder that has a record. */
  lemma SecretsAreComplete(source: PromptSource, oracle: Oracle, k: nat, i: nat)
    requires OracleFits(source, oracle) && k < |source.segments|
    requires i < |MatchesIn(source.segments[k], oracle)|
    ensures var m := MatchesIn(source.segments[k], oracle)[i];
            var at := |Occurrences(source, oracle, k)| + i;
            && |Secrets(source, oracle)| == |Occurrences(source, oracle, |source.segments|)|
            && m.value in FinalGiven(source, oracle)
            && at < |Secrets(source, oracle)|
            && Secrets(source, oracle)[at] == RefOf(source.segments[k], m, FinalGiven(source, oracle)[m.value])
            && exists r :: r in Records(source, oracle) && r.placeholder == Secrets(source, oracle)[at].placeholder
  {
    hide MatchesIn, FinalGiven, Records, RefsAll, Occurrences;
    RefsCount(source, oracle, |source.segments|);
    RefAt(source, oracle, k, i, |source.segments|);
    ValueHasRecord(source, oracle, k, MatchesIn(source.segments[k], oracle)[i]);
  }

  /** Where the reference of match `i` of segment `k` stands. */
  lemma {:induction false} RefAt(source: PromptSource, oracle: Oracle, k: nat, i: nat, n: nat)
    requires OracleFits(source, oracle) && k < n <= |source.segments|
    requires i < |MatchesIn(source.segments[k], oracle)|
    ensures var m := MatchesIn(source.segments[k], oracle)[i];
            var refs := RefsAll(source, oracle, FinalGiven(source, oracle), n);
            var at := |Occurrences(source, oracle, k)| + i;
            at < |refs| && refs[at] == RefOf(source.segments[k], m, Lookup(FinalGiven(source, oracle), m.value))
    decreases n
  {
    hide MatchesIn, FinalGiven, Occurrences, Lookup, OracleFits, RefOf, InDocumentOrder, Spaced;
    RefsCount(source, oracle, n - 1);
    Fits(source, oracle, k);
    Fits(source, oracle, n - 1);
    if k < n - 1 {
      RefAt(source, oracle, k, i, n - 1);
    }
  }

  lemma {:induction false} RefsCount(source: PromptSource, oracle: Oracle, n: nat)
    requires OracleFits(source, oracle) && n <= |source.segments|
    ensures |RefsAll(source, oracle, FinalGiven(source, oracle), n)| == |Occurrences(source, oracle, n)|
  {
    hide MatchesIn, FinalGiven, OracleFits, InDocumentOrder, Spaced;
    if n > 0 {
      Fits(source, oracle, n - 1);
      RefsCount(source, oracle, n - 1);
    }
  }

  lemma ValueHasRecord(source: PromptSource, oracle: Oracle, k: nat, m: SecretMatch)
    requires OracleFits(source, oracle) && k < |source.segments| && m in MatchesIn(source.segments[k], oracle)
    ensures m.value in FinalGiven(source, oracle)
    ensures exists r :: r in Records(source, oracle) && r.placeholder == FinalGiven(source, oracle)[m.value]
  {
    hide MatchesIn, Occurrences, AssignAll, PlaceholderFor, Distinct, Bijective;
    Covered(source, oracle, k, |source.segments|);
    var all := Occurrences(source, oracle, |source.segments|);
    LedgerIsBijection(all);
    var l := AssignAll(EMPTY_LEDGER, all);
    var i := RecordFor(l, Distinct(all), m.value);
    RecordPlaceholder(l, Distinct(all), i);
    assert l.records[i] in l.records;
  }

  lemma RecordPlaceholder(l: Ledger, values: seq<string>, i: nat)
    requires Bijective(l, values) && i < |values|
    ensures |l.records| == |values| && l.records[i].placeholder == PlaceholderFor(l.records[i].kind, i + 1)
  {
  }

  // ---- `redactText` --------------------------------------------------------------------------

  function KindMarker(kind: SecretKind): string { "[[REDACTED:" + KindName(kind) + "]]" }

  function KindMarkers(ms: seq<SecretMatch>): seq<string> {
    seq(|ms|, i requires 0 <= i < |ms| => KindMarker(ms[i].kind))
  }

  function Redacted(text: string, oracle: Oracle): string
    requires WellFormed(text, oracle(text))
  {
    var ms := Detect(text, oracle(text));
    MatchesInDocumentOrder(text, oracle(text));
    SpacedOutOfOrder(text, 0, ms);
    Spliced(text, ms, KindMarkers(ms))
  }

  method RedactText(text: string, oracle: Oracle) returns (redacted: string)
    requires WellFormed(text, oracle(text))
    ensures redacted == Redacted(text, oracle)
  {
    hide Spaced, Gaps, Interleave, Detect;
    var matches := DetectSecrets(text, oracle(text));
    MatchesInDocumentOrder(text, oracle(text));
    SpacedOutOfOrder(text, 0, matches);
    if matches == [] {
      Restore(text, matches);
      assert Values(matches) == KindMarkers(matches);
      return text;
    }
    redacted := ReplaceRightToLeft(text, matches, KindMarkers(matches));
  }
}
