/**
 * The ordered fallback walk (`ai-executor/src/executor.ts`), what it records and what it costs
 * (`record.ts`), and the module delivered when no provider serves (`degrade.ts`). One attempt is an
 * oracle: it may answer anything.
 */
module Executor {
  import opened Results
  import opened Text
  import opened Detection
  import opened Splice
  import opened Assemble
  import opened Rendering
  import opened Billing
  import opened Chain

  datatype AiOutcome = Success | SchemaInvalid | RateLimited | Timeout | Error

  /** What one call to a provider came to, and the clock around it. */
  datatype Attempt = Attempt(
    outcome: AiOutcome, text: string, promptTokens: Count, outputTokens: Count, errorMessage: Option<string>,
    startedAt: int, endedAt: int)

  datatype InvocationRecord = InvocationRecord(
    provider: string, model: string, chainPosition: nat, promptTokens: Count, outputTokens: Count,
    latencyMs: nat, costMicros: int, outcome: AiOutcome, promptVersion: Option<string>, errorMessage: Option<string>)

  datatype Validation<T> = Valid(value: T) | Invalid(problem: string)

  datatype AiResult<T> =
    | Served(value: T, invocations: seq<InvocationRecord>)
    | ChainExhausted(invocations: seq<InvocationRecord>)

  /** Everything a run depends on besides the prompt text and the providers' answers. */
  datatype Request<!T> = Request(
    chain: seq<Provider>,
    promptVersion: Option<string>,
    validate: string -> Validation<T>,
    oracle: Oracle)

  /** The providers' answers during one run, by chain position and text sent. */
  type Answers = (nat, string) -> Attempt

  ghost predicate OracleIsTotal(oracle: Oracle) { forall s: string :: WellFormed(s, oracle(s)) }

  // ---- The specification ---------------------------------------------------------------------

  function Latency(a: Attempt): nat { if a.endedAt < a.startedAt then 0 else a.endedAt - a.startedAt }

  function CostOf(p: Provider, a: Attempt): int {
    if ReportedUsage(a.promptTokens, a.outputTokens) then CostMicrosOf(p.pricing, a.promptTokens, a.outputTokens) else 0
  }

  ghost function RedactedMessage(message: Option<string>, oracle: Oracle): Option<string>
    requires OracleIsTotal(oracle)
  {
    match message
    case None => None
    case Some(text) => Some(Redacted(text, oracle))
  }

  /** The attempt served: it succeeded and its response validates. */
  predicate Serves<T>(validate: string -> Validation<T>, a: Attempt) {
    a.outcome == Success && validate(a.text).Valid?
  }

  function OutcomeOf<T>(validate: string -> Validation<T>, a: Attempt): AiOutcome {
    if a.outcome != Success then a.outcome else if validate(a.text).Valid? then Success else SchemaInvalid
  }

  function MessageOf<T>(validate: string -> Validation<T>, a: Attempt): Option<string> {
    if a.outcome != Success then a.errorMessage
    else match validate(a.text) case Valid(_) => None case Invalid(problem) => Some(problem)
  }

  ghost function RecordOf<T>(req: Request<T>, position: nat, a: Attempt): InvocationRecord
    requires OracleIsTotal(req.oracle) && position < |req.chain|
  {
    var p := req.chain[position];
    InvocationRecord(p.vendor, p.model, position, a.promptTokens, a.outputTokens, Latency(a), CostOf(p, a),
                     OutcomeOf(req.validate, a), req.promptVersion,
                     RedactedMessage(MessageOf(req.validate, a), req.oracle))
  }

  /** The records of the first `n` providers. */
  ghost function Trace<T>(req: Request<T>, answers: Answers, text: string, n: nat): seq<InvocationRecord>
    requires OracleIsTotal(req.oracle) && n <= |req.chain|
  {
    seq(n, i requires 0 <= i < n => RecordOf(req, i, answers(i, text)))
  }

  ghost predicate ServesAt<T>(req: Request<T>, answers: Answers, text: string, i: nat) {
    i < |req.chain| && Serves(req.validate, answers(i, text))
  }

  /** `n` is the first position that serves, or the chain's length if none does. */
  ghost predicate IsStop<T>(req: Request<T>, answers: Answers, text: string, n: nat) {
    && n <= |req.chain|
    && (forall i | 0 <= i < n :: !ServesAt(req, answers, text, i))
    && (n < |req.chain| ==> ServesAt(req, answers, text, n))
  }

  /** The result that belongs to stopping at `n`. */
  ghost function Outcome<T>(req: Request<T>, answers: Answers, text: string, n: nat): AiResult<T>
    requires OracleIsTotal(req.oracle) && IsStop(req, answers, text, n)
  {
    if n < |req.chain| then Served(req.validate(answers(n, text).text).value, Trace(req, answers, text, n + 1))
    else ChainExhausted(Trace(req, answers, text, n))
  }

  lemma ServesMeans<T>(validate: string -> Validation<T>, a: Attempt)
    ensures Serves(validate, a) <==> a.outcome == Success && validate(a.text).Valid?
  {
  }

  // ---- The executor --------------------------------------------------------------------------

  /** An executor is a checked chain; what is asked for and how it is validated comes with each request. */
  class AiExecutor {
    const chain: seq<Provider>
    const oracle: Oracle
    /** Every text any provider was sent, in any run, with the position it was sent to. */
    ghost var sent: seq<(nat, string)>

    constructor (chain: seq<Provider>, oracle: Oracle)
      ensures this.chain == chain && this.oracle == oracle && sent == []
    {
      this.chain, this.oracle := chain, oracle;
      sent := [];
    }

    function RequestFor<T>(promptVersion: Option<string>, validate: string -> Validation<T>): Request<T> {
      Request(chain, promptVersion, validate, oracle)
    }

    /** No provider was ever sent anything but the text of a sealed prompt. */
    ghost predicate SentIsSealed(registry: PromptRegistry)
      reads this, registry
    {
      forall i | 0 <= i < |sent| :: registry.Sealed(sent[i].1)
    }

    /**
     * `run`. `None` stands for the UnredactedPromptError thrown before any provider is called. The
     * walk stops at the first position that serves; every attempt up to there is recorded, each
     * provider was sent the sealed prompt's text once, and nothing else was sent to anyone. The
     * answers are those of this run; another run may meet others.
     */
    method Run<T>(prompt: RedactedPrompt, promptVersion: Option<string>, validate: string -> Validation<T>,
                  answers: Answers, registry: PromptRegistry)
      returns (r: Option<AiResult<T>>, ghost n: nat)
      requires OracleIsTotal(oracle)
      modifies this
      ensures r.Some? <==> prompt in registry.sealed
      ensures r.None? ==> sent == old(sent)
      ensures r.Some? && registry.Valid() ==> IsAssembled(prompt, registry.origins[prompt])
      ensures var req := RequestFor(promptVersion, validate);
              r.Some? ==> IsStop(req, answers, prompt.text, n) && r.value == Outcome(req, answers, prompt.text, n)
      ensures r.Some? ==> sent == old(sent) + seq(|r.value.invocations|, i => (i, prompt.text))
      ensures old(SentIsSealed(registry)) ==> SentIsSealed(registry)
    {
      hide IsAssembled, IsStop, Trace;
      if !registry.IsRedactedPrompt(prompt) {
        return None, 0;
      }
      var result, stop := Walk(RequestFor(promptVersion, validate), answers, prompt.text);
      return Some(result), stop;
    }

    /** The loop over the chain. */
    method Walk<T>(req: Request<T>, answers: Answers, text: string) returns (r: AiResult<T>, ghost n: nat)
      requires OracleIsTotal(req.oracle)
      modifies this
      ensures IsStop(req, answers, text, n) && r == Outcome(req, answers, text, n)
      ensures sent == old(sent) + seq(|r.invocations|, i => (i, text))
    {
      hide RecordOf, Redacted, OracleIsTotal, Serves;
      var invocations: seq<InvocationRecord> := [];
      for position := 0 to |req.chain|
        invariant invocations == Trace(req, answers, text, position)
        invariant forall i | 0 <= i < position :: !ServesAt(req, answers, text, i)
        invariant sent == old(sent) + seq(position, i => (i, text))
      {
        var a := answers(position, text);
        sent := sent + [(position, text)];
        assert sent == old(sent) + seq(position + 1, i => (i, text));
        var record := Record(req, position, a);
        assert Trace(req, answers, text, position + 1) == Trace(req, answers, text, position) + [record];
        assert ServesAt(req, answers, text, position) <==> a.outcome == Success && req.validate(a.text).Valid? by {
          ServesMeans(req.validate, a);
        }
        invocations := invocations + [record];
        if a.outcome != Success {
          continue;
        }
        var validated := req.validate(a.text);
        if validated.Invalid? {
          continue;
        }
        return Served(validated.value, invocations), position;
      }
      return ChainExhausted(invocations), |req.chain|;
    }

    /** The record of one attempt; the error message is redacted before it is kept. */
    static method Record<T>(req: Request<T>, position: nat, a: Attempt) returns (record: InvocationRecord)
      requires OracleIsTotal(req.oracle) && position < |req.chain|
      ensures record == RecordOf(req, position, a)
    {
      var p := req.chain[position];
      var message := MessageOf(req.validate, a);
      var errorMessage: Option<string> := None;
      if message.Some? {
        var redacted := RedactText(message.value, req.oracle);
        errorMessage := Some(redacted);
      }
      return InvocationRecord(p.vendor, p.model, position, a.promptTokens, a.outputTokens, Latency(a), CostOf(p, a),
                              OutcomeOf(req.validate, a), req.promptVersion, errorMessage);
    }
  }

  /** `createExecutor`: there is an executor exactly for a chain that passes the check, kept in order. */
  method CreateExecutor(providers: seq<Provider>, lower: Lower, oracle: Oracle)
    returns (r: Result<AiExecutor, ChainError>)
    ensures r.Ok? <==> IsChain(providers, lower)
    ensures r.Ok? ==> fresh(r.value) && r.value.chain == providers && r.value.oracle == oracle && r.value.sent == []
    ensures r.Err? ==> RefusedAs(providers, lower, r.error)
  {
    hide IsChain, RefusedAs;
    var chain := BuildChain(providers, lower);
    if chain.Err? {
      return Err(chain.error);
    }
    var executor := new AiExecutor(chain.value, oracle);
    return Ok(executor);
  }

  // ---- What providers ever get to see ----------------------------------------------------------

  /** Sealing more prompts, or anything else that leaves the executor alone, keeps it so. */
  twostate lemma SealingKeepsSent(executor: AiExecutor, registry: PromptRegistry)
    requires old(executor.SentIsSealed(registry)) && executor.sent == old(executor.sent)
    requires old(registry.sealed) <= registry.sealed
    ensures executor.SentIsSealed(registry)
  {
    forall i | 0 <= i < |executor.sent|
      ensures registry.Sealed(executor.sent[i].1)
    {
      assert old(registry.Sealed(executor.sent[i].1));
      var p :| p in old(registry.sealed) && p.text == executor.sent[i].1;
      assert p in registry.sealed;
    }
  }

  /**
   * Across all runs, every text any provider was sent is a prompt text some assembly produced, with
   * the secrets its detector found replaced.
   */
  lemma SentIsAssembled(executor: AiExecutor, registry: PromptRegistry, i: nat) returns (origin: Origin)
    requires registry.Valid() && executor.SentIsSealed(registry) && i < |executor.sent|
    ensures OracleFits(origin.source, origin.oracle)
    ensures executor.sent[i].1 == PromptText(origin.source, origin.oracle, origin.maxChars)
  {
    hide OracleFits, PromptText;
    assert registry.Sealed(executor.sent[i].1);
    var p :| p in registry.sealed && p.text == executor.sent[i].1;
    assert IsAssembled(p, registry.origins[p]);
    origin := registry.origins[p];
  }

  // ---- What a trace says ---------------------------------------------------------------------

  /** Served exactly when some provider serves; then only the last record is a success. */
  lemma WalkServes<T>(req: Request<T>, answers: Answers, text: string, n: nat)
    requires OracleIsTotal(req.oracle) && IsStop(req, answers, text, n)
    ensures var r := Outcome(req, answers, text, n);
            && (r.Served? <==> exists i :: ServesAt(req, answers, text, i))
            && |r.invocations| == (if r.Served? then n + 1 else |req.chain|)
            && (forall i | 0 <= i < |r.invocations| ::
                  r.invocations[i].chainPosition == i
                  && (r.invocations[i].outcome == Success <==> r.Served? && i == |r.invocations| - 1))
  {
    hide Redacted;
    var r := Outcome(req, answers, text, n);
    if n < |req.chain| {
      assert ServesAt(req, answers, text, n);
    }
    forall i | 0 <= i < |r.invocations|
      ensures r.invocations[i].chainPosition == i
      ensures r.invocations[i].outcome == Success <==> r.Served? && i == |r.invocations| - 1
    {
      assert r.invocations[i] == RecordOf(req, i, answers(i, text));
      assert OutcomeOf(req.validate, answers(i, text)) == Success <==> ServesAt(req, answers, text, i);
    }
  }

  /** A record costs what the attempt consumed, whatever came of it, and never a negative amount. */
  lemma CostIgnoresOutcome(p: Provider, a: Attempt, b: Attempt)
    requires a.promptTokens == b.promptTokens && a.outputTokens == b.outputTokens
    ensures CostOf(p, a) == CostOf(p, b) == CostMicrosOf(p.pricing, a.promptTokens, a.outputTokens)
    ensures CostOf(p, a) >= 0
  {
  }

  /** The message an attempt leaves behind: the provider's if it failed, the problem if it does not validate. */
  ghost predicate LeavesMessage<T>(validate: string -> Validation<T>, a: Attempt, message: string) {
    || (a.outcome != Success && a.errorMessage == Some(message))
    || (a.outcome == Success && validate(a.text) == Invalid(message))
  }

  /** What record `i` says, against the provider asked, its answer and the clock. */
  lemma RecordsAreTrue<T>(req: Request<T>, answers: Answers, text: string, n: nat, i: nat)
    requires OracleIsTotal(req.oracle) && IsStop(req, answers, text, n)
    requires i < |Outcome(req, answers, text, n).invocations|
    ensures i < |req.chain|
    ensures var p, a, r := req.chain[i], answers(i, text), Outcome(req, answers, text, n).invocations[i];
            && r.provider == p.vendor && r.model == p.model && r.chainPosition == i
            && r.promptTokens == a.promptTokens && r.outputTokens == a.outputTokens
            && r.latencyMs == (if a.startedAt <= a.endedAt then a.endedAt - a.startedAt else 0)
            && r.costMicros == CostMicrosOf(p.pricing, a.promptTokens, a.outputTokens)
            && r.promptVersion == req.promptVersion
            && r.outcome == (if a.outcome != Success then a.outcome
                             else if req.validate(a.text).Valid? then Success else SchemaInvalid)
            && (r.errorMessage.Some? <==> exists message :: LeavesMessage(req.validate, a, message))
            && forall message | LeavesMessage(req.validate, a, message) ::
                 r.errorMessage == Some(Redacted(message, req.oracle))
  {
    hide Redacted, CostMicrosOf;
    var a, r := answers(i, text), Outcome(req, answers, text, n).invocations[i];
    assert r == RecordOf(req, i, a);
    CostIgnoresOutcome(req.chain[i], a, a);
    if MessageOf(req.validate, a).Some? {
      assert LeavesMessage(req.validate, a, MessageOf(req.validate, a).value);
    }
  }

  /** In a recorded message the marker of its kind stands for every secret the message held. */
  lemma MessagesAreRedacted<T>(req: Request<T>, answers: Answers, text: string, n: nat, i: nat, message: string, k: nat)
    requires OracleIsTotal(req.oracle) && IsStop(req, answers, text, n)
    requires i < |Outcome(req, answers, text, n).invocations|
    requires LeavesMessage(req.validate, answers(i, text), message)
    requires WellFormed(message, req.oracle(message)) && k < |Detect(message, req.oracle(message))|
    ensures var ms := Detect(message, req.oracle(message));
            var kept := Outcome(req, answers, text, n).invocations[i].errorMessage;
            var marker, at := "[[REDACTED:" + KindName(ms[k].kind) + "]]", ms[k].start + Shift(ms, KindMarkers(ms), k);
            kept.Some? && 0 <= at && at + |marker| <= |kept.value| && kept.value[at..at + |marker|] == marker
  {
    hide Redacted, Detect, KindName, KindMarkers, Shift, Outcome, IsStop, LeavesMessage;
    RecordsAreTrue(req, answers, text, n, i);
    MarkerStands(message, req.oracle, k);
  }

  /** Two runs whose messages at `i` differ in their secrets only record the same message. */
  lemma MessagesDoNotShow<T>(req: Request<T>, answers: Answers, other: Answers, text: string, n: nat, m: nat, i: nat,
                             message: string, variant: string)
    requires OracleIsTotal(req.oracle) && IsStop(req, answers, text, n) && IsStop(req, other, text, m)
    requires i < |Outcome(req, answers, text, n).invocations| && i < |Outcome(req, other, text, m).invocations|
    requires LeavesMessage(req.validate, answers(i, text), message)
    requires LeavesMessage(req.validate, other(i, text), variant)
    requires WellFormed(message, req.oracle(message)) && WellFormed(variant, req.oracle(variant))
    requires var ms, ns := Detect(message, req.oracle(message)), Detect(variant, req.oracle(variant));
             && SameKinds(ms, ns) && Spaced(message, 0, ms) && Spaced(variant, 0, ns)
             && Gaps(message, 0, ms) == Gaps(variant, 0, ns)
    ensures Outcome(req, answers, text, n).invocations[i].errorMessage
         == Outcome(req, other, text, m).invocations[i].errorMessage
  {
    hide Redacted, Detect, Outcome, IsStop, LeavesMessage, Gaps, Spaced;
    RecordsAreTrue(req, answers, text, n, i);
    RecordsAreTrue(req, other, text, m, i);
    LinesDoNotShow(message, req.oracle, variant, req.oracle);
  }

  /** `totalCostMicros`. */
  function TotalCostMicros(invocations: seq<InvocationRecord>): int {
    if invocations == [] then 0
    else TotalCostMicros(invocations[..|invocations| - 1]) + invocations[|invocations| - 1].costMicros
  }

  /** What the first `n` attempts consumed, unrounded, at the prices of their providers. */
  function ExactTotal<T>(req: Request<T>, answers: Answers, text: string, n: nat): real
    requires n <= |req.chain|
  {
    if n == 0 then 0.0
    else
      var a := answers(n - 1, text);
      ExactTotal(req, answers, text, n - 1) + ExactCost(req.chain[n - 1].pricing, a.promptTokens, a.outputTokens)
  }

  /** Over `n` attempts the recorded total is within `n/2` micros of the exact consumption. */
  lemma {:induction false} TotalIsWithinHalves<T>(req: Request<T>, answers: Answers, text: string, n: nat)
    requires OracleIsTotal(req.oracle) && n <= |req.chain|
    ensures TotalCostMicros(Trace(req, answers, text, n)) >= 0
    ensures var error := TotalCostMicros(Trace(req, answers, text, n)) as real - ExactTotal(req, answers, text, n);
            -(n as real) / 2.0 <= error <= n as real / 2.0
  {
    hide Redacted, CostMicrosOf, ExactCost, ReportedUsage;
    if n > 0 {
      TotalIsWithinHalves(req, answers, text, n - 1);
      var trace, a := Trace(req, answers, text, n), answers(n - 1, text);
      assert trace[..n - 1] == Trace(req, answers, text, n - 1);
      assert trace[n - 1].costMicros == CostOf(req.chain[n - 1], a);
      CostIgnoresOutcome(req.chain[n - 1], a, a);
      CostIsRounded(req.chain[n - 1].pricing, a.promptTokens, a.outputTokens);
    }
  }

  // ---- Exhaustion and degradation ------------------------------------------------------------

  lemma {:induction false} ImageIsNoLarger(s: set<string>, f: string -> string)
    ensures |set x | x in s :: f(x)| <= |s|
    decreases |s|
  {
    var image := set x | x in s :: f(x);
    if s == {} {
      assert image == {};
    } else {
      var x :| x in s;
      var rest := s - {x};
      ImageIsNoLarger(rest, f);
      assert image == (set y | y in rest :: f(y)) + {f(x)};
    }
  }

  /** The vendor names a degradation notice counts: as written, not case-folded. */
  function VendorNames(invocations: seq<InvocationRecord>): set<string> { set r | r in invocations :: r.provider }

  /** The names an exhausted walk recorded are the chain's, and folding them gives its vendors. */
  lemma NamesAreTheChains<T>(req: Request<T>, lower: Lower, answers: Answers, text: string, n: nat)
    requires OracleIsTotal(req.oracle)
    requires IsStop(req, answers, text, n) && Outcome(req, answers, text, n).ChainExhausted?
    ensures var names := VendorNames(Outcome(req, answers, text, n).invocations);
            && names == (set p | p in req.chain :: p.vendor)
            && VendorsOf(req.chain, lower) == set x | x in names :: lower(Trim(x))
  {
    hide Redacted, Trim;
    var invocations := Outcome(req, answers, text, n).invocations;
    forall i | 0 <= i < |req.chain|
      ensures invocations[i].provider == req.chain[i].vendor
    {
      assert invocations[i] == RecordOf(req, i, answers(i, text));
    }
    NamesOf(req.chain, invocations, lower);
  }

  lemma NamesOf(chain: seq<Provider>, invocations: seq<InvocationRecord>, lower: Lower)
    requires |invocations| == |chain| && forall i | 0 <= i < |chain| :: invocations[i].provider == chain[i].vendor
    ensures VendorNames(invocations) == set p | p in chain :: p.vendor
    ensures VendorsOf(chain, lower) == set x | x in VendorNames(invocations) :: lower(Trim(x))
  {
    hide Trim;
    forall p | p in chain
      ensures p.vendor in VendorNames(invocations)
    {
      var i :| 0 <= i < |chain| && chain[i] == p;
      assert invocations[i] in invocations;
    }
    forall r | r in invocations
      ensures exists p :: p in chain && p.vendor == r.provider
    {
      var i :| 0 <= i < |invocations| && invocations[i] == r;
      assert chain[i] in chain;
    }
  }

  /** An exhausted chain was tried and recorded whole, across at least two vendors. */
  lemma ExhaustionSpansVendors<T>(req: Request<T>, lower: Lower, answers: Answers, text: string, n: nat)
    requires OracleIsTotal(req.oracle) && IsChain(req.chain, lower)
    requires IsStop(req, answers, text, n) && Outcome(req, answers, text, n).ChainExhausted?
    ensures var invocations := Outcome(req, answers, text, n).invocations;
            && |invocations| == |req.chain|
            && |VendorsOf(req.chain, lower)| >= MIN_PROVIDER_VENDORS
            && |VendorNames(invocations)| >= |VendorsOf(req.chain, lower)|
  {
    hide Redacted, Trim;
    NamesAreTheChains(req, lower, answers, text, n);
    var names, fold := VendorNames(Outcome(req, answers, text, n).invocations), (s: string) => lower(Trim(s));
    ImageIsNoLarger(names, fold);
    assert VendorsOf(req.chain, lower) == set x | x in names :: fold(x);
  }

  datatype ModuleState = Degraded

  datatype Attribution = Measured

  /** What `degradeModule` delivers; `tried` and `vendors` are the numbers its notice quotes. */
  datatype DegradedModule<F> = DegradedModule(
    area: string, state: ModuleState, findings: seq<F>, attribution: Attribution,
    tried: nat, vendors: nat, invocations: seq<InvocationRecord>)

  function DegradeModule<F>(area: string, measured: seq<F>, invocations: seq<InvocationRecord>): DegradedModule<F> {
    DegradedModule(area, Degraded, measured, Measured, |invocations|, |VendorNames(invocations)|, invocations)
  }

  lemma {:induction false} ImageIsAsLarge(s: set<string>, f: string -> string)
    ensures |set x | x in s :: f(x)| == |s| <==> forall x, y | x in s && y in s && f(x) == f(y) :: x == y
    decreases |s|
  {
    var image := set x | x in s :: f(x);
    if s == {} {
      assert image == {};
    } else {
      var x :| x in s;
      var rest := s - {x};
      var image' := set y | y in rest :: f(y);
      ImageIsAsLarge(rest, f);
      ImageIsNoLarger(rest, f);
      assert image == image' + {f(x)};
      if f(x) in image' {
        var y :| y in rest && f(y) == f(x);
        assert image == image';
      }
    }
  }

  /**
   * After an exhausted walk of a built chain nothing measured is lost and every attempt is counted.
   * The notice never understates the vendors; it counts names as written, so it states the number
   * the chain check counted exactly when no two names of the chain fold and trim to one.
   */
  lemma DegradationIsHonest<T, F>(req: Request<T>, lower: Lower, answers: Answers, text: string, n: nat,
                                  area: string, measured: seq<F>)
    requires OracleIsTotal(req.oracle) && IsChain(req.chain, lower)
    requires IsStop(req, answers, text, n) && Outcome(req, answers, text, n).ChainExhausted?
    ensures var d := DegradeModule(area, measured, Outcome(req, answers, text, n).invocations);
            && d.area == area && d.findings == measured
            && d.invocations == Outcome(req, answers, text, n).invocations
            && d.tried == |req.chain|
            && d.vendors >= |VendorsOf(req.chain, lower)| >= MIN_PROVIDER_VENDORS
            && (d.vendors == |VendorsOf(req.chain, lower)| <==>
                  forall p, q | p in req.chain && q in req.chain && VendorKey(p, lower) == VendorKey(q, lower) ::
                    p.vendor == q.vendor)
            && (forall i | 0 <= i < |d.invocations| :: d.invocations[i].outcome != Success)
  {
    ExhaustionSpansVendors(req, lower, answers, text, n);
    WalkServes(req, answers, text, n);
    NamesAreTheChains(req, lower, answers, text, n);
    hide Outcome, IsStop, Trace, Trim, IsChain, RecordOf, OracleIsTotal, VendorKey;
    VendorsAgreeIff(req.chain, lower);
  }

  /** As many names as vendors exactly when no two names are one vendor. */
  lemma VendorsAgreeIff(chain: seq<Provider>, lower: Lower)
    ensures var names := set p | p in chain :: p.vendor;
            |names| == |VendorsOf(chain, lower)| <==>
              forall p, q | p in chain && q in chain && VendorKey(p, lower) == VendorKey(q, lower) ::
                p.vendor == q.vendor
  {
    hide Trim;
    var names, fold := set p | p in chain :: p.vendor, (s: string) => lower(Trim(s));
    ImageIsAsLarge(names, fold);
    assert forall p | p in chain :: p.vendor in names && VendorKey(p, lower) == fold(p.vendor);
    assert VendorsOf(chain, lower) == set x | x in names :: fold(x);
  }

  /** `A`, `a` and `b` are two vendors under case folding, and three names. */
  lemma OvercountedIsChain(p: Provider, q: Provider, r: Provider, lower: Lower)
    requires lower("A") == "a" && lower("a") == "a" && lower("b") == "b" && lower("x") == "x" && lower("y") == "y"
    requires p == Provider("A", "x", None) && q == Provider("a", "y", None) && r == Provider("b", "x", None)
    ensures IsChain([p, q, r], lower) && |VendorsOf([p, q, r], lower)| == 2
    ensures |set x | x in [p, q, r] :: x.vendor| == 3
  {
    hide ChainKey, VendorKey, Named, IsChain, VendorsOf;
    VendorAndModel("A", "a", "x", lower);
    VendorAndModel("a", "a", "y", lower);
    VendorAndModel("b", "b", "x", lower);
    ShortKeys("a", "x", "a", "y");
    ShortKeys("a", "y", "b", "x");
    ShortKeys("a", "x", "b", "x");
    ThreeProviders(p, q, r, lower);
  }

  /** A chain the check accepts with two vendors, and a notice that speaks of three. */
  lemma NoticeMayOvercount<T, F>(req: Request<T>, lower: Lower, answers: Answers, text: string, n: nat,
                                 area: string, measured: seq<F>)
    requires lower("A") == "a" && lower("a") == "a" && lower("b") == "b" && lower("x") == "x" && lower("y") == "y"
    requires req.chain == [Provider("A", "x", None), Provider("a", "y", None), Provider("b", "x", None)]
    requires OracleIsTotal(req.oracle)
    requires IsStop(req, answers, text, n) && Outcome(req, answers, text, n).ChainExhausted?
    ensures IsChain(req.chain, lower) && |VendorsOf(req.chain, lower)| == 2
    ensures DegradeModule(area, measured, Outcome(req, answers, text, n).invocations).vendors == 3
  {
    OvercountedIsChain(req.chain[0], req.chain[1], req.chain[2], lower);
    assert req.chain == [req.chain[0], req.chain[1], req.chain[2]];
    hide IsChain, VendorsOf, Outcome, IsStop, OracleIsTotal;
    NamesAreTheChains(req, lower, answers, text, n);
  }

  lemma ThreeProviders(p: Provider, q: Provider, r: Provider, lower: Lower)
    requires Named(p) && Named(q) && Named(r)
    requires VendorKey(p, lower) == VendorKey(q, lower) != VendorKey(r, lower)
    requires ChainKey(p, lower) != ChainKey(q, lower) && ChainKey(q, lower) != ChainKey(r, lower)
    requires ChainKey(p, lower) != ChainKey(r, lower)
    requires p.vendor != q.vendor && q.vendor != r.vendor && p.vendor != r.vendor
    ensures IsChain([p, q, r], lower) && |VendorsOf([p, q, r], lower)| == 2
    ensures |set x | x in [p, q, r] :: x.vendor| == 3
  {
    hide ChainKey, VendorKey, Named;
    assert VendorsOf([p, q, r], lower) == {VendorKey(p, lower), VendorKey(r, lower)};
    assert (set x | x in [p, q, r] :: x.vendor) == {p.vendor, q.vendor, r.vendor};
  }

  lemma ShortKeys(v: string, m: string, w: string, n: string)
    requires |v| == |m| == |w| == |n| == 1
    ensures v + "/" + m == w + "/" + n ==> v == w && m == n
  {
    var a, b := v + "/" + m, w + "/" + n;
    assert a[0] == v[0] && a[2] == m[0] && b[0] == w[0] && b[2] == n[0];
  }

  lemma VendorAndModel(vendor: string, folded: string, model: string, lower: Lower)
    requires |vendor| == |model| == 1 && 'A' <= vendor[0] <= 'z' && 'A' <= model[0] <= 'z'
    requires lower(vendor) == folded && lower(model) == model
    ensures var p := Provider(vendor, model, None);
            && Named(p) && VendorKey(p, lower) == folded && ChainKey(p, lower) == folded + "/" + model
  {
    TrimWord(vendor);
    TrimWord(model);
  }
}
