/**
 * Money (`ai-executor/src/provider.ts`, `pricing.ts` and `record.ts`): dollar rates into integer
 * micros by shuffling digits, token counts into a rounded cost, and the total of many costs.
 */
module Billing {
  import opened Results
  import opened Text

  // ---- Rates ---------------------------------------------------------------------------------

  /** What a model costs, in integer micros per million tokens. */
  datatype ModelPricing = ModelPricing(inputMicrosPerMillion: nat, outputMicrosPerMillion: nat)

  /** `/^\d+(?:\.\d{1,6})?$/`: a whole part, and possibly one to six decimals. */
  ghost predicate IsDollarRate(raw: string) {
    (raw != "" && AllDigits(raw))
    || exists whole, fraction :: IsDecimalRate(raw, whole, fraction)
  }

  predicate IsDecimalRate(raw: string, whole: string, fraction: string) {
    && raw == whole + ['.'] + fraction
    && whole != "" && AllDigits(whole) && AllDigits(fraction) && 1 <= |fraction| <= 6
  }

  /** The expression as a program: the place of the first dot decides. */
  predicate MatchesDollarRate(raw: string) {
    var parts := Split(raw, '.');
    && parts[0] != "" && AllDigits(parts[0])
    && (|parts| == 1 || (|parts| == 2 && AllDigits(parts[1]) && 1 <= |parts[1]| <= 6))
  }

  lemma DigitsHaveNoDot(s: string)
    requires AllDigits(s)
    ensures '.' !in s
  {
  }

  lemma MatchesIsDollarRate(raw: string)
    ensures MatchesDollarRate(raw) <==> IsDollarRate(raw)
  {
    var parts := Split(raw, '.');
    JoinSplit(raw, '.');
    if MatchesDollarRate(raw) {
      if |parts| == 1 {
        assert Join(parts, ".") == parts[0];
      } else {
        assert parts == [parts[0], parts[1]] && parts[1..] == [parts[1]];
        assert IsDecimalRate(raw, parts[0], parts[1]);
      }
    }
    if raw != "" && AllDigits(raw) {
      DigitsHaveNoDot(raw);
      SplitWithoutSeparator(raw, '.');
    } else if whole, fraction :| IsDecimalRate(raw, whole, fraction) {
      DecimalRateParts(raw, whole, fraction);
    }
  }

  lemma DecimalRateParts(raw: string, whole: string, fraction: string)
    requires IsDecimalRate(raw, whole, fraction)
    ensures Split(raw, '.') == [whole, fraction]
  {
    DigitsHaveNoDot(whole);
    DigitsHaveNoDot(fraction);
    SplitAtSeparator(whole, fraction, '.');
    SplitWithoutSeparator(fraction, '.');
  }

  /** `fraction.padEnd(6, '0').slice(0, 6)`. */
  function SixPlaces(fraction: string): (padded: string)
    ensures |padded| == 6
    ensures AllDigits(fraction) ==> AllDigits(padded)
  {
    if |fraction| < 6 then fraction + Zeros(6 - |fraction|) else fraction[..6]
  }

  /** The digits `dollarsPerMillionToMicros` hands to `parseInt`. */
  function MicrosDigits(raw: string): string {
    var parts := Split(raw, '.');
    parts[0] + SixPlaces(if |parts| > 1 then parts[1] else "")
  }

  lemma RateHasDigits(raw: string)
    requires IsDollarRate(raw)
    ensures AllDigits(MicrosDigits(raw))
  {
    MatchesIsDollarRate(raw);
    var parts := Split(raw, '.');
    var a, b := parts[0], SixPlaces(if |parts| > 1 then parts[1] else "");
    assert forall i | 0 <= i < |a + b| :: (a + b)[i] == if i < |a| then a[i] else b[i - |a|];
  }

  function DollarsPerMillionToMicros(raw: string): nat
    requires IsDollarRate(raw)
  {
    RateHasDigits(raw);
    ParseDigits(MicrosDigits(raw))
  }

  lemma SixPlacesValue(fraction: string)
    requires AllDigits(fraction) && |fraction| <= 6
    ensures ParseDigits(SixPlaces(fraction)) == ParseDigits(fraction) * Pow10(6 - |fraction|)
  {
    var padding := Zeros(6 - |fraction|);
    assert SixPlaces(fraction) == fraction + padding by {
      assert fraction[..|fraction|] == fraction;
      if |fraction| == 6 { assert fraction + padding == fraction; }
    }
    ParseConcat(fraction, padding);
    ParseZeros(6 - |fraction|);
  }

  /** Shuffling digits is exact: whole dollars times a million plus the decimals scaled to six places. */
  lemma MicrosAreExact(raw: string, whole: string, fraction: string)
    requires IsDecimalRate(raw, whole, fraction)
    ensures IsDollarRate(raw)
    ensures DollarsPerMillionToMicros(raw)
         == ParseDigits(whole) * 1_000_000 + ParseDigits(fraction) * Pow10(6 - |fraction|)
  {
    RateHasDigits(raw);
    DecimalRateParts(raw, whole, fraction);
    ParseConcat(whole, SixPlaces(fraction));
    SixPlacesValue(fraction);
    MillionIsPow10();
  }

  lemma WholeMicrosAreExact(raw: string)
    requires raw != "" && AllDigits(raw)
    ensures DollarsPerMillionToMicros(raw) == ParseDigits(raw) * 1_000_000
  {
    RateHasDigits(raw);
    DigitsHaveNoDot(raw);
    SplitWithoutSeparator(raw, '.');
    ParseConcat(raw, SixPlaces(""));
    SixPlacesValue("");
    MillionIsPow10();
  }

  lemma MillionIsPow10()
    ensures Pow10(6) == 1_000_000
  {
  }

  /** A number of micros as dollars with six decimals. */
  function Dollars(micros: nat): string {
    Decimal(micros / 1_000_000) + ['.'] + Fixed(micros % 1_000_000, 6)
  }

  /** The last `places` decimal digits of `n`. */
  function Fixed(n: nat, places: nat): (s: string)
    ensures |s| == places && AllDigits(s)
  {
    if places == 0 then "" else Fixed(n / 10, places - 1) + [DigitChar(n % 10)]
  }

  lemma {:induction false} ParseFixed(n: nat, places: nat)
    requires n < Pow10(places)
    ensures ParseDigits(Fixed(n, places)) == n
  {
    if places > 0 {
      ParseFixed(n / 10, places - 1);
      var s := Fixed(n, places);
      assert s[..places - 1] == Fixed(n / 10, places - 1);
    }
  }

  /** Printing an amount and reading it back returns the amount. */
  lemma DollarsRoundTrip(micros: nat)
    ensures IsDollarRate(Dollars(micros)) && DollarsPerMillionToMicros(Dollars(micros)) == micros
  {
    var whole, fraction := Decimal(micros / 1_000_000), Fixed(micros % 1_000_000, 6);
    MillionIsPow10();
    ParseDecimal(micros / 1_000_000);
    ParseFixed(micros % 1_000_000, 6);
    assert IsDecimalRate(Dollars(micros), whole, fraction);
    MicrosAreExact(Dollars(micros), whole, fraction);
  }

  datatype PricingEnv = PricingEnv(input: Option<string>, output: Option<string>, freeTier: bool)

  function OrBlank(s: Option<string>): string { if s.Some? then s.value else "" }

  /** `pricingFrom`; `None` stands for PricingNotConfiguredError. */
  function PricingFrom(env: PricingEnv): (r: Option<ModelPricing>)
    ensures env.freeTier ==> r == Some(ModelPricing(0, 0))
    ensures !env.freeTier ==>
              (r.Some? <==> IsDollarRate(Trim(OrBlank(env.input))) && IsDollarRate(Trim(OrBlank(env.output))))
    ensures !env.freeTier && r.Some? ==>
              r.value == ModelPricing(DollarsPerMillionToMicros(Trim(OrBlank(env.input))),
                                      DollarsPerMillionToMicros(Trim(OrBlank(env.output))))
  {
    if env.freeTier then Some(ModelPricing(0, 0))
    else
      var input, output := Trim(OrBlank(env.input)), Trim(OrBlank(env.output));
      MatchesIsDollarRate(input);
      MatchesIsDollarRate(output);
      if !MatchesDollarRate(input) || !MatchesDollarRate(output) then None
      else Some(ModelPricing(DollarsPerMillionToMicros(input), DollarsPerMillionToMicros(output)))
  }

  // ---- Costs ---------------------------------------------------------------------------------

  /** A JavaScript number, as a provider may report one. */
  datatype Count = NotANumber | PlusInfinity | MinusInfinity | Finite(value: real)

  /** `n > 0`. */
  predicate IsPositive(n: Count) { n.PlusInfinity? || (n.Finite? && n.value > 0.0) }

  function UsableCount(n: Count): (r: real)
    ensures r >= 0.0
  {
    if !n.Finite? || n.value < 0.0 then 0.0 else n.value
  }

  /** `Math.round`: to the nearest integer, halves up. */
  function Round(x: real): int { (x + 0.5).Floor }

  /** One side's share, in micros. */
  function SideCost(n: Count, rate: nat): real { UsableCount(n) * rate as real / 1_000_000.0 }

  /** What the counts cost before rounding. */
  function ExactCost(pricing: Option<ModelPricing>, promptTokens: Count, outputTokens: Count): real {
    if pricing.None? then 0.0
    else
      SideCost(promptTokens, pricing.value.inputMicrosPerMillion)
      + SideCost(outputTokens, pricing.value.outputMicrosPerMillion)
  }

  function CostMicrosOf(pricing: Option<ModelPricing>, promptTokens: Count, outputTokens: Count): int {
    if pricing.None? then 0 else Round(ExactCost(pricing, promptTokens, outputTokens))
  }

  /** `attempt` reported something it consumed. */
  predicate ReportedUsage(promptTokens: Count, outputTokens: Count) {
    IsPositive(promptTokens) || IsPositive(outputTokens)
  }

  lemma SideCostIsMonotone(n: Count, m: Count, rate: nat)
    requires UsableCount(n) <= UsableCount(m)
    ensures 0.0 <= SideCost(n, rate) <= SideCost(m, rate)
  {
  }

  /** Before rounding, prompt tokens cost the input rate and output tokens the output rate, per million. */
  lemma CostBySides(p: ModelPricing, prompt: real, output: real)
    requires prompt >= 0.0 && output >= 0.0
    ensures ExactCost(Some(p), Count.Finite(prompt), Count.Finite(output)) * 1_000_000.0
         == prompt * p.inputMicrosPerMillion as real + output * p.outputMicrosPerMillion as real
  {
  }

  /** Whole millions of tokens cost whole rates, each side its own, with no rounding. */
  lemma MillionsCostRates(p: ModelPricing, prompt: nat, output: nat)
    ensures var m := 1_000_000.0;
            CostMicrosOf(Some(p), Count.Finite(prompt as real * m), Count.Finite(output as real * m))
            == prompt * p.inputMicrosPerMillion + output * p.outputMicrosPerMillion
  {
    var m := 1_000_000.0;
    var exact := ExactCost(Some(p), Count.Finite(prompt as real * m), Count.Finite(output as real * m));
    var whole: int := prompt * p.inputMicrosPerMillion + output * p.outputMicrosPerMillion;
    OneSide(prompt, p.inputMicrosPerMillion);
    OneSide(output, p.outputMicrosPerMillion);
    assert exact == whole as real;
  }

  lemma OneSide(millions: nat, rate: nat)
    ensures SideCost(Count.Finite(millions as real * 1_000_000.0), rate) == (millions * rate) as real
  {
    var n, r := millions as real, rate as real;
    assert (n * 1_000_000.0) * r / 1_000_000.0 == n * r;
  }

  /** A count that is no number, infinite or negative counts as none. */
  lemma MalformedCountsAreFree(pricing: Option<ModelPricing>, bad: Count, good: Count)
    requires !bad.Finite? || bad.value < 0.0
    ensures CostMicrosOf(pricing, bad, good) == CostMicrosOf(pricing, Count.Finite(0.0), good)
    ensures CostMicrosOf(pricing, good, bad) == CostMicrosOf(pricing, good, Count.Finite(0.0))
    ensures CostMicrosOf(None, good, bad) == 0
  {
    hide Round, SideCost;
    forall rate
      ensures SideCost(bad, rate) == SideCost(Count.Finite(0.0), rate)
    {
      SameShare(bad, Count.Finite(0.0), rate);
    }
  }

  lemma SameShare(n: Count, m: Count, rate: nat)
    requires UsableCount(n) == UsableCount(m)
    ensures SideCost(n, rate) == SideCost(m, rate)
  {
  }

  /** A cost is a non-negative whole number within half a micro of what was consumed, halves rounded up. */
  lemma CostIsRounded(pricing: Option<ModelPricing>, promptTokens: Count, outputTokens: Count)
    ensures CostMicrosOf(pricing, promptTokens, outputTokens) >= 0
    ensures var exact := ExactCost(pricing, promptTokens, outputTokens);
            -0.5 < CostMicrosOf(pricing, promptTokens, outputTokens) as real - exact <= 0.5
  {
  }

  lemma RoundIsMonotone(x: real, y: real)
    requires x <= y
    ensures Round(x) <= Round(y)
  {
  }

  /** More tokens never cost less. */
  lemma CostIsMonotone(pricing: Option<ModelPricing>, p: Count, q: Count, p': Count, q': Count)
    requires UsableCount(p) <= UsableCount(p') && UsableCount(q) <= UsableCount(q')
    ensures CostMicrosOf(pricing, p, q) <= CostMicrosOf(pricing, p', q')
  {
    if pricing.Some? {
      SideCostIsMonotone(p, p', pricing.value.inputMicrosPerMillion);
      SideCostIsMonotone(q, q', pricing.value.outputMicrosPerMillion);
      RoundIsMonotone(ExactCost(pricing, p, q), ExactCost(pricing, p', q'));
    }
  }

  /** The `reportedUsage` guard never changes a cost: what it zeroes was zero. */
  lemma GuardChangesNothing(pricing: Option<ModelPricing>, promptTokens: Count, outputTokens: Count)
    ensures !ReportedUsage(promptTokens, outputTokens) ==> CostMicrosOf(pricing, promptTokens, outputTokens) == 0
  {
  }
}
