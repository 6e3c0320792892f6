/**
 * Consumption drift (`ai-executor/src/drift.ts`): samples grouped by capability, the median of each
 * group against its declaration, worst ratio first. Token counts are real numbers, so halves of
 * even-sized groups are exact.
 */
module Drift {
  import opened Results
  import opened Sorting

  datatype Sample = Sample(capabilityId: string, estimatedTokens: real, actualTokens: real)

  datatype Direction = Overshoot | Undershoot

  /** The ratio of a zero declaration is infinite. */
  datatype Ratio = Infinite | Finite(value: real)

  datatype CapabilityDrift = CapabilityDrift(
    capabilityId: string, declaredTokens: real, medianActualTokens: real, ratio: Ratio, samples: nat,
    direction: Direction)

  datatype DriftOptions = DriftOptions(minSamples: nat, overshootRatio: real, undershootRatio: real)

  // ---- The median ----------------------------------------------------------------------------

  predicate AtMost(a: real, b: real) { a <= b }

  function Middle(sorted: seq<real>): real {
    var middle := |sorted| / 2;
    if sorted == [] then 0.0
    else if |sorted| % 2 == 1 then sorted[middle]
    else (sorted[middle - 1] + sorted[middle]) / 2.0
  }

  function Median(values: seq<real>): real { Middle(Sort(values, AtMost)) }

  /** The values on one side of a bound, without it or with it. */
  datatype Cut = Under(bound: real) | UpTo(bound: real)

  predicate Within(cut: Cut, x: real) {
    match cut
    case Under(bound) => x < bound
    case UpTo(bound) => x <= bound
  }

  function Count(values: seq<real>, cut: Cut): nat {
    if values == [] then 0 else Count(values[1..], cut) + if Within(cut, values[0]) then 1 else 0
  }

  lemma {:induction false} CountInsert(x: real, xs: seq<real>, cut: Cut)
    ensures Count(Insert(x, xs, AtMost), cut) == Count(xs, cut) + if Within(cut, x) then 1 else 0
  {
    if !(xs == [] || AtMost(x, xs[0])) {
      CountInsert(x, xs[1..], cut);
    }
  }

  lemma {:induction false} CountSort(values: seq<real>, cut: Cut)
    ensures Count(Sort(values, AtMost), cut) == Count(values, cut)
  {
    if values != [] {
      CountSort(values[1..], cut);
      CountInsert(values[0], Sort(values[1..], AtMost), cut);
    }
  }

  /** In a sorted sequence the values within a cut are the first ones. */
  lemma {:induction false} CountIsPrefix(sorted: seq<real>, cut: Cut, i: nat)
    requires SortedBy(sorted, AtMost) && i < |sorted|
    ensures Count(sorted, cut) <= |sorted|
    ensures Within(cut, sorted[i]) <==> i < Count(sorted, cut)
  {
    if i > 0 {
      CountIsPrefix(sorted[1..], cut, i - 1);
      assert AtMost(sorted[0], sorted[i]);
      if !Within(cut, sorted[0]) {
        NothingWithin(sorted, cut);
      }
    } else if !Within(cut, sorted[0]) {
      NothingWithin(sorted, cut);
    } else {
      CountAtMostAll(sorted[1..], cut);
    }
  }

  lemma {:induction false} CountAtMostAll(values: seq<real>, cut: Cut)
    ensures Count(values, cut) <= |values|
  {
    if values != [] {
      CountAtMostAll(values[1..], cut);
    }
  }

  lemma {:induction false} NothingWithin(sorted: seq<real>, cut: Cut)
    requires SortedBy(sorted, AtMost) && (sorted != [] ==> !Within(cut, sorted[0]))
    ensures Count(sorted, cut) == 0
  {
    if |sorted| > 1 {
      assert AtMost(sorted[0], sorted[1]);
      NothingWithin(sorted[1..], cut);
    }
  }

  lemma SortedMedian(values: seq<real>, cut: Cut)
    ensures var sorted := Sort(values, AtMost);
            && |sorted| == |values| && SortedBy(sorted, AtMost) && Count(sorted, cut) == Count(values, cut)
  {
    assert Ordering(AtMost);
    SortSorts(values, AtMost);
    SortPermutes(values, AtMost);
    CountSort(values, cut);
  }

  /** If more than half of the values lie within a cut, the median does. */
  lemma MajorityWithin(values: seq<real>, cut: Cut)
    requires 2 * Count(values, cut) > |values|
    ensures Within(cut, Median(values))
  {
    SortedMedian(values, cut);
    var sorted, middle := Sort(values, AtMost), |values| / 2;
    CountAtMostAll(values, cut);
    CountIsPrefix(sorted, cut, middle);
    if middle > 0 {
      CountIsPrefix(sorted, cut, middle - 1);
    }
  }

  /** If more than half of the values lie beyond a cut, the median does. */
  lemma MajorityBeyond(values: seq<real>, cut: Cut)
    requires 2 * (|values| - Count(values, cut)) > |values|
    ensures !Within(cut, Median(values))
  {
    SortedMedian(values, cut);
    var sorted, middle := Sort(values, AtMost), |values| / 2;
    CountIsPrefix(sorted, cut, middle);
    if middle > 0 {
      CountIsPrefix(sorted, cut, middle - 1);
    }
  }

  /** The median does not depend on the order of the samples. */
  lemma MedianIgnoresOrder(a: seq<real>, b: seq<real>)
    requires multiset(a) == multiset(b)
    ensures Median(a) == Median(b)
  {
    SortPermutes(a, AtMost);
    SortPermutes(b, AtMost);
    assert Ordering(AtMost);
    SortSorts(a, AtMost);
    SortSorts(b, AtMost);
    SortedIsUnique(Sort(a, AtMost), Sort(b, AtMost));
  }

  /** The first of a sorted sequence is its least element. */
  lemma HeadIsLeast(a: seq<real>, x: real)
    requires SortedBy(a, AtMost) && x in multiset(a)
    ensures a != [] && a[0] <= x
  {
  }

  lemma TailOf(a: seq<real>)
    requires a != []
    ensures a[0] in multiset(a) && multiset(a[1..]) == multiset(a) - multiset{a[0]}
  {
    assert a == [a[0]] + a[1..];
  }

  lemma {:induction false} SortedIsUnique(a: seq<real>, b: seq<real>)
    requires multiset(a) == multiset(b) && SortedBy(a, AtMost) && SortedBy(b, AtMost)
    ensures a == b
    decreases |a|
  {
    assert |a| == |multiset(a)| == |multiset(b)| == |b|;
    if a != [] {
      TailOf(a);
      TailOf(b);
      HeadIsLeast(a, b[0]);
      HeadIsLeast(b, a[0]);
      SortedIsUnique(a[1..], b[1..]);
    }
  }

  /** The middle value of the sorted ones, or the mean of the two middle ones. */
  lemma MedianIsMiddle(values: seq<real>, sorted: seq<real>)
    requires multiset(values) == multiset(sorted) && SortedBy(sorted, AtMost)
    ensures var n := |sorted|;
            && (n == 0 ==> Median(values) == 0.0)
            && (n % 2 == 1 ==> Median(values) == sorted[n / 2])
            && (n > 0 && n % 2 == 0 ==> 2.0 * Median(values) == sorted[n / 2 - 1] + sorted[n / 2])
  {
    SortPermutes(values, AtMost);
    assert Ordering(AtMost);
    SortSorts(values, AtMost);
    SortedIsUnique(Sort(values, AtMost), sorted);
  }

  // ---- Grouping ------------------------------------------------------------------------------

  /** The samples of one capability, in the order they came. */
  function BucketOf(samples: seq<Sample>, id: string): seq<Sample> {
    if samples == [] then []
    else
      var last := samples[|samples| - 1];
      BucketOf(samples[..|samples| - 1], id) + if last.capabilityId == id then [last] else []
  }

  function Actuals(bucket: seq<Sample>): seq<real> {
    seq(|bucket|, i requires 0 <= i < |bucket| => bucket[i].actualTokens)
  }

  /** The map of buckets with its keys in insertion order, as a JavaScript Map iterates. */
  ghost predicate Grouped(samples: seq<Sample>, ids: seq<string>, byCapability: map<string, seq<Sample>>) {
    && (forall i, j | 0 <= i < j < |ids| :: ids[i] != ids[j])
    && (forall id :: id in ids <==> id in byCapability)
    && (forall id :: id in byCapability <==> BucketOf(samples, id) != [])
    && (forall id | id in byCapability :: byCapability[id] == BucketOf(samples, id))
  }

  lemma BucketStep(samples: seq<Sample>, s: Sample, id: string)
    ensures BucketOf(samples + [s], id) == BucketOf(samples, id) + if s.capabilityId == id then [s] else []
  {
    assert (samples + [s])[..|samples|] == samples;
  }

  lemma GroupStep(samples: seq<Sample>, s: Sample, ids: seq<string>, byCapability: map<string, seq<Sample>>)
    requires Grouped(samples, ids, byCapability)
    ensures var known := s.capabilityId in byCapability;
            Grouped(samples + [s], if known then ids else ids + [s.capabilityId],
                    byCapability[s.capabilityId := (if known then byCapability[s.capabilityId] else []) + [s]])
  {
    hide BucketOf;
    forall id
      ensures BucketOf(samples + [s], id) == BucketOf(samples, id) + if s.capabilityId == id then [s] else []
    {
      BucketStep(samples, s, id);
    }
  }

  method Group(samples: seq<Sample>) returns (ids: seq<string>, byCapability: map<string, seq<Sample>>)
    ensures Grouped(samples, ids, byCapability)
  {
    hide Grouped, BucketOf;
    NothingGrouped();
    ids, byCapability := [], map[];
    for k := 0 to |samples|
      invariant Grouped(samples[..k], ids, byCapability)
    {
      var sample := samples[k];
      GroupStep(samples[..k], sample, ids, byCapability);
      assert samples[..k + 1] == samples[..k] + [sample];
      if sample.capabilityId in byCapability {
        byCapability := byCapability[sample.capabilityId := byCapability[sample.capabilityId] + [sample]];
      } else {
        assert [] + [sample] == [sample];
        ids := ids + [sample.capabilityId];
        byCapability := byCapability[sample.capabilityId := [sample]];
      }
    }
    assert samples[..|samples|] == samples;
  }

  lemma NothingGrouped()
    ensures Grouped([], [], map[])
  {
  }

  // ---- Drift ---------------------------------------------------------------------------------

  /** What one group amounts to, if it is worth reporting. */
  function DriftOf(id: string, bucket: seq<Sample>, options: DriftOptions): Option<CapabilityDrift>
    requires bucket != []
  {
    var declared, median := bucket[0].estimatedTokens, Median(Actuals(bucket));
    if |bucket| < options.minSamples then None
    else if declared == 0.0 then
      if median > 0.0 then Some(CapabilityDrift(id, 0.0, median, Infinite, |bucket|, Overshoot)) else None
    else
      var ratio := median / declared;
      if ratio >= options.overshootRatio then
        Some(CapabilityDrift(id, declared, median, Finite(ratio), |bucket|, Overshoot))
      else if ratio <= options.undershootRatio then
        Some(CapabilityDrift(id, declared, median, Finite(ratio), |bucket|, Undershoot))
      else None
  }

  /** `b.ratio - a.ratio` does not put `b` first; two infinities compare as equal. */
  predicate WorstFirst(a: CapabilityDrift, b: CapabilityDrift) {
    a.ratio.Infinite? || (b.ratio.Finite? && a.ratio.value >= b.ratio.value)
  }

  /** The drifts of the first groups, in group order. */
  ghost predicate Reports(samples: seq<Sample>, ids: seq<string>, drifts: seq<CapabilityDrift>, options: DriftOptions) {
    && (forall d | d in drifts :: d.capabilityId in ids && BucketOf(samples, d.capabilityId) != []
                                  && DriftOf(d.capabilityId, BucketOf(samples, d.capabilityId), options) == Some(d))
    && (forall id | id in ids && BucketOf(samples, id) != [] ::
          DriftOf(id, BucketOf(samples, id), options).Some? ==>
            DriftOf(id, BucketOf(samples, id), options).value in drifts)
    && (forall i, j | 0 <= i < j < |drifts| :: drifts[i].capabilityId != drifts[j].capabilityId)
  }

  /** Exactly the capabilities whose group drifted, each once, worst ratio first. */
  ghost predicate IsReport(samples: seq<Sample>, options: DriftOptions, drifts: seq<CapabilityDrift>) {
    && (forall d | d in drifts ::
          && BucketOf(samples, d.capabilityId) != []
          && DriftOf(d.capabilityId, BucketOf(samples, d.capabilityId), options) == Some(d))
    && (forall id | BucketOf(samples, id) != [] && DriftOf(id, BucketOf(samples, id), options).Some? ::
          DriftOf(id, BucketOf(samples, id), options).value in drifts)
    && (forall i, j | 0 <= i < j < |drifts| :: drifts[i].capabilityId != drifts[j].capabilityId)
    && SortedBy(drifts, WorstFirst)
  }

  method ComputeDrift(samples: seq<Sample>, options: DriftOptions) returns (drifts: seq<CapabilityDrift>)
    ensures IsReport(samples, options, drifts)
  {
    hide DriftOf, BucketOf, Reports, IsReport, Sort;
    var ids, byCapability := Group(samples);
    drifts := [];
    NothingReported(samples, options);
    for k := 0 to |ids|
      invariant Reports(samples, ids[..k], drifts, options)
    {
      var id := ids[k];
      assert id in ids && ids[..k + 1] == ids[..k] + [id];
      var drift := DriftOf(id, byCapability[id], options);
      ReportStep(samples, ids[..k], id, drifts, options);
      if drift.Some? {
        drifts := drifts + [drift.value];
      }
    }
    assert ids[..|ids|] == ids;
    SortedIsReport(samples, ids, byCapability, drifts, options);
    drifts := Sort(drifts, WorstFirst);
  }

  lemma NothingReported(samples: seq<Sample>, options: DriftOptions)
    ensures Reports(samples, [], [], options)
  {
  }

  lemma SortedIsReport(samples: seq<Sample>, ids: seq<string>, byCapability: map<string, seq<Sample>>,
                       drifts: seq<CapabilityDrift>, options: DriftOptions)
    requires Grouped(samples, ids, byCapability) && Reports(samples, ids, drifts, options)
    ensures IsReport(samples, options, Sort(drifts, WorstFirst))
  {
    hide DriftOf, BucketOf, Sort;
    WorstFirstIsOrdering();
    SortSorts(drifts, WorstFirst);
    SortSameElements(drifts, WorstFirst);
    SortKeepsDistinct(drifts);
  }

  lemma WorstFirstIsOrdering()
    ensures Ordering(WorstFirst)
  {
  }

  lemma ReportStep(samples: seq<Sample>, ids: seq<string>, id: string, drifts: seq<CapabilityDrift>,
                   options: DriftOptions)
    requires Reports(samples, ids, drifts, options) && id !in ids && BucketOf(samples, id) != []
    ensures var drift := DriftOf(id, BucketOf(samples, id), options);
            Reports(samples, ids + [id], if drift.Some? then drifts + [drift.value] else drifts, options)
  {
    hide DriftOf;
    DriftNames(id, BucketOf(samples, id), options);
  }

  lemma DriftNames(id: string, bucket: seq<Sample>, options: DriftOptions)
    requires bucket != []
    ensures DriftOf(id, bucket, options).Some? ==> DriftOf(id, bucket, options).value.capabilityId == id
  {
  }

  lemma {:induction false} InsertKeepsDistinct(d: CapabilityDrift, drifts: seq<CapabilityDrift>)
    requires forall e | e in drifts :: e.capabilityId != d.capabilityId
    requires forall i, j | 0 <= i < j < |drifts| :: drifts[i].capabilityId != drifts[j].capabilityId
    ensures forall i, j | 0 <= i < j < |Insert(d, drifts, WorstFirst)| ::
              Insert(d, drifts, WorstFirst)[i].capabilityId != Insert(d, drifts, WorstFirst)[j].capabilityId
  {
    if !(drifts == [] || WorstFirst(d, drifts[0])) {
      InsertKeepsDistinct(d, drifts[1..]);
      InsertPermutes(d, drifts[1..], WorstFirst);
      var rest := Insert(d, drifts[1..], WorstFirst);
      forall j | 0 <= j < |rest|
        ensures rest[j].capabilityId != drifts[0].capabilityId
      {
        assert rest[j] in multiset(rest);
        assert rest[j] == d || rest[j] in drifts[1..];
      }
    }
  }

  lemma {:induction false} SortKeepsDistinct(drifts: seq<CapabilityDrift>)
    requires forall i, j | 0 <= i < j < |drifts| :: drifts[i].capabilityId != drifts[j].capabilityId
    ensures forall i, j | 0 <= i < j < |Sort(drifts, WorstFirst)| ::
              Sort(drifts, WorstFirst)[i].capabilityId != Sort(drifts, WorstFirst)[j].capabilityId
  {
    if drifts != [] {
      SortKeepsDistinct(drifts[1..]);
      SortSameElements(drifts[1..], WorstFirst);
      InsertKeepsDistinct(drifts[0], Sort(drifts[1..], WorstFirst));
    }
  }

  // ---- What a report means -------------------------------------------------------------------

  /** The report has an entry for the capability, in that direction. */
  ghost predicate IsReported(drifts: seq<CapabilityDrift>, id: string, direction: Direction) {
    exists d :: d in drifts && d.capabilityId == id && d.direction == direction
  }

  /** An entry is there exactly when the capability's group drifted that way. */
  lemma ReportedIffDrifted(samples: seq<Sample>, options: DriftOptions, drifts: seq<CapabilityDrift>, id: string,
                           direction: Direction)
    requires IsReport(samples, options, drifts)
    ensures IsReported(drifts, id, direction) <==>
            && BucketOf(samples, id) != []
            && DriftOf(id, BucketOf(samples, id), options).Some?
            && DriftOf(id, BucketOf(samples, id), options).value.direction == direction
  {
    hide DriftOf, BucketOf;
    if BucketOf(samples, id) != [] {
      DriftNames(id, BucketOf(samples, id), options);
    }
  }

  /** The medians from which on overshoot, and up to which undershoot, is reported. */
  function UpperBound(options: DriftOptions, declared: real): real { options.overshootRatio * declared }

  function LowerBound(options: DriftOptions, declared: real): real { options.undershootRatio * declared }

  lemma RatioAgainst(median: real, declared: real, bound: real)
    requires declared > 0.0
    ensures median / declared >= bound <==> median >= bound * declared
    ensures median / declared <= bound <==> median <= bound * declared
  {
  }

  /** Against a positive declaration the medians of the reported groups are the ones out of bounds. */
  lemma ReportedIsMedian(samples: seq<Sample>, options: DriftOptions, drifts: seq<CapabilityDrift>, id: string)
    requires IsReport(samples, options, drifts)
    requires BucketOf(samples, id) != [] && BucketOf(samples, id)[0].estimatedTokens > 0.0
    ensures var bucket := BucketOf(samples, id);
            var median, declared := Median(Actuals(bucket)), bucket[0].estimatedTokens;
            && (IsReported(drifts, id, Overshoot) <==>
                  |bucket| >= options.minSamples && median >= UpperBound(options, declared))
            && (IsReported(drifts, id, Undershoot) <==>
                  && |bucket| >= options.minSamples
                  && median < UpperBound(options, declared) && median <= LowerBound(options, declared))
  {
    hide BucketOf, IsReport, IsReported, Median;
    var bucket := BucketOf(samples, id);
    ReportedIffDrifted(samples, options, drifts, id, Overshoot);
    ReportedIffDrifted(samples, options, drifts, id, Undershoot);
    RatioAgainst(Median(Actuals(bucket)), bucket[0].estimatedTokens, options.overshootRatio);
    RatioAgainst(Median(Actuals(bucket)), bucket[0].estimatedTokens, options.undershootRatio);
  }

  /**
   * Against a positive declaration and with enough samples majorities decide: a minority of outliers,
   * however large, neither raises nor silences an entry. For undershoot the median must stay below
   * the upper bound as well, which the lower bound gives when the two ratios are in order.
   */
  lemma MajorityDecides(samples: seq<Sample>, options: DriftOptions, drifts: seq<CapabilityDrift>, id: string)
    requires IsReport(samples, options, drifts)
    requires var bucket := BucketOf(samples, id);
             bucket != [] && bucket[0].estimatedTokens > 0.0 && |bucket| >= options.minSamples
    ensures var bucket := BucketOf(samples, id);
            var n, values, declared := |bucket|, Actuals(bucket), bucket[0].estimatedTokens;
            var below := Count(values, Under(UpperBound(options, declared)));
            var atMost := Count(values, UpTo(LowerBound(options, declared)));
            && (2 * below > n ==> !IsReported(drifts, id, Overshoot))
            && (2 * (n - below) > n ==> IsReported(drifts, id, Overshoot))
            && (2 * (n - atMost) > n ==> !IsReported(drifts, id, Undershoot))
            && (2 * atMost > n && 2 * below > n ==> IsReported(drifts, id, Undershoot))
            && (2 * atMost > n && options.undershootRatio < options.overshootRatio ==>
                  IsReported(drifts, id, Undershoot))
  {
    hide BucketOf, IsReport, IsReported, Median, Count, UpperBound, LowerBound;
    var bucket := BucketOf(samples, id);
    var values, declared := Actuals(bucket), bucket[0].estimatedTokens;
    ReportedIsMedian(samples, options, drifts, id);
    BoundsInOrder(options, declared);
    MedianFollows(values, Under(UpperBound(options, declared)));
    MedianFollows(values, UpTo(LowerBound(options, declared)));
  }

  lemma BoundsInOrder(options: DriftOptions, declared: real)
    requires declared > 0.0
    ensures options.undershootRatio < options.overshootRatio ==>
              LowerBound(options, declared) < UpperBound(options, declared)
  {
  }

  lemma MedianFollows(values: seq<real>, cut: Cut)
    ensures 2 * Count(values, cut) > |values| ==> Within(cut, Median(values))
    ensures 2 * (|values| - Count(values, cut)) > |values| ==> !Within(cut, Median(values))
  {
    if 2 * Count(values, cut) > |values| {
      MajorityWithin(values, cut);
    }
    if 2 * (|values| - Count(values, cut)) > |values| {
      MajorityBeyond(values, cut);
    }
  }

  /**
   * A capability that declared zero tokens has an entry exactly when its median is positive, so when
   * more than half of its executions consumed something, and the entry precedes all finite ratios.
   */
  lemma ZeroReported(samples: seq<Sample>, options: DriftOptions, drifts: seq<CapabilityDrift>, id: string)
    requires IsReport(samples, options, drifts)
    requires var bucket := BucketOf(samples, id);
             bucket != [] && bucket[0].estimatedTokens == 0.0 && |bucket| >= options.minSamples
    ensures var n, values := |BucketOf(samples, id)|, Actuals(BucketOf(samples, id));
            && (IsReported(drifts, id, Overshoot) <==> Median(values) > 0.0)
            && !IsReported(drifts, id, Undershoot)
            && (2 * (n - Count(values, UpTo(0.0))) > n ==> IsReported(drifts, id, Overshoot))
            && (2 * Count(values, UpTo(0.0)) > n ==> !IsReported(drifts, id, Overshoot))
    ensures forall i, j | 0 <= i < |drifts| && 0 <= j < |drifts|
                          && drifts[i].capabilityId == id && drifts[j].ratio.Finite? ::
              i < j
  {
    hide BucketOf, IsReported, Median, Count;
    ReportedIffDrifted(samples, options, drifts, id, Overshoot);
    ReportedIffDrifted(samples, options, drifts, id, Undershoot);
    MedianFollows(Actuals(BucketOf(samples, id)), UpTo(0.0));
    forall i, j | 0 <= i < |drifts| && 0 <= j < |drifts| && drifts[i].capabilityId == id && drifts[j].ratio.Finite?
      ensures i < j
    {
      assert drifts[i] in drifts && drifts[i].ratio.Infinite?;
    }
  }

  /** The samples of a capability, each by itself, in the order they came. */
  lemma {:induction false} BucketConcat(samples: seq<Sample>, more: seq<Sample>, id: string)
    ensures BucketOf(samples + more, id) == BucketOf(samples, id) + BucketOf(more, id)
    ensures |samples| == 1 ==> BucketOf(samples, id) == if samples[0].capabilityId == id then samples else []
    decreases |more|
  {
    if |samples| == 1 {
      assert BucketOf(samples[..0], id) == [] && samples == [samples[0]];
    }
    if more == [] {
      assert samples + more == samples;
    } else {
      var before := more[..|more| - 1];
      BucketConcat(samples, before, id);
      assert (samples + more)[..|samples + more| - 1] == samples + before;
    }
  }

  /** Where the samples of a capability are. */
  function Places(samples: seq<Sample>, id: string): set<nat> {
    set i | 0 <= i < |samples| && samples[i].capabilityId == id
  }

  lemma PlacesStep(samples: seq<Sample>, s: Sample, id: string)
    ensures Places(samples + [s], id) == Places(samples, id) + if s.capabilityId == id then {|samples|} else {}
  {
    var all := samples + [s];
    assert forall i | 0 <= i < |samples| :: all[i] == samples[i];
  }

  lemma {:induction false} BucketSize(samples: seq<Sample>, id: string)
    ensures |BucketOf(samples, id)| == |Places(samples, id)|
    decreases |samples|
  {
    if samples == [] {
      assert Places(samples, id) == {};
    } else {
      var before, last := samples[..|samples| - 1], samples[|samples| - 1];
      BucketSize(before, id);
      PlacesStep(before, last, id);
      assert samples == before + [last] && |before| !in Places(before, id);
    }
  }

  /** The first sample of a capability is at `i`. */
  ghost predicate IsFirst(samples: seq<Sample>, id: string, i: nat) {
    && i < |samples| && samples[i].capabilityId == id
    && forall j | 0 <= j < i :: samples[j].capabilityId != id
  }

  lemma {:induction false} BucketFirst(samples: seq<Sample>, id: string) returns (i: nat)
    requires BucketOf(samples, id) != []
    ensures IsFirst(samples, id, i) && BucketOf(samples, id)[0] == samples[i]
    decreases |samples|
  {
    var before, last := samples[..|samples| - 1], |samples| - 1;
    if BucketOf(before, id) != [] {
      i := BucketFirst(before, id);
    } else {
      i := last;
      BucketSize(before, id);
      forall j | 0 <= j < last
        ensures samples[j].capabilityId != id
      {
        assert Places(before, id) == {};
        assert before[j].capabilityId == id ==> j in Places(before, id);
      }
    }
  }

  /**
   * What an entry states: the declaration of the capability's first sample, how many samples it has,
   * their median, and the ratio of the two, infinite against a declaration of zero.
   */
  lemma EntryIsTrue(samples: seq<Sample>, options: DriftOptions, drifts: seq<CapabilityDrift>, d: CapabilityDrift)
    requires IsReport(samples, options, drifts) && d in drifts
    ensures exists i: nat :: IsFirst(samples, d.capabilityId, i) && d.declaredTokens == samples[i].estimatedTokens
    ensures d.samples == |Places(samples, d.capabilityId)|
    ensures d.samples >= options.minSamples
    ensures d.medianActualTokens == Median(Actuals(BucketOf(samples, d.capabilityId)))
    ensures if d.declaredTokens == 0.0 then d.ratio.Infinite? && d.medianActualTokens > 0.0
            else d.ratio.Finite? && d.ratio.value * d.declaredTokens == d.medianActualTokens
  {
    hide Median, BucketOf;
    var first := BucketFirst(samples, d.capabilityId);
    BucketSize(samples, d.capabilityId);
    var bucket := BucketOf(samples, d.capabilityId);
    assert DriftOf(d.capabilityId, bucket, options) == Some(d);
    RatioTimes(Median(Actuals(bucket)), bucket[0].estimatedTokens);
  }

  /** Infinite ratios come first, and then the finite ones fall. */
  lemma ReportFalls(samples: seq<Sample>, options: DriftOptions, drifts: seq<CapabilityDrift>, i: nat, j: nat)
    requires IsReport(samples, options, drifts) && i < j < |drifts|
    ensures drifts[j].ratio.Infinite? ==> drifts[i].ratio.Infinite?
    ensures drifts[i].ratio.Finite? && drifts[j].ratio.Finite? ==> drifts[i].ratio.value >= drifts[j].ratio.value
  {
    hide BucketOf, DriftOf;
    assert WorstFirst(drifts[i], drifts[j]);
  }

  lemma RatioTimes(median: real, declared: real)
    ensures declared != 0.0 ==> median / declared * declared == median
  {
  }
}
