/**
 * Sampling-interval statistics: the gaps between consecutive samples of a
 * thread (computeTimeDiffs) and the summary computed over all of them
 * (computedInterval). Gaps are exact integers.
 */
module Intervals {
  import opened Wrappers
  import opened JavaTypes
  import opened Folds
  import opened Samples
  import opened Sorting

  /** Comparator.comparingLong(TimeAndHash::timeNanos), as a key. */
  function TimeOf(r: TimeAndHash): int {
    r.timeNanos
  }

  /** The differences between the times of consecutive samples of one list. */
  function Gaps(recs: seq<TimeAndHash>): (g: seq<int>)
    ensures |g| == if |recs| == 0 then 0 else |recs| - 1
  {
    if |recs| == 0 then []
    else seq(|recs| - 1, i requires 0 <= i < |recs| - 1 => recs[i + 1].timeNanos - recs[i].timeNanos)
  }

  /** One more sample adds the gap between it and the one before. */
  lemma GapsPrefix(recs: seq<TimeAndHash>, i: nat)
    requires 1 <= i < |recs|
    ensures Gaps(recs[..i + 1]) == Gaps(recs[..i]) + [recs[i].timeNanos - recs[i - 1].timeNanos]
  {
  }

  /** In a list sorted by time no gap is negative. */
  lemma GapsNonneg(recs: seq<TimeAndHash>)
    requires SortedBy(recs, TimeOf)
    ensures forall i :: 0 <= i < |Gaps(recs)| ==> Gaps(recs)[i] >= 0
  {
    forall i | 0 <= i < |Gaps(recs)| ensures Gaps(recs)[i] >= 0 {
      assert TimeOf(recs[i]) <= TimeOf(recs[i + 1]);
    }
  }

  /** A thread takes part in the interval statistics when it has at least `minSamples` samples. */
  predicate Qualifies(data: ThreadData, t: string, minSamples: int)
    requires t in data
  {
    |data[t]| >= minSamples
  }

  /** The map after computeTimeDiffs: every qualifying thread's list sorted by time, in place. */
  function Resorted(data: ThreadData, minSamples: int): ThreadData {
    map t | t in data :: if Qualifies(data, t, minSamples) then SortBy(data[t], TimeOf) else data[t]
  }

  /**
   * Re-sorting keeps every thread, makes each qualifying list a sorted
   * permutation of itself, leaves the other lists alone and keeps the
   * number of samples.
   */
  lemma ResortedSpec(data: ThreadData, minSamples: int)
    ensures var r := Resorted(data, minSamples);
            && r.Keys == data.Keys
            && (forall t :: t in data && Qualifies(data, t, minSamples) ==>
                  SortedBy(r[t], TimeOf) && multiset(r[t]) == multiset(data[t]))
            && (forall t :: t in data && !Qualifies(data, t, minSamples) ==> r[t] == data[t])
            && TotalSamples(r) == TotalSamples(data)
  {
    assert Sizes(Resorted(data, minSamples)) == Sizes(data);
  }

  /**
   * The re-sort is stable: in every re-sorted list, the samples taken at the
   * same time keep the order they were added in.
   */
  lemma ResortedStable(data: ThreadData, minSamples: int, t: string, time: int)
    requires t in data
    ensures WithKey(Resorted(data, minSamples)[t], TimeOf, time) == WithKey(data[t], TimeOf, time)
  {
    if Qualifies(data, t, minSamples) {
      SortByStable(data[t], TimeOf, time);
    }
  }

  /** The gaps of one thread's list once it is sorted by time. */
  ghost function ThreadGaps(recs: seq<TimeAndHash>): (g: multiset<int>)
    ensures |g| == if |recs| == 0 then 0 else |recs| - 1
  {
    var sorted := SortBy(recs, TimeOf);
    assert |multiset(Gaps(sorted))| == |Gaps(sorted)|;
    multiset(Gaps(sorted))
  }

  ghost function GapMap(data: ThreadData, minSamples: int): map<string, multiset<int>> {
    map t | t in data && Qualifies(data, t, minSamples) :: ThreadGaps(data[t])
  }

  /** All gaps of all qualifying threads, each thread's list taken in time order. */
  ghost function GapBag(data: ThreadData, minSamples: int): multiset<int> {
    BagUnion(GapMap(data, minSamples))
  }

  /** The number of gaps a thread contributes: size - 1 if it qualifies and is not empty. */
  function GapCount(data: ThreadData, minSamples: int, t: string): int
    requires t in data
  {
    if Qualifies(data, t, minSamples) && |data[t]| > 0 then |data[t]| - 1 else 0
  }

  ghost function GapCounts(data: ThreadData, minSamples: int): map<string, int> {
    map t | t in data :: GapCount(data, minSamples, t)
  }

  lemma GapMapRemove(data: ThreadData, minSamples: int, t: string)
    ensures GapMap(data, minSamples) - {t} == GapMap(data - {t}, minSamples)
  {
  }

  lemma GapBagStep(data: ThreadData, minSamples: int, t: string)
    requires t in data
    ensures |GapBag(data, minSamples)| == GapCount(data, minSamples, t) + |GapBag(data - {t}, minSamples)|
  {
    var gm := GapMap(data, minSamples);
    GapMapRemove(data, minSamples, t);
    if t in gm {
      BagUnionRemove(gm, t);
    } else {
      assert gm - {t} == gm;
    }
  }

  lemma GapCountStep(data: ThreadData, minSamples: int, t: string)
    requires t in data
    ensures SumInt(GapCounts(data, minSamples)) == GapCount(data, minSamples, t) + SumInt(GapCounts(data - {t}, minSamples))
  {
    var gc := GapCounts(data, minSamples);
    SumIntRemove(gc, t);
    assert gc - {t} == GapCounts(data - {t}, minSamples);
  }

  /** The number of gaps: size - 1 for every non-empty qualifying thread. */
  lemma {:induction false} GapBagSize(data: ThreadData, minSamples: int)
    ensures |GapBag(data, minSamples)| == SumInt(GapCounts(data, minSamples))
    decreases |data|
  {
    if data == map[] {
      assert GapMap(data, minSamples) == map[] && GapCounts(data, minSamples) == map[];
    } else {
      var t :| t in data;
      GapBagStep(data, minSamples, t);
      GapCountStep(data, minSamples, t);
      GapBagSize(data - {t}, minSamples);
    }
  }

  /** Taking thread `t` out removes its gaps, if it qualifies. */
  lemma GapBagRemove(data: ThreadData, minSamples: int, t: string)
    requires t in data
    ensures GapBag(data, minSamples) ==
            (if Qualifies(data, t, minSamples) then ThreadGaps(data[t]) else multiset{}) +
            GapBag(data - {t}, minSamples)
  {
    var gm := GapMap(data, minSamples);
    GapMapRemove(data, minSamples, t);
    if Qualifies(data, t, minSamples) {
      BagUnionRemove(gm, t);
    } else {
      assert gm - {t} == gm;
    }
  }

  /** A loop over the threads still to visit: taking thread `t` out removes its gaps, if it qualifies. */
  lemma GapBagRestrictStep(data: ThreadData, minSamples: int, keys: set<string>, t: string)
    requires t in keys && t in data
    ensures GapBag(Restrict(data, keys), minSamples) ==
            (if Qualifies(data, t, minSamples) then ThreadGaps(data[t]) else multiset{}) +
            GapBag(Restrict(data, keys - {t}), minSamples)
  {
    var r := Restrict(data, keys);
    assert t in r && r[t] == data[t];
    GapBagRemove(r, minSamples, t);
    RestrictRemove(data, keys, t);
  }

  lemma GapBagEmpty(minSamples: int)
    ensures GapBag(map[], minSamples) == multiset{}
  {
    assert GapMap(map[], minSamples) == map[];
  }

  /** A loop over the threads still to visit: a thread that does not qualify adds no gap. */
  lemma GapBagSkip(data: ThreadData, minSamples: int, keys: set<string>, t: string, seen: multiset<int>)
    requires t in keys && t in data && !Qualifies(data, t, minSamples)
    requires seen + GapBag(Restrict(data, keys), minSamples) == GapBag(data, minSamples)
    ensures seen + GapBag(Restrict(data, keys - {t}), minSamples) == GapBag(data, minSamples)
  {
    GapBagRestrictStep(data, minSamples, keys, t);
  }

  /** A loop over the threads still to visit: a qualifying thread adds the gaps of its sorted list. */
  lemma GapBagTake(data: ThreadData, minSamples: int, keys: set<string>, t: string, diffs: seq<int>)
    requires t in keys && t in data && Qualifies(data, t, minSamples)
    requires multiset(diffs) + GapBag(Restrict(data, keys), minSamples) == GapBag(data, minSamples)
    ensures multiset(diffs + Gaps(SortBy(data[t], TimeOf))) + GapBag(Restrict(data, keys - {t}), minSamples) ==
            GapBag(data, minSamples)
  {
    GapBagRestrictStep(data, minSamples, keys, t);
  }

  /** Once no thread is left to visit, every gap has been seen. */
  lemma GapBagVisited(data: ThreadData, minSamples: int, seen: multiset<int>)
    requires seen + GapBag(Restrict(data, {}), minSamples) == GapBag(data, minSamples)
    ensures seen == GapBag(data, minSamples)
  {
    RestrictNone(data);
    GapBagEmpty(minSamples);
  }

  /** The map while computeTimeDiffs runs: the qualifying lists outside `pending` are sorted already. */
  function PartlyResorted(data: ThreadData, minSamples: int, pending: set<string>): ThreadData {
    map t | t in data :: if t !in pending && Qualifies(data, t, minSamples) then SortBy(data[t], TimeOf) else data[t]
  }

  lemma PartlyResortedStart(data: ThreadData, minSamples: int)
    ensures PartlyResorted(data, minSamples, data.Keys) == data
  {
  }

  lemma PartlyResortedDone(data: ThreadData, minSamples: int)
    ensures PartlyResorted(data, minSamples, {}) == Resorted(data, minSamples)
  {
  }

  /** Visiting a pending thread sorts its list if it qualifies and touches nothing else. */
  lemma PartlyResortedStep(data: ThreadData, minSamples: int, pending: set<string>, t: string)
    requires t in pending && t in data
    ensures PartlyResorted(data, minSamples, pending)[t] == data[t]
    ensures PartlyResorted(data, minSamples, pending - {t}) ==
            if Qualifies(data, t, minSamples)
            then PartlyResorted(data, minSamples, pending)[t := SortBy(data[t], TimeOf)]
            else PartlyResorted(data, minSamples, pending)
  {
  }

  /**
   * The state of computeTimeDiffs's loop over the threads of `data0` when
   * `pending` are still to visit: the visited qualifying lists are sorted
   * in place and `diffs` holds exactly their gaps.
   */
  ghost predicate Resorting(data0: ThreadData, minSamples: int, pending: set<string>, data: ThreadData, diffs: seq<int>) {
    && pending <= data0.Keys
    && data == PartlyResorted(data0, minSamples, pending)
    && multiset(diffs) + GapBag(Restrict(data0, pending), minSamples) == GapBag(data0, minSamples)
  }

  /** Before the loop nothing is visited. */
  lemma ResortingStart(data0: ThreadData, minSamples: int)
    ensures Resorting(data0, minSamples, data0.Keys, data0, [])
  {
    RestrictAll(data0);
    PartlyResortedStart(data0, minSamples);
  }

  /** One turn of the loop on a thread with too few samples: nothing changes. */
  lemma ResortSkip(data0: ThreadData, minSamples: int, pending: set<string>, t: string, data: ThreadData, diffs: seq<int>)
    requires t in pending && Resorting(data0, minSamples, pending, data, diffs)
    requires |data[t]| < minSamples
    ensures Resorting(data0, minSamples, pending - {t}, data, diffs)
  {
    PartlyResortedStep(data0, minSamples, pending, t);
    GapBagSkip(data0, minSamples, pending, t, multiset(diffs));
  }

  /**
   * One turn of the loop on a qualifying thread: its list is sorted in
   * place and the gaps of the sorted list are appended.
   */
  lemma ResortTake(data0: ThreadData, minSamples: int, pending: set<string>, t: string, data: ThreadData, diffs: seq<int>)
    requires t in pending && Resorting(data0, minSamples, pending, data, diffs)
    requires |data[t]| >= minSamples
    ensures t in data
    ensures Resorting(data0, minSamples, pending - {t}, data[t := SortBy(data[t], TimeOf)], diffs + Gaps(SortBy(data[t], TimeOf)))
  {
    PartlyResortedStep(data0, minSamples, pending, t);
    GapBagTake(data0, minSamples, pending, t, diffs);
  }

  /** After the loop every qualifying list is sorted and every gap collected. */
  lemma ResortingDone(data0: ThreadData, minSamples: int, data: ThreadData, diffs: seq<int>)
    requires Resorting(data0, minSamples, {}, data, diffs)
    ensures data == Resorted(data0, minSamples)
    ensures multiset(diffs) == GapBag(data0, minSamples)
  {
    PartlyResortedDone(data0, minSamples);
    GapBagVisited(data0, minSamples, multiset(diffs));
  }

  /** No gap is negative, since each list is sorted by time before its gaps are taken. */
  lemma GapBagNonneg(data: ThreadData, minSamples: int)
    ensures forall g :: g in GapBag(data, minSamples) ==> g >= 0
  {
    forall g | g in GapBag(data, minSamples) ensures g >= 0 {
      var t := BagUnionMember(GapMap(data, minSamples), g);
      var sorted := SortBy(data[t], TimeOf);
      GapsNonneg(sorted);
      assert g in multiset(Gaps(sorted));
      assert g in Gaps(sorted);
    }
  }

  function Sum(s: seq<int>): int {
    if |s| == 0 then 0 else s[0] + Sum(s[1..])
  }

  /** LongSummaryStatistics.getMin. */
  function SeqMin(s: seq<int>): (m: int)
    requires |s| > 0
    ensures forall i :: 0 <= i < |s| ==> m <= s[i]
    ensures m in s
  {
    if |s| == 1 then s[0]
    else
      var m := SeqMin(s[1..]);
      assert forall i :: 1 <= i < |s| ==> s[i] == s[1..][i - 1];
      if s[0] <= m then s[0] else m
  }

  /** LongSummaryStatistics.getMax. */
  function SeqMax(s: seq<int>): (m: int)
    requires |s| > 0
    ensures forall i :: 0 <= i < |s| ==> s[i] <= m
    ensures m in s
  {
    if |s| == 1 then s[0]
    else
      var m := SeqMax(s[1..]);
      assert forall i :: 1 <= i < |s| ==> s[i] == s[1..][i - 1];
      if s[0] >= m then s[0] else m
  }

  /** The (long) cast of a non-empty average: division truncated toward zero. */
  function TruncDiv(x: int, n: int): int
    requires n > 0
  {
    if x >= 0 then x / n else -((-x) / n)
  }

  lemma MulMono(n: int, a: int, b: int)
    requires n > 0 && a <= b
    ensures n * a <= n * b
  {
    assert n * b - n * a == n * (b - a);
  }

  lemma {:induction false} SumBounds(s: seq<int>, lo: int, hi: int)
    requires forall i :: 0 <= i < |s| ==> lo <= s[i] <= hi
    ensures |s| * lo <= Sum(s) <= |s| * hi
    decreases |s|
  {
    if |s| > 0 {
      SumBounds(s[1..], lo, hi);
      assert |s| * lo == (|s| - 1) * lo + lo;
      assert |s| * hi == (|s| - 1) * hi + hi;
    }
  }

  lemma FloorDivBounds(x: int, n: int, lo: int, hi: int)
    requires n > 0 && x >= 0 && n * lo <= x <= n * hi
    ensures lo <= x / n <= hi
  {
    var q, r := x / n, x % n;
    assert x == n * q + r && 0 <= r < n;
    if q < lo {
      MulMono(n, q + 1, lo);
    }
    if q > hi {
      MulMono(n, hi + 1, q);
    }
  }

  /** A truncated average of values in [lo, hi] lies in [lo, hi]. */
  lemma TruncDivBounds(x: int, n: int, lo: int, hi: int)
    requires n > 0 && n * lo <= x <= n * hi
    ensures lo <= TruncDiv(x, n) <= hi
  {
    if x >= 0 {
      FloorDivBounds(x, n, lo, hi);
    } else {
      assert n * (-hi) == -(n * hi) && n * (-lo) == -(n * lo);
      FloorDivBounds(-x, n, -hi, -lo);
    }
  }

  /** The average of a non-empty sequence lies between its minimum and its maximum. */
  lemma AverageBounds(s: seq<int>)
    requires |s| > 0
    ensures SeqMin(s) <= TruncDiv(Sum(s), |s|) <= SeqMax(s)
  {
    SumBounds(s, SeqMin(s), SeqMax(s));
    TruncDivBounds(Sum(s), |s|, SeqMin(s), SeqMax(s));
  }

  /** (int) (n * 0.1) and (int) (n * 0.9). */
  function TenPercIndex(n: nat): nat { n / 10 }
  function NinetyPercIndex(n: nat): nat { n * 9 / 10 }

  /** The percentile indices are ordered and, for a non-empty list, in range. */
  lemma PercentileIndices(n: nat)
    ensures TenPercIndex(n) <= NinetyPercIndex(n)
    ensures n > 0 ==> NinetyPercIndex(n) < n
  {
  }

  /** diffs.subList(tenPercNsIndex, ninetyPercNsIndex). */
  function Trimmed(sorted: seq<int>): (t: seq<int>)
    ensures |t| == NinetyPercIndex(|sorted|) - TenPercIndex(|sorted|)
    ensures forall i :: 0 <= i < |t| ==> t[i] in sorted
  {
    PercentileIndices(|sorted|);
    sorted[TenPercIndex(|sorted|)..NinetyPercIndex(|sorted|)]
  }

  /** LongSummaryStatistics.getAverage truncated to long: 0 for an empty list. */
  function Average(s: seq<int>): int {
    if |s| == 0 then 0 else TruncDiv(Sum(s), |s|)
  }

  /** The ComputedInterval record, without its two standard deviations. */
  datatype ComputedInterval = ComputedInterval(
    samples: int, avgNs: int, avgTrimmed: int,
    minNs: int, tenPercNs: int, ninetyPercNs: int, maxNs: int)

  /** The summary of the sorted gaps; diffs.get on an empty list throws. */
  function IntervalOf(samples: int, sorted: seq<int>): (r: Result<ComputedInterval, string>)
    ensures r.Err? <==> |sorted| == 0
  {
    if |sorted| == 0 then Err("Index 0 out of bounds for length 0")
    else
      PercentileIndices(|sorted|);
      Ok(ComputedInterval(
        samples, Average(sorted), Average(Trimmed(sorted)),
        SeqMin(sorted), sorted[TenPercIndex(|sorted|)], sorted[NinetyPercIndex(|sorted|)], SeqMax(sorted)))
  }

  lemma SortedMinMax(sorted: seq<int>)
    requires SortedBy(sorted, Identity) && |sorted| > 0
    ensures SeqMin(sorted) == sorted[0] && SeqMax(sorted) == sorted[|sorted| - 1]
  {
    assert Identity(sorted[0]) <= Identity(SeqMin(sorted));
    assert Identity(SeqMax(sorted)) <= Identity(sorted[|sorted| - 1]);
  }

  /**
   * Over sorted gaps: min <= 10th percentile <= 90th percentile <= max, the
   * average lies in [min, max], and so does the trimmed average unless the
   * trimmed slice is empty, where it is 0.
   */
  lemma IntervalSpec(samples: int, sorted: seq<int>)
    requires SortedBy(sorted, Identity) && |sorted| > 0
    ensures var v := IntervalOf(samples, sorted).value;
            && v.samples == samples
            && v.minNs == sorted[0] && v.maxNs == sorted[|sorted| - 1]
            && v.minNs <= v.tenPercNs <= v.ninetyPercNs <= v.maxNs
            && v.minNs <= v.avgNs <= v.maxNs
            && (|Trimmed(sorted)| > 0 ==> v.minNs <= v.avgTrimmed <= v.maxNs)
            && (|Trimmed(sorted)| == 0 ==> v.avgTrimmed == 0)
  {
    var n := |sorted|;
    PercentileIndices(n);
    SortedMinMax(sorted);
    AverageBounds(sorted);
    assert Identity(sorted[TenPercIndex(n)]) <= Identity(sorted[NinetyPercIndex(n)]);
    var t := Trimmed(sorted);
    if |t| > 0 {
      AverageBounds(t);
      var lo, hi := SeqMin(t), SeqMax(t);
      assert lo in sorted && hi in sorted;
    }
  }

  /**
   * The summary depends on the gaps only as a collection: whatever order the
   * map yields the threads in, the sorted gaps and so the result are the same.
   */
  lemma IntervalOrderIndependent(samples: int, g1: seq<int>, g2: seq<int>)
    requires SortedBy(g1, Identity) && SortedBy(g2, Identity)
    requires multiset(g1) == multiset(g2)
    ensures IntervalOf(samples, g1) == IntervalOf(samples, g2)
  {
    SortedUnique(g1, g2);
  }
}
