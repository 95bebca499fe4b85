/**
 * Fingerprint distributions (getAbsoluteHashDistribution,
 * getRelativeDistribution) and the divergence metric between two stores
 * (differencePercentagePoints). Hashes are compared by content, which is
 * what HashWrapper's equals and hashCode provide; a seq<Byte> map key has
 * exactly that equality. Frequencies are exact reals.
 */
module Distributions {
  import opened JavaTypes
  import opened Folds
  import opened Samples

  /** How often each element occurs in the bag. */
  function Counts<T>(bag: multiset<T>): map<T, int> {
    map h | h in bag :: bag[h]
  }

  /** The absolute distribution of a store: samples per hash, across all threads. */
  ghost function AbsoluteDistribution(data: ThreadData): map<seq<Byte>, int> {
    Counts(HashBag(data))
  }

  /** Counting one more element adds one to its count, creating it at 1. */
  lemma CountsAdd<T>(bag: multiset<T>, h: T)
    ensures Counts(bag + multiset{h}) == Counts(bag)[h := (if h in Counts(bag) then Counts(bag)[h] else 0) + 1]
  {
  }

  /** The counts add up to the size of the bag. */
  lemma {:induction false} CountsSum<T>(bag: multiset<T>)
    ensures SumInt(Counts(bag)) == |bag|
    decreases |bag|
  {
    if bag == multiset{} {
      assert Counts(bag) == map[];
    } else {
      var h :| h in bag;
      var rest := bag - multiset{h};
      assert bag == rest + multiset{h};
      CountsSum(rest);
      CountsAdd(rest, h);
      if h in Counts(rest) {
        SumIntRemove(Counts(rest), h);
        SumIntRemove(Counts(bag), h);
        assert Counts(bag) - {h} == Counts(rest) - {h};
      } else {
        SumIntInsert(Counts(rest), h, 1);
      }
    }
  }

  /** Every count is positive and the counts sum to the number of samples. */
  lemma AbsoluteDistributionSpec(data: ThreadData)
    ensures forall h :: h in AbsoluteDistribution(data) ==> AbsoluteDistribution(data)[h] > 0
    ensures SumInt(AbsoluteDistribution(data)) == TotalSamples(data)
  {
    CountsSum(HashBag(data));
    HashBagSize(data);
  }

  /** Relative frequencies: each count divided by the number of samples. */
  ghost function RelativeDistribution(data: ThreadData): map<seq<Byte>, real> {
    var counts := AbsoluteDistribution(data);
    var n := TotalSamples(data);
    if n == 0 then map[] else Scaled(counts, n)
  }

  function Scaled<K>(counts: map<K, int>, n: int): (r: map<K, real>)
    requires n != 0
    ensures r.Keys == counts.Keys
  {
    map h | h in counts :: counts[h] as real / n as real
  }

  lemma DivideSum(total: real, ck: real, rest: real, sumRest: real, sumAll: real, n: real)
    requires n != 0.0
    requires total == ck / n + rest && rest == sumRest / n && sumAll == ck + sumRest
    ensures total == sumAll / n
  {
  }

  lemma ZeroDivided(n: real)
    requires n != 0.0
    ensures 0.0 / n == 0.0
  {
  }

  /** Summing counts divided by n is summing the counts and dividing by n. */
  lemma {:induction false} ScaledSum<K>(counts: map<K, int>, n: int)
    requires n != 0
    ensures SumReal(Scaled(counts, n)) == SumInt(counts) as real / n as real
    decreases |counts|
  {
    if counts == map[] {
      assert Scaled(counts, n) == map[];
      assert SumInt(counts) == 0;
      ZeroDivided(n as real);
    } else {
      var k :| k in counts;
      var scaled, rest := Scaled(counts, n), counts - {k};
      SumIntRemove(counts, k);
      SumRealRemove(scaled, k);
      assert scaled - {k} == Scaled(rest, n);
      ScaledSum(rest, n);
      DivideSum(SumReal(scaled), counts[k] as real, SumReal(Scaled(rest, n)),
                SumInt(rest) as real, SumInt(counts) as real, n as real);
    }
  }

  /** The relative distribution is empty exactly for an empty store. */
  lemma RelativeEmpty(data: ThreadData)
    ensures RelativeDistribution(data) == map[] <==> TotalSamples(data) == 0
  {
    HashBagSize(data);
    if TotalSamples(data) != 0 {
      var h :| h in HashBag(data);
      assert h in RelativeDistribution(data);
    }
  }

  lemma FractionBounds(c: real, n: real)
    requires 0.0 < c <= n
    ensures 0.0 < c / n <= 1.0
    ensures n / n == 1.0
  {
  }

  /** Positive counts with sum n, divided by n, are frequencies in (0, 1] that sum to 1. */
  lemma ScaledFrequencies(counts: map<seq<Byte>, int>, n: int)
    requires n > 0 && SumInt(counts) == n
    requires forall h :: h in counts ==> counts[h] > 0
    ensures forall h :: h in Scaled(counts, n) ==> 0.0 < Scaled(counts, n)[h] <= 1.0
    ensures SumReal(Scaled(counts, n)) == 1.0
  {
    ScaledSum(counts, n);
    FractionBounds(n as real, n as real);
    forall h | h in counts ensures 0.0 < Scaled(counts, n)[h] <= 1.0 {
      SumIntRemove(counts, h);
      CountsNonneg(counts - {h});
      FractionBounds(counts[h] as real, n as real);
    }
  }

  /**
   * Relative frequencies are keyed like the absolute counts, lie in (0, 1]
   * and, for a non-empty store, sum to 1.
   */
  lemma RelativeDistributionSpec(data: ThreadData)
    ensures var rel := RelativeDistribution(data);
            && (TotalSamples(data) > 0 ==> rel.Keys == AbsoluteDistribution(data).Keys)
            && (forall h :: h in rel ==> 0.0 < rel[h] <= 1.0)
            && (TotalSamples(data) > 0 ==> SumReal(rel) == 1.0)
  {
    var n := TotalSamples(data);
    if n > 0 {
      AbsoluteDistributionSpec(data);
      ScaledFrequencies(AbsoluteDistribution(data), n);
    } else {
      TotalSamplesNonneg(data);
    }
  }

  lemma CountsNonneg(counts: map<seq<Byte>, int>)
    requires forall h :: h in counts ==> counts[h] > 0
    ensures SumInt(counts) >= 0
  {
    SumIntNonneg(counts);
  }

  /** The result of differencePercentagePoints. */
  datatype PercResult = PercResult(summedDiff: real, percThatIsntInOther: real)

  /** How much more frequent `h` is here than in the other distribution (absent counts as 0). */
  function Diff(a: map<seq<Byte>, real>, b: map<seq<Byte>, real>, h: seq<Byte>): real
    requires h in a
  {
    a[h] - (if h in b then b[h] else 0.0)
  }

  /** The term `h` adds to summedDiff: its positive difference. */
  function SurplusTerm(a: map<seq<Byte>, real>, b: map<seq<Byte>, real>, h: seq<Byte>): real
    requires h in a
  {
    if Diff(a, b, h) > 0.0 then Diff(a, b, h) else 0.0
  }

  /** The term `h` adds to percThatIsntInOther: its whole frequency when the difference is all of it. */
  function MissingTerm(a: map<seq<Byte>, real>, b: map<seq<Byte>, real>, h: seq<Byte>): real
    requires h in a
  {
    if Diff(a, b, h) == a[h] then a[h] else 0.0
  }

  ghost function SurplusTerms(a: map<seq<Byte>, real>, b: map<seq<Byte>, real>): map<seq<Byte>, real> {
    map h | h in a :: SurplusTerm(a, b, h)
  }

  ghost function MissingTerms(a: map<seq<Byte>, real>, b: map<seq<Byte>, real>): map<seq<Byte>, real> {
    map h | h in a :: MissingTerm(a, b, h)
  }

  /** The comparison of two relative distributions, both sums taken over this store's fingerprints. */
  ghost function Divergence(a: map<seq<Byte>, real>, b: map<seq<Byte>, real>): PercResult {
    PercResult(SumReal(SurplusTerms(a, b)), SumReal(MissingTerms(a, b)))
  }

  /**
   * The state of differencePercentagePoints's loop over the fingerprints of
   * `a` when `pending` are still to visit: `sum` and `perc` hold the terms
   * of the visited ones.
   */
  ghost predicate Comparing(a: map<seq<Byte>, real>, b: map<seq<Byte>, real>, pending: set<seq<Byte>>, sum: real, perc: real) {
    && pending <= a.Keys
    && sum + SumReal(Restrict(SurplusTerms(a, b), pending)) == SumReal(SurplusTerms(a, b))
    && perc + SumReal(Restrict(MissingTerms(a, b), pending)) == SumReal(MissingTerms(a, b))
  }

  /** Before the loop nothing is visited and both sums are zero. */
  lemma ComparingStart(a: map<seq<Byte>, real>, b: map<seq<Byte>, real>)
    ensures Comparing(a, b, a.Keys, 0.0, 0.0)
  {
    assert SurplusTerms(a, b).Keys == MissingTerms(a, b).Keys == a.Keys;
    RestrictAll(SurplusTerms(a, b));
    RestrictAll(MissingTerms(a, b));
  }

  /** Visiting one more fingerprint adds its two terms. */
  lemma ComparingStep(a: map<seq<Byte>, real>, b: map<seq<Byte>, real>, pending: set<seq<Byte>>, h: seq<Byte>, sum: real, perc: real)
    requires h in pending && Comparing(a, b, pending, sum, perc)
    ensures h in a
    ensures Comparing(a, b, pending - {h}, sum + SurplusTerm(a, b, h), perc + MissingTerm(a, b, h))
  {
    var surplus, missing := SurplusTerms(a, b), MissingTerms(a, b);
    SumRealRemove(Restrict(surplus, pending), h);
    SumRealRemove(Restrict(missing, pending), h);
    RestrictRemove(surplus, pending, h);
    RestrictRemove(missing, pending, h);
  }

  /** Once every fingerprint is visited the sums are the divergence. */
  lemma ComparingDone(a: map<seq<Byte>, real>, b: map<seq<Byte>, real>, sum: real, perc: real)
    requires Comparing(a, b, {}, sum, perc)
    ensures PercResult(sum, perc) == Divergence(a, b)
  {
    RestrictNone(SurplusTerms(a, b));
    RestrictNone(MissingTerms(a, b));
    var none: map<seq<Byte>, real> := map[];
    SumRealZero(none);
  }

  /**
   * With the other distribution's frequencies all positive, a fingerprint
   * counts as missing exactly when the other distribution lacks it.
   */
  lemma MissingIffAbsent(a: map<seq<Byte>, real>, b: map<seq<Byte>, real>, h: seq<Byte>)
    requires h in a
    requires forall g :: g in b ==> b[g] > 0.0
    ensures MissingTerm(a, b, h) == (if h in b then 0.0 else a[h])
  {
  }

  lemma SumRealNonneg(m: map<seq<Byte>, real>)
    requires forall h :: h in m ==> m[h] >= 0.0
    ensures SumReal(m) >= 0.0
  {
    var zeros := map h | h in m :: 0.0;
    SumRealZero(zeros);
    SumRealMonotone(zeros, m);
  }

  /**
   * For frequencies that are non-negative, the missing mass is at most the
   * summed positive difference, which is at most the total mass of this
   * distribution.
   */
  lemma DivergenceBounds(a: map<seq<Byte>, real>, b: map<seq<Byte>, real>)
    requires forall h :: h in a ==> a[h] >= 0.0
    requires forall h :: h in b ==> b[h] >= 0.0
    ensures var r := Divergence(a, b);
            0.0 <= r.percThatIsntInOther <= r.summedDiff <= SumReal(a)
  {
    var surplus, missing := SurplusTerms(a, b), MissingTerms(a, b);
    assert missing.Keys == surplus.Keys == a.Keys;
    forall h | h in a ensures 0.0 <= missing[h] <= surplus[h] <= a[h] {
    }
    SumRealNonneg(missing);
    SumRealMonotone(missing, surplus);
    SumRealMonotone(surplus, a);
  }

  /** A distribution compared with itself shows no difference and nothing missing. */
  lemma DivergenceSelf(a: map<seq<Byte>, real>)
    ensures Divergence(a, a) == PercResult(0.0, 0.0)
  {
    SumRealZero(SurplusTerms(a, a));
    assert forall h :: h in MissingTerms(a, a) ==> MissingTerms(a, a)[h] == 0.0;
    SumRealZero(MissingTerms(a, a));
  }

  /** Between two stores' relative distributions: 0 <= percThatIsntInOther <= summedDiff <= 1. */
  lemma StoreDivergenceBounds(mine: ThreadData, other: ThreadData)
    ensures var r := Divergence(RelativeDistribution(mine), RelativeDistribution(other));
            0.0 <= r.percThatIsntInOther <= r.summedDiff <= 1.0
  {
    var a := RelativeDistribution(mine);
    RelativeDistributionSpec(mine);
    RelativeDistributionSpec(other);
    DivergenceBounds(a, RelativeDistribution(other));
    if TotalSamples(mine) <= 0 {
      TotalSamplesNonneg(mine);
      RelativeEmpty(mine);
      assert a == map[];
    }
  }
}
