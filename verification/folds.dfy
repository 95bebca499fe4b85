/**
 * Sums and multiset unions over the entries of a finite map, in no particular
 * order: the specification side of every loop over a Java HashMap's entrySet.
 * Each fold picks an arbitrary key; the Remove lemmas show that the result
 * does not depend on which key is picked.
 */
module Folds {

  ghost function SumInt<K>(m: map<K, int>): int
    decreases |m|
  {
    if m == map[] then 0
    else
      var k :| k in m;
      m[k] + SumInt(m - {k})
  }

  lemma SumIntRemove<K>(m: map<K, int>, k: K)
    requires k in m
    ensures SumInt(m) == m[k] + SumInt(m - {k})
    decreases |m|
  {
    var k' :| k' in m && SumInt(m) == m[k'] + SumInt(m - {k'});
    if k' != k {
      SumIntRemove(m - {k'}, k);
      SumIntRemove(m - {k}, k');
      assert m - {k'} - {k} == m - {k} - {k'};
    }
  }

  lemma SumIntInsert<K>(m: map<K, int>, k: K, v: int)
    requires k !in m
    ensures SumInt(m[k := v]) == SumInt(m) + v
  {
    SumIntRemove(m[k := v], k);
    assert m[k := v] - {k} == m;
  }

  /** A sum of non-negative terms is non-negative. */
  lemma {:induction false} SumIntNonneg<K>(m: map<K, int>)
    requires forall k :: k in m ==> m[k] >= 0
    ensures SumInt(m) >= 0
    decreases |m|
  {
    if m != map[] {
      var k :| k in m;
      SumIntRemove(m, k);
      SumIntNonneg(m - {k});
    }
  }

  ghost function SumReal<K>(m: map<K, real>): real
    decreases |m|
  {
    if m == map[] then 0.0
    else
      var k :| k in m;
      m[k] + SumReal(m - {k})
  }

  lemma SumRealRemove<K>(m: map<K, real>, k: K)
    requires k in m
    ensures SumReal(m) == m[k] + SumReal(m - {k})
    decreases |m|
  {
    var k' :| k' in m && SumReal(m) == m[k'] + SumReal(m - {k'});
    if k' != k {
      SumRealRemove(m - {k'}, k);
      SumRealRemove(m - {k}, k');
      assert m - {k'} - {k} == m - {k} - {k'};
    }
  }

  lemma SumRealInsert<K>(m: map<K, real>, k: K, v: real)
    requires k !in m
    ensures SumReal(m[k := v]) == SumReal(m) + v
  {
    SumRealRemove(m[k := v], k);
    assert m[k := v] - {k} == m;
  }

  /** Summing term by term smaller values gives a smaller sum. */
  lemma {:induction false} SumRealMonotone<K>(small: map<K, real>, large: map<K, real>)
    requires small.Keys == large.Keys
    requires forall k :: k in small ==> small[k] <= large[k]
    ensures SumReal(small) <= SumReal(large)
    decreases |small|
  {
    if small != map[] {
      var k :| k in small;
      SumRealRemove(small, k);
      SumRealRemove(large, k);
      SumRealMonotone(small - {k}, large - {k});
    }
  }

  /** A sum of zeros is zero. */
  lemma {:induction false} SumRealZero<K>(m: map<K, real>)
    requires forall k :: k in m ==> m[k] == 0.0
    ensures SumReal(m) == 0.0
    decreases |m|
  {
    if m != map[] {
      var k :| k in m;
      SumRealRemove(m, k);
      SumRealZero(m - {k});
    }
  }

  ghost function BagUnion<K, V>(m: map<K, multiset<V>>): multiset<V>
    decreases |m|
  {
    if m == map[] then multiset{}
    else
      var k :| k in m;
      m[k] + BagUnion(m - {k})
  }

  lemma BagUnionRemove<K, V>(m: map<K, multiset<V>>, k: K)
    requires k in m
    ensures BagUnion(m) == m[k] + BagUnion(m - {k})
    decreases |m|
  {
    var k' :| k' in m && BagUnion(m) == m[k'] + BagUnion(m - {k'});
    if k' != k {
      BagUnionRemove(m - {k'}, k);
      BagUnionRemove(m - {k}, k');
      assert m - {k'} - {k} == m - {k} - {k'};
    }
  }

  lemma BagUnionInsert<K, V>(m: map<K, multiset<V>>, k: K, v: multiset<V>)
    requires k !in m
    ensures BagUnion(m[k := v]) == BagUnion(m) + v
  {
    BagUnionRemove(m[k := v], k);
    assert m[k := v] - {k} == m;
  }

  /** An element of the union comes from one of the bags, whose key is returned. */
  lemma {:induction false} BagUnionMember<K, V>(m: map<K, multiset<V>>, v: V) returns (k: K)
    requires v in BagUnion(m)
    ensures k in m && v in m[k]
    decreases |m|
  {
    var k' :| k' in m;
    BagUnionRemove(m, k');
    if v in m[k'] {
      k := k';
    } else {
      k := BagUnionMember(m - {k'}, v);
    }
  }

  /** The entries of `m` whose keys are in `keys`: what a loop over the entry set has still to visit. */
  function Restrict<K, V>(m: map<K, V>, keys: set<K>): (r: map<K, V>)
    ensures r.Keys == m.Keys * keys
  {
    map k | k in m && k in keys :: m[k]
  }

  lemma RestrictRemove<K, V>(m: map<K, V>, keys: set<K>, k: K)
    ensures Restrict(m, keys) - {k} == Restrict(m, keys - {k})
  {
  }

  lemma RestrictAll<K, V>(m: map<K, V>)
    ensures Restrict(m, m.Keys) == m
  {
  }

  lemma RestrictNone<K, V>(m: map<K, V>)
    ensures Restrict(m, {}) == map[]
  {
  }
}
