/**
 * List.sort with a key comparator: a stable sort, written as insertion sort
 * over an integer key. Used for Comparator.comparingLong(TimeAndHash::timeNanos)
 * and for Comparator.naturalOrder() on the gaps.
 */
module Sorting {

  predicate SortedBy<T>(s: seq<T>, key: T -> int) {
    forall i, j :: 0 <= i < j < |s| ==> key(s[i]) <= key(s[j])
  }

  /** Inserts `x` after every element whose key is not above its own. */
  function Insert<T>(x: T, s: seq<T>, key: T -> int): (r: seq<T>)
    requires SortedBy(s, key)
    ensures SortedBy(r, key)
    ensures multiset(r) == multiset(s) + multiset{x}
    decreases |s|
  {
    if |s| == 0 then [x]
    else if key(x) < key(s[0]) then
      InsertFront(x, s, key);
      [x] + s
    else
      var rest := Insert(x, s[1..], key);
      InsertBehind(x, s, key, rest);
      [s[0]] + rest
  }

  /** An element whose key is below the first one's goes in front. */
  lemma InsertFront<T>(x: T, s: seq<T>, key: T -> int)
    requires |s| > 0 && SortedBy(s, key) && key(x) < key(s[0])
    ensures SortedBy([x] + s, key)
  {
    var r := [x] + s;
    forall i, j | 0 <= i < j < |r| ensures key(r[i]) <= key(r[j]) {
      assert r[j] == s[j - 1];
      if i > 0 {
        assert r[i] == s[i - 1];
      }
    }
  }

  /**
   * An element whose key is not below the first one's goes behind it: the
   * first element followed by the insertion into the rest.
   */
  lemma InsertBehind<T>(x: T, s: seq<T>, key: T -> int, rest: seq<T>)
    requires |s| > 0 && SortedBy(s, key) && key(s[0]) <= key(x)
    requires SortedBy(rest, key) && multiset(rest) == multiset(s[1..]) + multiset{x}
    ensures SortedBy([s[0]] + rest, key)
    ensures multiset([s[0]] + rest) == multiset(s) + multiset{x}
  {
    assert s == [s[0]] + s[1..];
    forall k | 0 <= k < |rest| ensures key(s[0]) <= key(rest[k]) {
      var y := rest[k];
      assert y in multiset(rest);
      if y != x {
        assert y in multiset(s[1..]);
        var j :| 0 <= j < |s[1..]| && s[1..][j] == y;
        assert y == s[j + 1];
      }
    }
    var r := [s[0]] + rest;
    forall i, j | 0 <= i < j < |r| ensures key(r[i]) <= key(r[j]) {
      assert r[j] == rest[j - 1];
      if i > 0 {
        assert r[i] == rest[i - 1];
      }
    }
  }

  /** The list sorted by key; elements with equal keys keep their relative order. */
  function SortBy<T>(s: seq<T>, key: T -> int): (r: seq<T>)
    ensures SortedBy(r, key)
    ensures multiset(r) == multiset(s)
    ensures |r| == |s|
    decreases |s|
  {
    if |s| == 0 then []
    else
      var init := s[..|s| - 1];
      assert s == init + [s[|s| - 1]];
      var r := Insert(s[|s| - 1], SortBy(init, key), key);
      assert |r| == |multiset(r)| == |multiset(s)| == |s|;
      r
  }

  /** The elements of `s` whose key is `k`, in their order in `s`. */
  function WithKey<T>(s: seq<T>, key: T -> int, k: int): (r: seq<T>)
    ensures |r| <= |s|
    decreases |s|
  {
    if |s| == 0 then []
    else (if key(s[0]) == k then [s[0]] else []) + WithKey(s[1..], key, k)
  }

  lemma {:induction false} WithKeyAppend<T>(a: seq<T>, b: seq<T>, key: T -> int, k: int)
    ensures WithKey(a + b, key, k) == WithKey(a, key, k) + WithKey(b, key, k)
    decreases |a|
  {
    if |a| > 0 {
      assert (a + b)[1..] == a[1..] + b;
      WithKeyAppend(a[1..], b, key, k);
    } else {
      assert a + b == b;
    }
  }

  /** No element of a list whose keys all exceed `k` has key `k`. */
  lemma {:induction false} WithKeyAbove<T>(s: seq<T>, key: T -> int, k: int)
    requires forall i :: 0 <= i < |s| ==> k < key(s[i])
    ensures WithKey(s, key, k) == []
    decreases |s|
  {
    if |s| > 0 {
      assert forall i :: 0 <= i < |s[1..]| ==> s[1..][i] == s[i + 1];
      WithKeyAbove(s[1..], key, k);
    }
  }

  /** Insertion puts `x` behind every element of the same key. */
  lemma {:induction false} InsertStable<T>(x: T, s: seq<T>, key: T -> int, k: int)
    requires SortedBy(s, key)
    ensures WithKey(Insert(x, s, key), key, k) == WithKey(s, key, k) + (if key(x) == k then [x] else [])
    decreases |s|
  {
    if |s| == 0 {
      assert Insert(x, s, key) == [x];
      WithKeySingle(x, key, k);
    } else if key(x) < key(s[0]) {
      InsertStableFront(x, s, key, k);
    } else {
      SortedTail(s, key);
      InsertStable(x, s[1..], key, k);
      InsertStableBehind(x, s, key, k);
    }
  }

  lemma InsertStableFront<T>(x: T, s: seq<T>, key: T -> int, k: int)
    requires |s| > 0 && SortedBy(s, key) && key(x) < key(s[0])
    ensures WithKey(Insert(x, s, key), key, k) == WithKey(s, key, k) + (if key(x) == k then [x] else [])
  {
    assert Insert(x, s, key) == [x] + s;
    WithKeyCons(x, s, key, k);
    if key(x) == k {
      forall i | 0 <= i < |s| ensures k < key(s[i]) {
        if i > 0 {
          assert key(s[0]) <= key(s[i]);
        }
      }
      WithKeyAbove(s, key, k);
    }
  }

  lemma InsertStableBehind<T>(x: T, s: seq<T>, key: T -> int, k: int)
    requires |s| > 0 && SortedBy(s, key) && key(s[0]) <= key(x) && SortedBy(s[1..], key)
    requires WithKey(Insert(x, s[1..], key), key, k) == WithKey(s[1..], key, k) + (if key(x) == k then [x] else [])
    ensures WithKey(Insert(x, s, key), key, k) == WithKey(s, key, k) + (if key(x) == k then [x] else [])
  {
    assert Insert(x, s, key) == [s[0]] + Insert(x, s[1..], key);
    ConsStable(s[0], s[1..], Insert(x, s[1..], key), key, k, if key(x) == k then [x] else []);
    assert [s[0]] + s[1..] == s;
  }

  /** Putting the same element in front of two lists keeps their per-key relation. */
  lemma ConsStable<T>(h: T, t: seq<T>, rest: seq<T>, key: T -> int, k: int, own: seq<T>)
    requires WithKey(rest, key, k) == WithKey(t, key, k) + own
    ensures WithKey([h] + rest, key, k) == WithKey([h] + t, key, k) + own
  {
    var head := if key(h) == k then [h] else [];
    WithKeyCons(h, rest, key, k);
    WithKeyCons(h, t, key, k);
    assert head + (WithKey(t, key, k) + own) == (head + WithKey(t, key, k)) + own;
  }

  lemma WithKeyCons<T>(x: T, s: seq<T>, key: T -> int, k: int)
    ensures WithKey([x] + s, key, k) == (if key(x) == k then [x] else []) + WithKey(s, key, k)
  {
    assert ([x] + s)[1..] == s;
  }

  /** The sort is stable: the elements of each key keep their relative order. */
  lemma {:induction false} SortByStable<T>(s: seq<T>, key: T -> int, k: int)
    ensures WithKey(SortBy(s, key), key, k) == WithKey(s, key, k)
    decreases |s|
  {
    if |s| > 0 {
      var init, last := s[..|s| - 1], s[|s| - 1];
      var sortedInit := SortBy(init, key);
      var own := if key(last) == k then [last] else [];
      calc {
        WithKey(SortBy(s, key), key, k);
        { assert SortBy(s, key) == Insert(last, sortedInit, key); }
        WithKey(Insert(last, sortedInit, key), key, k);
        { InsertStable(last, sortedInit, key, k); }
        WithKey(sortedInit, key, k) + own;
        { SortByStable(init, key, k); }
        WithKey(init, key, k) + own;
        { WithKeyAppend(init, [last], key, k); WithKeySingle(last, key, k); }
        WithKey(init + [last], key, k);
        { assert s == init + [last]; }
        WithKey(s, key, k);
      }
    }
  }

  lemma WithKeySingle<T>(x: T, key: T -> int, k: int)
    ensures WithKey([x], key, k) == if key(x) == k then [x] else []
  {
    assert WithKey([x], key, k) == (if key(x) == k then [x] else []) + WithKey([x][1..], key, k);
  }

  /** Two sorted integer sequences holding the same elements are the same sequence. */
  lemma {:induction false} SortedUnique(a: seq<int>, b: seq<int>)
    requires SortedBy(a, Identity) && SortedBy(b, Identity)
    requires multiset(a) == multiset(b)
    ensures a == b
    decreases |a|
  {
    assert |a| == |multiset(a)| == |multiset(b)| == |b|;
    if |a| > 0 {
      assert b[0] in multiset(b) && a[0] in multiset(a);
      SortedHeadLeast(a, b[0]);
      SortedHeadLeast(b, a[0]);
      var h := a[0];
      assert h == b[0];
      MultisetTail(a);
      MultisetTail(b);
      assert multiset(a[1..]) == multiset(a) - multiset{h};
      assert multiset(b[1..]) == multiset(b) - multiset{h};
      SortedTail(a, Identity);
      SortedTail(b, Identity);
      SortedUnique(a[1..], b[1..]);
      ConsTail(a, b);
    }
  }

  /** The first element of a sorted integer sequence is its least. */
  lemma SortedHeadLeast(a: seq<int>, x: int)
    requires SortedBy(a, Identity) && x in a
    ensures a[0] <= x
  {
    var i :| 0 <= i < |a| && a[i] == x;
    if i > 0 {
      assert Identity(a[0]) <= Identity(a[i]);
    }
  }

  lemma MultisetTail<T>(a: seq<T>)
    requires |a| > 0
    ensures multiset(a[1..]) == multiset(a) - multiset{a[0]}
  {
    assert a == [a[0]] + a[1..];
  }

  lemma ConsTail<T>(a: seq<T>, b: seq<T>)
    requires |a| > 0 && |b| > 0 && a[0] == b[0] && a[1..] == b[1..]
    ensures a == b
  {
    assert a == [a[0]] + a[1..] && b == [b[0]] + b[1..];
  }

  lemma SortedTail<T>(s: seq<T>, key: T -> int)
    requires |s| > 0 && SortedBy(s, key)
    ensures SortedBy(s[1..], key)
  {
    forall i, j | 0 <= i < j < |s| - 1 ensures key(s[1..][i]) <= key(s[1..][j]) {
      assert s[1..][i] == s[i + 1] && s[1..][j] == s[j + 1];
    }
  }

  /** Natural order on integers, as a key. */
  function Identity(x: int): int {
    x
  }
}
