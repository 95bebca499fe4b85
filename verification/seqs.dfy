/**
 * Small facts about sequences, stated once for any element type so that
 * proofs about heavy concrete sequences never compare them element by
 * element themselves.
 */
module Seqs {

  lemma ConsAssoc<T>(x: T, xs: seq<T>, rest: seq<T>)
    ensures ([x] + xs) + rest == [x] + (xs + rest)
  {
  }

  lemma SnocAssoc<T>(a: seq<T>, b: seq<T>, x: T)
    ensures a + (b + [x]) == (a + b) + [x]
  {
  }

  lemma AppendAssoc<T>(a: seq<T>, b: seq<T>, c: seq<T>, d: seq<T>)
    ensures a + ((b + c) + d) == ((a + b) + c) + d
  {
  }

  lemma Assoc<T>(a: seq<T>, b: seq<T>, c: seq<T>)
    ensures a + (b + c) == (a + b) + c
  {
  }

  lemma AppendEmpty<T>(s: seq<T>)
    ensures s + [] == s && [] + s == s
  {
  }

  /** Extending a slice by one element appends that element. */
  lemma SliceSnoc<T>(s: seq<T>, lo: nat, hi: nat)
    requires lo <= hi < |s|
    ensures s[lo..hi + 1] == s[lo..hi] + [s[hi]]
  {
  }

  lemma SliceToEnd<T>(s: seq<T>, lo: nat)
    requires lo <= |s|
    ensures s[lo..|s|] == s[lo..]
  {
  }

  lemma SuffixIndex<T>(s: seq<T>, lo: nat, i: nat)
    requires lo <= i < |s|
    ensures s[lo..][i - lo] == s[i]
  {
  }

  lemma PrefixSnoc<T>(s: seq<T>, j: nat)
    requires j < |s|
    ensures s[..j + 1] == s[..j] + [s[j]]
  {
  }

  lemma PrefixAll<T>(s: seq<T>)
    ensures s[..|s|] == s
  {
  }
}
