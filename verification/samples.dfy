/**
 * The Store's state: for every thread name, the list of (time, hash) pairs
 * recorded for it, in insertion order.
 */
module Samples {
  import opened JavaTypes
  import opened Folds

  /** One recorded sample: when it was taken and the fingerprint of its stack. */
  datatype TimeAndHash = TimeAndHash(timeNanos: Long, hash: seq<Byte>)

  /** dataPerThread: thread name to that thread's samples. */
  type ThreadData = map<string, seq<TimeAndHash>>

  ghost function Sizes(data: ThreadData): map<string, int> {
    map t | t in data :: |data[t]|
  }

  /** The number of samples across all threads. */
  ghost function TotalSamples(data: ThreadData): int {
    SumInt(Sizes(data))
  }

  lemma TotalSamplesRemove(data: ThreadData, t: string)
    requires t in data
    ensures TotalSamples(data) == |data[t]| + TotalSamples(data - {t})
  {
    SumIntRemove(Sizes(data), t);
    assert Sizes(data) - {t} == Sizes(data - {t});
  }

  lemma TotalSamplesNonneg(data: ThreadData)
    ensures TotalSamples(data) >= 0
  {
    SumIntNonneg(Sizes(data));
  }

  /** Replacing one thread's list changes the total by the difference in length. */
  lemma TotalSamplesUpdate(data: ThreadData, t: string, s: seq<TimeAndHash>)
    ensures TotalSamples(data[t := s]) == TotalSamples(data) - (if t in data then |data[t]| else 0) + |s|
  {
    if t in data {
      TotalSamplesRemove(data, t);
      TotalSamplesRemove(data[t := s], t);
      assert data[t := s] - {t} == data - {t};
    } else {
      SumIntInsert(Sizes(data), t, |s|);
      assert Sizes(data[t := s]) == Sizes(data)[t := |s|];
    }
  }

  /** The hashes of a thread's samples, in order. */
  function Hashes(recs: seq<TimeAndHash>): (hs: seq<seq<Byte>>)
    ensures |hs| == |recs|
  {
    seq(|recs|, i requires 0 <= i < |recs| => recs[i].hash)
  }

  /** The hashes of a list's first j + 1 samples: those of the first j, then sample j's. */
  lemma HashesPrefix(recs: seq<TimeAndHash>, j: nat)
    requires j < |recs|
    ensures Hashes(recs[..j + 1]) == Hashes(recs[..j]) + [recs[j].hash]
  {
  }

  ghost function HashBags(data: ThreadData): map<string, multiset<seq<Byte>>> {
    map t | t in data :: multiset(Hashes(data[t]))
  }

  /** Every sample's hash, as many times as it was recorded. */
  ghost function HashBag(data: ThreadData): multiset<seq<Byte>> {
    BagUnion(HashBags(data))
  }

  lemma HashBagRemove(data: ThreadData, t: string)
    requires t in data
    ensures HashBag(data) == multiset(Hashes(data[t])) + HashBag(data - {t})
  {
    BagUnionRemove(HashBags(data), t);
    assert HashBags(data) - {t} == HashBags(data - {t});
  }

  /** There is one hash in the bag per sample. */
  lemma {:induction false} HashBagSize(data: ThreadData)
    ensures |HashBag(data)| == TotalSamples(data)
    decreases |data|
  {
    if data == map[] {
      assert Sizes(data) == map[];
      assert HashBags(data) == map[];
    } else {
      var t :| t in data;
      HashBagRemove(data, t);
      TotalSamplesRemove(data, t);
      HashBagSize(data - {t});
    }
  }

  lemma HashBagUpdate(data: ThreadData, t: string, s: seq<TimeAndHash>)
    requires t in data
    ensures HashBag(data[t := s]) + multiset(Hashes(data[t])) == HashBag(data) + multiset(Hashes(s))
  {
    HashBagRemove(data, t);
    HashBagRemove(data[t := s], t);
    assert data[t := s] - {t} == data - {t};
  }

  /** A new thread's list adds its hashes to the bag. */
  lemma HashBagInsert(data: ThreadData, t: string, s: seq<TimeAndHash>)
    requires t !in data
    ensures HashBag(data[t := s]) == HashBag(data) + multiset(Hashes(s))
  {
    assert HashBags(data[t := s]) == HashBags(data)[t := multiset(Hashes(s))];
    BagUnionInsert(HashBags(data), t, multiset(Hashes(s)));
  }

  /** What the private add does to the map: computeIfAbsent(t, new list).add(rec). */
  function Appended(data: ThreadData, t: string, rec: TimeAndHash): ThreadData {
    data[t := (if t in data then data[t] else []) + [rec]]
  }

  /**
   * Appending one sample puts it at the end of its thread's list (created
   * empty if absent), keeps the earlier samples of that thread in order and
   * leaves every other thread alone.
   */
  lemma AppendedShape(data: ThreadData, t: string, rec: TimeAndHash)
    ensures var r := Appended(data, t, rec);
            && r.Keys == data.Keys + {t}
            && |r[t]| == (if t in data then |data[t]| else 0) + 1
            && r[t][|r[t]| - 1] == rec
            && (t in data ==> r[t][..|data[t]|] == data[t])
            && (forall u :: u in data && u != t ==> r[u] == data[u])
  {
    if t in data {
      assert (data[t] + [rec])[..|data[t]|] == data[t];
    }
  }

  /** Appending one sample adds one to the total. */
  lemma AppendedTotal(data: ThreadData, t: string, rec: TimeAndHash)
    ensures TotalSamples(Appended(data, t, rec)) == TotalSamples(data) + 1
  {
    TotalSamplesUpdate(data, t, (if t in data then data[t] else []) + [rec]);
  }

  lemma AppendedBagExisting(data: ThreadData, t: string, rec: TimeAndHash)
    requires t in data
    ensures HashBag(Appended(data, t, rec)) == HashBag(data) + multiset{rec.hash}
  {
    var s := data[t] + [rec];
    assert Hashes(s) == Hashes(data[t]) + [rec.hash];
    assert multiset(Hashes(s)) == multiset(Hashes(data[t])) + multiset{rec.hash};
    assert Appended(data, t, rec) == data[t := s];
    HashBagUpdate(data, t, s);
    var after, before := HashBag(data[t := s]), HashBag(data) + multiset{rec.hash};
    forall h ensures after[h] == before[h] {
      assert (after + multiset(Hashes(data[t])))[h] == (before + multiset(Hashes(data[t])))[h];
    }
    assert after == before;
  }

  lemma AppendedBagNew(data: ThreadData, t: string, rec: TimeAndHash)
    requires t !in data
    ensures HashBag(Appended(data, t, rec)) == HashBag(data) + multiset{rec.hash}
  {
    assert [] + [rec] == [rec];
    assert Hashes([rec]) == [rec.hash];
    HashBagInsert(data, t, [rec]);
  }

  /** Appending one sample adds its hash to the bag of hashes. */
  lemma AppendedBag(data: ThreadData, t: string, rec: TimeAndHash)
    ensures HashBag(Appended(data, t, rec)) == HashBag(data) + multiset{rec.hash}
  {
    if t in data {
      AppendedBagExisting(data, t, rec);
    } else {
      AppendedBagNew(data, t, rec);
    }
  }

  /** The map without entries holds no sample and no hash. */
  lemma EmptyData()
    ensures TotalSamples(map[]) == 0 && HashBag(map[]) == multiset{}
  {
    assert Sizes(map[]) == map[];
    assert HashBags(map[]) == map[];
  }

  /**
   * Visiting one more thread of a loop over the entry set moves its hashes
   * from the part still to visit to the part already seen.
   */
  lemma HashBagVisit(data: ThreadData, keys: set<string>, t: string, seen: multiset<seq<Byte>>)
    requires t in keys && t in data
    requires seen + HashBag(Restrict(data, keys)) == HashBag(data)
    ensures (seen + multiset(Hashes(data[t]))) + HashBag(Restrict(data, keys - {t})) == HashBag(data)
  {
    HashBagRemove(Restrict(data, keys), t);
    RestrictRemove(data, keys, t);
  }

  /** Once no thread is left to visit, every hash has been seen. */
  lemma HashBagVisited(data: ThreadData, seen: multiset<seq<Byte>>)
    requires seen + HashBag(Restrict(data, {})) == HashBag(data)
    ensures seen == HashBag(data)
  {
    RestrictNone(data);
    EmptyData();
  }
}
