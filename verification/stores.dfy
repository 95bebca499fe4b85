/**
 * The Store: one sampler's recorded stacks, as a map from thread name to the
 * list of (time, hash) pairs taken on that thread. Samples are added one at
 * a time, written to and read back from the text format, and analysed into
 * fingerprint distributions, a divergence between two stores and interval
 * statistics.
 *
 * Loops over the map's entry set visit the keys in an unspecified order; they
 * pick the next key with `:|`, so every proof holds for any iteration order.
 */
module Stores {
  import opened Wrappers
  import opened JavaTypes
  import opened Numerals
  import opened TextLines
  import opened Folds
  import opened Samples
  import opened Fingerprints
  import opened Codec
  import opened Distributions
  import opened Intervals
  import opened Sorting
  import opened Seqs
  import Base64

  /** The message of the IllegalArgumentException differencePercentagePoints throws. */
  const MaxDepthMismatch: string := "Max depth does not match"

  /**
   * The loop at the heart of the generic add: from index `start` on, feed the
   * bytes of each frame's text to the digest, and give up at the first frame
   * without one. The loop does not run when `start` is past the end.
   */
  method FeedFrames(rt: Runtime, text: Frame -> Option<string>, stack: seq<Frame>, start: nat)
    returns (input: Option<seq<Byte>>)
    ensures input == Feed(rt, text, if start >= |stack| then [] else stack[start..])
  {
    if start >= |stack| {
      return Some([]);
    }
    var hashed: seq<Byte> := [];
    var i := start;
    while i < |stack|
      invariant start <= i <= |stack|
      invariant Feed(rt, text, stack[start..i]) == Some(hashed)
    {
      var t := text(stack[i]);
      if t.None? {
        SuffixIndex(stack, start, i);
        FeedFails(rt, text, stack[start..], i - start);
        return None;
      }
      FeedSnoc(rt, text, stack[start..i], stack[i]);
      SliceSnoc(stack, start, i);
      hashed := hashed + rt.getBytes(t.value);
      i := i + 1;
    }
    SliceToEnd(stack, start);
    return Some(hashed);
  }

  /** The inner loop of getAbsoluteHashDistribution: count each sample of one thread under its hash. */
  method CountHashes(counts: map<seq<Byte>, int>, ghost bag: multiset<seq<Byte>>, list: seq<TimeAndHash>)
    returns (result: map<seq<Byte>, int>)
    requires counts == Counts(bag)
    ensures result == Counts(bag + multiset(Hashes(list)))
  {
    result := counts;
    ghost var seen := bag;
    var j := 0;
    while j < |list|
      invariant j <= |list|
      invariant result == Counts(seen)
      invariant seen == bag + multiset(Hashes(list[..j]))
    {
      var h := list[j].hash;
      CountsAdd(seen, h);
      HashesPrefix(list, j);
      result := result[h := (if h in result then result[h] else 0) + 1];
      seen := seen + multiset{h};
      j := j + 1;
    }
    PrefixAll(list);
  }

  /**
   * The loop of differencePercentagePoints over this store's hashes: sum the
   * positive differences (Math.abs of a positive diff), and the frequencies
   * whose difference is the whole frequency.
   */
  method CompareDistributions(mine: map<seq<Byte>, real>, theirs: map<seq<Byte>, real>) returns (result: PercResult)
    ensures result == Divergence(mine, theirs)
  {
    var perc := 0.0;
    var sum := 0.0;
    var remaining := mine.Keys;
    ComparingStart(mine, theirs);
    while remaining != {}
      invariant Comparing(mine, theirs, remaining, sum, perc)
      decreases |remaining|
    {
      var h :| h in remaining;
      ComparingStep(mine, theirs, remaining, h, sum, perc);
      var diff := mine[h] - (if h in theirs then theirs[h] else 0.0);
      if diff > 0.0 {
        sum := sum + (if diff < 0.0 then -diff else diff);
      }
      if diff == mine[h] {
        perc := perc + mine[h];
      }
      remaining := remaining - {h};
    }
    ComparingDone(mine, theirs, sum, perc);
    return PercResult(sum, perc);
  }

  /** The inner loop of computeTimeDiffs: append the differences between consecutive times of `sorted`. */
  method AppendGaps(diffs: seq<int>, sorted: seq<TimeAndHash>) returns (result: seq<int>)
    ensures result == diffs + Gaps(sorted)
  {
    result := diffs;
    if |sorted| == 0 {
      AppendEmpty(diffs);
      return;
    }
    var i := 1;
    assert Gaps(sorted[..1]) == [];
    AppendEmpty(diffs);
    while i < |sorted|
      invariant 1 <= i <= |sorted|
      invariant result == diffs + Gaps(sorted[..i])
    {
      GapsPrefix(sorted, i);
      SnocAssoc(diffs, Gaps(sorted[..i]), sorted[i].timeNanos - sorted[i - 1].timeNanos);
      result := result + [sorted[i].timeNanos - sorted[i - 1].timeNanos];
      i := i + 1;
    }
    PrefixAll(sorted);
  }

  /** The inner loop of store: one record line per sample, each followed by the line separator. */
  method WriteRecords(text: string, recs: seq<TimeAndHash>) returns (out: string)
    ensures out == text + JoinLines(RecordLines(recs))
  {
    out := text;
    var j := 0;
    AppendEmpty(text);
    while j < |recs|
      invariant j <= |recs|
      invariant out == text + JoinLines(RecordLines(recs[..j]))
    {
      JoinRecordsSnoc(recs, j);
      var line := UnsignedString36(recs[j].timeNanos) + " " + Base64.Encode(recs[j].hash);
      AppendAssoc(text, JoinLines(RecordLines(recs[..j])), line, "\n");
      out := out + line + "\n";
      j := j + 1;
    }
    PrefixAll(recs);
  }

  /**
   * One turn of read's loop on the variables (dataPerThread, curThread, cur):
   * a line with one piece flushes the current thread and starts the decoded
   * one; any other line must carry a base-36 time and a Base64 hash.
   */
  method ReadTurn(rt: Runtime, st: ReadState, line: string) returns (r: Result<ReadState, string>)
    ensures r == Step(rt, st, line)
  {
    var parts := SplitSpace(line);
    if |parts| == 1 {
      var data, cur := st.data, st.cur;
      if st.curThread.Some? {
        data := data[st.curThread.value := cur];
        cur := [];
      }
      var bytes := Base64.Decode(parts[0]);
      if bytes.None? {
        return Err(ReadError);
      }
      return Ok(ReadState(data, Some(rt.newString(bytes.value)), cur));
    }
    if |parts| == 0 {
      return Err(ReadError);
    }
    var time := ParseLong36(parts[0]);
    if time.None? {
      return Err(ReadError);
    }
    var hash := Base64.Decode(parts[1]);
    if hash.None? {
      return Err(ReadError);
    }
    return Ok(st.(cur := st.cur + [TimeAndHash(time.value, hash.value)]));
  }

  class Store {
    const name: string
    const maxDepth: Int32
    var dataPerThread: ThreadData

    constructor (name: string, maxDepth: Int32, dataPerThread: ThreadData)
      ensures this.name == name && this.maxDepth == maxDepth && this.dataPerThread == dataPerThread
    {
      this.name := name;
      this.maxDepth := maxDepth;
      this.dataPerThread := dataPerThread;
    }

    /** A store without samples. */
    constructor Empty(name: string, maxDepth: Int32)
      ensures this.name == name && this.maxDepth == maxDepth && this.dataPerThread == map[]
    {
      this.name := name;
      this.maxDepth := maxDepth;
      this.dataPerThread := map[];
    }

    /** The private add: appends one sample to its thread's list, creating the list if absent. */
    method AddSample(threadName: string, timeNanos: Long, hash: seq<Byte>)
      modifies this
      ensures dataPerThread == Appended(old(dataPerThread), threadName, TimeAndHash(timeNanos, hash))
    {
      var list := if threadName in dataPerThread then dataPerThread[threadName] else [];
      dataPerThread := dataPerThread[threadName := list + [TimeAndHash(timeNanos, hash)]];
    }

    /**
     * The generic add. A sample of an ignored thread or with fewer than two
     * frames is dropped; otherwise the sample is stored under the hash of
     * its selected frames. A class name that cannot be normalised aborts the
     * call (an ArrayIndexOutOfBoundsException) before anything is stored.
     */
    method Add(rt: Runtime, threadName: string, stack: seq<Frame>, timeNanos: Long) returns (outcome: Ingestion)
      requires |stack| <= MaxInt
      modifies this
      ensures outcome == Ingest(rt, maxDepth, threadName, stack)
      ensures outcome.Ingested? ==>
                dataPerThread == Appended(old(dataPerThread), threadName, TimeAndHash(timeNanos, outcome.hash))
      ensures !outcome.Ingested? ==> dataPerThread == old(dataPerThread)
    {
      if threadName in IgnoredThreads {
        return IgnoredThread;
      }
      if |stack| < 2 {
        return StackTooShort;
      }
      var input := FeedFrames(rt, FrameText, stack, SelectionStart(|stack|, maxDepth));
      if input.None? {
        return NormalizeFailed;
      }
      var hash := rt.sha256(input.value);
      AddSample(threadName, timeNanos, hash);
      return Ingested(hash);
    }

    /** The number of samples across all threads. */
    method SampleCount() returns (count: int)
      ensures count == TotalSamples(dataPerThread)
    {
      count := 0;
      var remaining := dataPerThread.Keys;
      RestrictAll(dataPerThread);
      while remaining != {}
        invariant remaining <= dataPerThread.Keys
        invariant count + TotalSamples(Restrict(dataPerThread, remaining)) == TotalSamples(dataPerThread)
        decreases |remaining|
      {
        var t :| t in remaining;
        TotalSamplesRemove(Restrict(dataPerThread, remaining), t);
        RestrictRemove(dataPerThread, remaining, t);
        count := count + |dataPerThread[t]|;
        remaining := remaining - {t};
      }
      RestrictNone(dataPerThread);
      EmptyData();
    }

    /**
     * getAbsoluteHashDistribution: every sample of every thread counted under
     * its hash, compared by content.
     */
    method AbsoluteHashDistribution() returns (result: map<seq<Byte>, int>)
      ensures result == AbsoluteDistribution(dataPerThread)
    {
      result := map[];
      var data := dataPerThread;
      ghost var seen: multiset<seq<Byte>> := multiset{};
      var remaining := data.Keys;
      RestrictAll(data);
      while remaining != {}
        invariant remaining <= data.Keys
        invariant result == Counts(seen)
        invariant seen + HashBag(Restrict(data, remaining)) == HashBag(data)
        decreases |remaining|
      {
        var t :| t in remaining;
        HashBagVisit(data, remaining, t, seen);
        result := CountHashes(result, seen, data[t]);
        seen := seen + multiset(Hashes(data[t]));
        remaining := remaining - {t};
      }
      HashBagVisited(data, seen);
    }

    /**
     * getRelativeDistribution: each hash's count divided by the number of
     * samples. An empty store has no hash, so nothing is divided by zero.
     */
    method RelativeHashDistribution() returns (rel: map<seq<Byte>, real>)
      ensures rel == RelativeDistribution(dataPerThread)
    {
      var sum := SampleCount();
      var abs := AbsoluteHashDistribution();
      HashBagSize(dataPerThread);
      forall h | h in abs ensures sum != 0 {
        assert multiset{h} <= HashBag(dataPerThread);
      }
      rel := map h | h in abs :: abs[h] as real / sum as real;
    }

    /**
     * differencePercentagePoints: compare this store's relative distribution
     * with the other's. Stores of different maximal depths cannot be compared.
     */
    method DifferencePercentagePoints(other: Store) returns (r: Result<PercResult, string>)
      ensures maxDepth != other.maxDepth ==> r == Err(MaxDepthMismatch)
      ensures maxDepth == other.maxDepth ==>
                r == Ok(Divergence(RelativeDistribution(dataPerThread), RelativeDistribution(other.dataPerThread)))
    {
      if maxDepth != other.maxDepth {
        return Err(MaxDepthMismatch);
      }
      var mine := RelativeHashDistribution();
      var theirs := other.RelativeHashDistribution();
      var result := CompareDistributions(mine, theirs);
      return Ok(result);
    }

    /**
     * computeTimeDiffs: each thread with at least minSamplesPerThread samples
     * has its list sorted by time, in place, and contributes the gaps between
     * consecutive times; the other threads are skipped.
     */
    method ComputeTimeDiffs(minSamplesPerThread: Int32) returns (diffs: seq<int>)
      modifies this
      ensures dataPerThread == Resorted(old(dataPerThread), minSamplesPerThread)
      ensures multiset(diffs) == GapBag(old(dataPerThread), minSamplesPerThread)
    {
      var data0 := dataPerThread;
      var data: ThreadData := data0;
      diffs := [];
      var remaining := data0.Keys;
      ResortingStart(data0, minSamplesPerThread);
      while remaining != {}
        invariant Resorting(data0, minSamplesPerThread, remaining, data, diffs)
        decreases |remaining|
      {
        var t :| t in remaining;
        if |data[t]| < minSamplesPerThread {
          ResortSkip(data0, minSamplesPerThread, remaining, t, data, diffs);
          remaining := remaining - {t};
          continue;
        }
        ResortTake(data0, minSamplesPerThread, remaining, t, data, diffs);
        remaining := remaining - {t};
        var sorted := SortBy(data[t], TimeOf);
        data := data[t := sorted];
        diffs := AppendGaps(diffs, sorted);
      }
      ResortingDone(data0, minSamplesPerThread, data, diffs);
      dataPerThread := data;
    }

    /**
     * computedInterval: the number of samples, then the gaps of the
     * qualifying threads sorted into natural order and summarised. With no
     * gap at all, diffs.get(0) throws.
     */
    method ComputeInterval(minSamplesPerThread: Int32) returns (r: Result<ComputedInterval, string>, ghost gaps: seq<int>)
      modifies this
      ensures dataPerThread == Resorted(old(dataPerThread), minSamplesPerThread)
      ensures SortedBy(gaps, Identity) && multiset(gaps) == GapBag(old(dataPerThread), minSamplesPerThread)
      ensures r == IntervalOf(TotalSamples(old(dataPerThread)), gaps)
    {
      var sampleCount := SampleCount();
      var diffs := ComputeTimeDiffs(minSamplesPerThread);
      diffs := SortBy(diffs, Identity);
      gaps := diffs;
      r := IntervalOf(sampleCount, diffs);
    }

    /**
     * store, writing into a string instead of a file: the name, maxDepth in
     * decimal, then for each thread, in the order the map yields them
     * (`order`), its header line and its record lines.
     */
    method Save(rt: Runtime) returns (text: string, order: seq<string>)
      ensures Enumerates(order, dataPerThread.Keys)
      ensures text == Encode(rt, Snapshot(name, maxDepth, dataPerThread), order)
    {
      var data := dataPerThread;
      text := name + "\n" + IntToString(maxDepth) + "\n";
      order := [];
      var remaining := data.Keys;
      SavingStart(rt, name, maxDepth, data);
      while remaining != {}
        invariant Saving(rt, name, maxDepth, data, remaining, order, text)
        decreases |remaining|
      {
        var t :| t in remaining;
        SavingStep(rt, name, maxDepth, data, remaining, order, text, t);
        text := text + Base64.Encode(rt.getBytes(t)) + "\n";
        text := WriteRecords(text, data[t]);
        order := order + [t];
        remaining := remaining - {t};
      }
      SavingDone(rt, name, maxDepth, data, order, text);
    }

    /**
     * read, from a string instead of a file: the name line, the maxDepth
     * line, then one turn per remaining line, and a last flush. Every
     * exception is reported as the one error `read` raises.
     */
    static method Read(rt: Runtime, text: string) returns (r: Result<Store, string>)
      ensures Parse(rt, text).Err? ==> r == Err(ReadError)
      ensures Parse(rt, text).Ok? ==>
                && r.Ok? && fresh(r.value)
                && r.value.name == Parse(rt, text).value.name
                && r.value.maxDepth == Parse(rt, text).value.maxDepth
                && r.value.dataPerThread == Parse(rt, text).value.data
    {
      var lines := ReadLines(text);
      if |lines| < 2 {
        return Err(ReadError);
      }
      var maxDepth := ParseInt(lines[1]);
      if maxDepth.None? {
        return Err(ReadError);
      }
      var st := ReadInit;
      var i := 2;
      while i < |lines|
        invariant 2 <= i <= |lines|
        invariant Run(ReaderStep(rt), ReadInit, lines[2..]) == Run(ReaderStep(rt), st, lines[i..])
      {
        RunAt(ReaderStep(rt), st, lines, i);
        var next := ReadTurn(rt, st, lines[i]);
        if next.Err? {
          return Err(ReadError);
        }
        st := next.value;
        i := i + 1;
      }
      assert lines[i..] == [];
      var data := st.data;
      if st.curThread.Some? {
        data := data[st.curThread.value := st.cur];
      }
      var store := new Store(lines[0], maxDepth.value, data);
      return Ok(store);
    }
  }
}
