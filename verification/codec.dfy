/**
 * The store's text format, as `store` writes it and `read` reads it back:
 *
 *   <name>
 *   <maxDepth in decimal>
 *   <Base64 of a thread name's bytes>
 *   <time in base 36, unsigned> <Base64 of the hash>
 *   ...
 *
 * one header line per thread followed by one record line per sample.
 */
module Codec {
  import opened Wrappers
  import opened JavaTypes
  import opened Numerals
  import Base64
  import opened TextLines
  import opened Samples
  import opened Seqs

  /** Everything a store file holds. */
  datatype Snapshot = Snapshot(name: string, maxDepth: Int32, data: ThreadData)

  lemma Base64NoSpace(bs: seq<Byte>)
    ensures NoSpace(Base64.Encode(bs)) && NoLineBreak(Base64.Encode(bs))
  {
    Base64.EncodeChars(bs);
  }

  /** The header line of a thread: the Base64 of its name's bytes. */
  function HeaderLine(rt: Runtime, t: string): (line: string)
    ensures |line| % 4 == 0
  {
    Base64.Encode(rt.getBytes(t))
  }

  lemma HeaderLineChars(rt: Runtime, t: string)
    ensures NoSpace(HeaderLine(rt, t)) && NoLineBreak(HeaderLine(rt, t))
  {
    Base64NoSpace(rt.getBytes(t));
  }

  /** The record line of a sample: unsigned base-36 time, a space, Base64 hash. */
  function RecordLine(rec: TimeAndHash): (line: string)
    ensures |line| > |UnsignedString36(rec.timeNanos)| && line[|UnsignedString36(rec.timeNanos)|] == ' '
  {
    UnsignedString36(rec.timeNanos) + " " + Base64.Encode(rec.hash)
  }

  lemma TimeChars(t: Long)
    ensures NoSpace(UnsignedString36(t)) && NoLineBreak(UnsignedString36(t))
  {
    UnsignedDigits(t);
  }

  lemma RecordLineChars(rec: TimeAndHash)
    ensures NoLineBreak(RecordLine(rec))
  {
    TimeChars(rec.timeNanos);
    Base64NoSpace(rec.hash);
  }

  function RecordLines(recs: seq<TimeAndHash>): (lines: seq<string>)
    ensures |lines| == |recs|
  {
    if |recs| == 0 then [] else [RecordLine(recs[0])] + RecordLines(recs[1..])
  }

  lemma {:induction false} RecordLinesChars(recs: seq<TimeAndHash>)
    ensures forall i :: 0 <= i < |recs| ==> NoLineBreak(RecordLines(recs)[i])
    decreases |recs|
  {
    if |recs| > 0 {
      RecordLineChars(recs[0]);
      RecordLinesChars(recs[1..]);
      forall i | 0 <= i < |recs| ensures NoLineBreak(RecordLines(recs)[i]) {
        if i > 0 { assert RecordLines(recs)[i] == RecordLines(recs[1..])[i - 1]; }
      }
    }
  }

  lemma BlockChars(rt: Runtime, t: string, recs: seq<TimeAndHash>)
    ensures forall i :: 0 <= i < |Block(rt, t, recs)| ==> NoLineBreak(Block(rt, t, recs)[i])
  {
    HeaderLineChars(rt, t);
    RecordLinesChars(recs);
    forall i | 0 <= i < |Block(rt, t, recs)| ensures NoLineBreak(Block(rt, t, recs)[i]) {
      if i > 0 { assert Block(rt, t, recs)[i] == RecordLines(recs)[i - 1]; }
    }
  }

  /** One thread's lines: its header, then its samples in list order. */
  function Block(rt: Runtime, t: string, recs: seq<TimeAndHash>): seq<string> {
    [HeaderLine(rt, t)] + RecordLines(recs)
  }

  /** The blocks of the threads in `order`, the order the map's entry set yields them in. */
  function Blocks(rt: Runtime, data: ThreadData, order: seq<string>): (lines: seq<string>)
    requires forall i :: 0 <= i < |order| ==> order[i] in data
  {
    if |order| == 0 then []
    else Block(rt, order[0], data[order[0]]) + Blocks(rt, data, order[1..])
  }

  lemma {:induction false} BlocksChars(rt: Runtime, data: ThreadData, order: seq<string>)
    requires forall i :: 0 <= i < |order| ==> order[i] in data
    ensures forall i :: 0 <= i < |Blocks(rt, data, order)| ==> NoLineBreak(Blocks(rt, data, order)[i])
    decreases |order|
  {
    if |order| > 0 {
      BlockChars(rt, order[0], data[order[0]]);
      BlocksChars(rt, data, order[1..]);
      BodyNoLineBreak(Block(rt, order[0], data[order[0]]), Blocks(rt, data, order[1..]));
    }
  }

  lemma {:induction false} BlocksAppend(rt: Runtime, data: ThreadData, order: seq<string>, t: string)
    requires forall i :: 0 <= i < |order| ==> order[i] in data
    requires t in data
    ensures Blocks(rt, data, order + [t]) == Blocks(rt, data, order) + Block(rt, t, data[t])
  {
    if |order| > 0 {
      assert (order + [t])[0] == order[0] && (order + [t])[1..] == order[1..] + [t];
      BlocksAppend(rt, data, order[1..], t);
      Assoc(Block(rt, order[0], data[order[0]]), Blocks(rt, data, order[1..]), Block(rt, t, data[t]));
    } else {
      assert order + [t] == [t] && [t][1..] == [];
      AppendEmpty(Block(rt, t, data[t]));
    }
  }

  /** `order` lists every key of the map exactly once. */
  predicate Enumerates(order: seq<string>, keys: set<string>) {
    && (forall i :: 0 <= i < |order| ==> order[i] in keys)
    && (forall t :: t in keys ==> t in order)
    && (forall i, j :: 0 <= i < j < |order| ==> order[i] != order[j])
  }

  /** The whole file `store` writes, with the threads in `order`. */
  function Encode(rt: Runtime, s: Snapshot, order: seq<string>): string
    requires forall i :: 0 <= i < |order| ==> order[i] in s.data
  {
    FileText(s.name, s.maxDepth, Blocks(rt, s.data, order))
  }

  /** The variables of `read`'s loop: the map built so far, the current thread and its list. */
  datatype ReadState = ReadState(data: ThreadData, curThread: Option<string>, cur: seq<TimeAndHash>)

  /** The map with the current list put under the current thread, if there is one. */
  function Flush(st: ReadState): ThreadData {
    if st.curThread.Some? then st.data[st.curThread.value := st.cur] else st.data
  }

  const ReadInit: ReadState := ReadState(map[], None, [])

  /** Every exception `read` can raise ends up as this RuntimeException. */
  const ReadError: string := "Could not read data"

  /**
   * One turn of `read`'s loop. A line with one piece is a header: it flushes
   * the current thread, if any, and starts the decoded name, keeping the
   * list when there was no thread yet. Any other line is a record: its first
   * piece is a signed base-36 long and its second Base64; more pieces are
   * ignored, and no piece at all is an out-of-bounds access.
   */
  function Step(rt: Runtime, st: ReadState, line: string): (r: Result<ReadState, string>)
    ensures r.Ok? ==> r.value.data.Keys <= Flush(st).Keys
    ensures (|line| > 0 && forall i :: 0 <= i < |line| ==> IsSpace(line[i])) ==> r.Err?
  {
    SplitFirstPiece(line, IsSpace);
    var parts := SplitSpace(line);
    if |parts| == 1 then
      var bytes := Base64.Decode(parts[0]);
      if bytes.None? then Err(ReadError)
      else
        var cur := if st.curThread.Some? then [] else st.cur;
        Ok(ReadState(Flush(st), Some(rt.newString(bytes.value)), cur))
    else if |parts| == 0 then Err(ReadError)
    else
      var time := ParseLong36(parts[0]);
      var hash := Base64.Decode(parts[1]);
      if time.None? || hash.None? then Err(ReadError)
      else Ok(st.(cur := st.cur + [TimeAndHash(time.value, hash.value)]))
  }

  /** One turn of a line-reading loop, as a function value. */
  type StepFn = (ReadState, string) -> Result<ReadState, string>

  /** The turn `read` takes, as a function value. */
  function ReaderStep(rt: Runtime): StepFn {
    (st, line) => Step(rt, st, line)
  }

  /** A line-reading loop over the remaining lines: stops at the first failing turn. */
  function Run(step: StepFn, st: ReadState, lines: seq<string>): Result<ReadState, string>
    decreases |lines|
  {
    if |lines| == 0 then Ok(st)
    else
      var next := step(st, lines[0]);
      if next.Err? then next else Run(step, next.value, lines[1..])
  }

  /**
   * `read` on the file's text: the name line, the maxDepth line (missing or
   * not a decimal int is a failure), then the loop, then the last flush.
   */
  function Parse(rt: Runtime, text: string): (r: Result<Snapshot, string>)
    ensures r.Ok? ==> var lines := ReadLines(text);
                      && |lines| >= 2
                      && r.value.name == lines[0] && NoLineBreak(r.value.name)
                      && ParseInt(lines[1]) == Some(r.value.maxDepth)
  {
    var lines := ReadLines(text);
    if |lines| < 2 then Err(ReadError)
    else
      var maxDepth := ParseInt(lines[1]);
      if maxDepth.None? then Err(ReadError)
      else
        var st := Run(ReaderStep(rt), ReadInit, lines[2..]);
        if st.Err? then Err(ReadError) else Ok(Snapshot(lines[0], maxDepth.value, Flush(st.value)))
  }

  /** A sample `store` can write so that `read` gets it back. */
  predicate Writable(rec: TimeAndHash) {
    rec.timeNanos >= 0 && |rec.hash| > 0
  }

  predicate AllWritable(recs: seq<TimeAndHash>) {
    forall i :: 0 <= i < |recs| ==> Writable(recs[i])
  }

  /** A thread name that survives getBytes followed by new String. */
  predicate NameSurvives(rt: Runtime, t: string) {
    rt.newString(rt.getBytes(t)) == t
  }

  lemma RecordSplit(rec: TimeAndHash)
    requires |rec.hash| > 0
    ensures SplitSpace(RecordLine(rec)) == [UnsignedString36(rec.timeNanos), Base64.Encode(rec.hash)]
  {
    var time := UnsignedString36(rec.timeNanos);
    Base64NoSpace(rec.hash);
    Base64.EncodeEmpty(rec.hash);
    TimeChars(rec.timeNanos);
    SplitTwo(time, Base64.Encode(rec.hash));
  }

  /** A written sample line is read back as that sample, appended to the current list. */
  lemma RecordStep(rt: Runtime, st: ReadState, rec: TimeAndHash)
    requires Writable(rec)
    ensures Step(rt, st, RecordLine(rec)) == Ok(st.(cur := st.cur + [rec]))
  {
    RecordSplit(rec);
    TimeRoundTrip(rec.timeNanos);
    Base64.DecodeEncode(rec.hash);
  }

  /** A written header line starts its thread again. */
  lemma HeaderStep(rt: Runtime, st: ReadState, t: string)
    requires NameSurvives(rt, t)
    ensures Step(rt, st, HeaderLine(rt, t)) ==
            Ok(ReadState(Flush(st), Some(t), if st.curThread.Some? then [] else st.cur))
  {
    HeaderLineChars(rt, t);
    SplitNoSpace(HeaderLine(rt, t));
    Base64.DecodeEncode(rt.getBytes(t));
  }

  /** The step reads every written sample line as that sample, appended to the current list. */
  ghost predicate ReadsRecords(step: StepFn) {
    forall st: ReadState, rec: TimeAndHash :: Writable(rec) ==> step(st, RecordLine(rec)) == Ok(st.(cur := st.cur + [rec]))
  }

  /** The step reads every written header line as the start of that thread. */
  ghost predicate ReadsHeaders(rt: Runtime, step: StepFn) {
    forall st: ReadState, t: string :: NameSurvives(rt, t) ==>
      step(st, HeaderLine(rt, t)) == Ok(ReadState(Flush(st), Some(t), if st.curThread.Some? then [] else st.cur))
  }

  lemma ReaderStepReads(rt: Runtime)
    ensures ReadsRecords(ReaderStep(rt)) && ReadsHeaders(rt, ReaderStep(rt))
  {
    forall st: ReadState, rec: TimeAndHash | Writable(rec)
      ensures ReaderStep(rt)(st, RecordLine(rec)) == Ok(st.(cur := st.cur + [rec]))
    {
      RecordStep(rt, st, rec);
    }
    forall st: ReadState, t: string | NameSurvives(rt, t)
      ensures ReaderStep(rt)(st, HeaderLine(rt, t)) ==
              Ok(ReadState(Flush(st), Some(t), if st.curThread.Some? then [] else st.cur))
    {
      HeaderStep(rt, st, t);
    }
  }

  lemma RunCons(step: StepFn, st: ReadState, line: string, rest: seq<string>, next: ReadState)
    requires step(st, line) == Ok(next)
    ensures Run(step, st, [line] + rest) == Run(step, next, rest)
  {
    assert ([line] + rest)[0] == line && ([line] + rest)[1..] == rest;
  }

  lemma RecordLinesCons(recs: seq<TimeAndHash>, rest: seq<string>)
    requires |recs| > 0
    ensures RecordLines(recs) + rest == [RecordLine(recs[0])] + (RecordLines(recs[1..]) + rest)
  {
    ConsAssoc(RecordLine(recs[0]), RecordLines(recs[1..]), rest);
  }

  lemma AppendCons(cur: seq<TimeAndHash>, recs: seq<TimeAndHash>)
    requires |recs| > 0
    ensures (cur + [recs[0]]) + recs[1..] == cur + recs
  {
    assert recs == [recs[0]] + recs[1..];
  }

  /** Written sample lines are read back as those samples, in order. */
  lemma {:induction false} RunRecords(step: StepFn, st: ReadState, recs: seq<TimeAndHash>, rest: seq<string>)
    requires ReadsRecords(step) && AllWritable(recs)
    ensures Run(step, st, RecordLines(recs) + rest) == Run(step, st.(cur := st.cur + recs), rest)
    decreases |recs|
  {
    if |recs| > 0 {
      var next := st.(cur := st.cur + [recs[0]]);
      RecordLinesCons(recs, rest);
      assert Writable(recs[0]);
      RunCons(step, st, RecordLine(recs[0]), RecordLines(recs[1..]) + rest, next);
      RunRecords(step, next, recs[1..], rest);
      AppendCons(st.cur, recs);
    } else {
      assert RecordLines(recs) + rest == rest;
      assert st.cur + recs == st.cur;
    }
  }

  lemma BlockCons(rt: Runtime, t: string, recs: seq<TimeAndHash>, rest: seq<string>)
    ensures Block(rt, t, recs) + rest == [HeaderLine(rt, t)] + (RecordLines(recs) + rest)
  {
  }

  /** A written block starts its thread and collects its samples. */
  lemma RunBlock(rt: Runtime, step: StepFn, st: ReadState, t: string, recs: seq<TimeAndHash>, rest: seq<string>)
    requires ReadsRecords(step) && ReadsHeaders(rt, step)
    requires NameSurvives(rt, t) && AllWritable(recs)
    ensures Run(step, st, Block(rt, t, recs) + rest) ==
            Run(step, ReadState(Flush(st), Some(t), (if st.curThread.Some? then [] else st.cur) + recs), rest)
  {
    var next := ReadState(Flush(st), Some(t), if st.curThread.Some? then [] else st.cur);
    BlockCons(rt, t, recs, rest);
    RunCons(step, st, HeaderLine(rt, t), RecordLines(recs) + rest, next);
    RunRecords(step, next, recs, rest);
  }

  /** `m` with the entries of `data` at `keys` written over it. */
  function Overlay(m: ThreadData, data: ThreadData, keys: set<string>): ThreadData
    requires keys <= data.Keys
  {
    map k | k in m.Keys + keys :: if k in keys then data[k] else m[k]
  }

  /** A snapshot whose threads are all written and read back faithfully. */
  predicate Restorable(rt: Runtime, data: ThreadData) {
    forall t :: t in data ==> NameSurvives(rt, t) && AllWritable(data[t])
  }

  /** The set of names a sequence lists. */
  function Listed(order: seq<string>): set<string> {
    set i | 0 <= i < |order| :: order[i]
  }

  lemma ListedCons(order: seq<string>)
    requires |order| > 0
    ensures Listed(order) == Listed(order[1..]) + {order[0]}
  {
    forall k | k in Listed(order) ensures k in Listed(order[1..]) + {order[0]} {
      var i :| 0 <= i < |order| && order[i] == k;
      if i > 0 { assert order[1..][i - 1] == k; }
    }
  }

  lemma OverlayStep(m: ThreadData, data: ThreadData, t: string, rest: set<string>)
    requires rest <= data.Keys && t in data
    ensures Overlay(m[t := data[t]], data, rest) == Overlay(m, data, rest + {t})
  {
  }

  /** After the first header, the list in hand always belongs to the current thread. */
  predicate Settled(st: ReadState) {
    st.curThread.Some? || st.cur == []
  }

  /** Reading written blocks puts each listed thread's samples under its name. */
  lemma {:induction false} RunBlocks(rt: Runtime, step: StepFn, st: ReadState, data: ThreadData, order: seq<string>)
    requires ReadsRecords(step) && ReadsHeaders(rt, step)
    requires forall i :: 0 <= i < |order| ==> order[i] in data
    requires Restorable(rt, data) && Settled(st)
    ensures var r := Run(step, st, Blocks(rt, data, order));
            && r.Ok? && Settled(r.value)
            && Flush(r.value) == Overlay(Flush(st), data, Listed(order))
    decreases |order|
  {
    if |order| == 0 {
      assert Overlay(Flush(st), data, Listed(order)) == Flush(st);
    } else {
      var t := order[0];
      RunBlock(rt, step, st, t, data[t], Blocks(rt, data, order[1..]));
      var next := ReadState(Flush(st), Some(t), data[t]);
      assert [] + data[t] == data[t];
      RunBlocks(rt, step, next, data, order[1..]);
      ListedCons(order);
      OverlayStep(Flush(st), data, t, Listed(order[1..]));
    }
  }

  /**
   * `read` after `store` gives back the name, the maxDepth and every thread's
   * samples in order, whatever order the threads were written in, provided
   * the name has no line break, every time is non-negative (it is written
   * unsigned and read signed), every hash is non-empty and every thread name
   * survives getBytes followed by new String.
   */
  lemma RoundTrip(rt: Runtime, s: Snapshot, order: seq<string>)
    requires Enumerates(order, s.data.Keys)
    requires NoLineBreak(s.name)
    requires Restorable(rt, s.data)
    ensures Parse(rt, Encode(rt, s, order)) == Ok(s)
  {
    var blocks := Blocks(rt, s.data, order);
    ReaderStepReads(rt);
    RunBlocks(rt, ReaderStep(rt), ReadInit, s.data, order);
    var st := Run(ReaderStep(rt), ReadInit, blocks).value;
    BlocksChars(rt, s.data, order);
    ParseFile(rt, s.name, s.maxDepth, blocks, st);
    OverlayListed(s.data, order);
  }

  lemma OverlayListed(data: ThreadData, order: seq<string>)
    requires Enumerates(order, data.Keys)
    ensures Overlay(map[], data, Listed(order)) == data
  {
    assert Listed(order) == data.Keys;
  }

  /** A name with a line break does not come back: the first line read is a different string. */
  lemma NameWithLineBreakLost(rt: Runtime, s: Snapshot, order: seq<string>)
    requires forall i :: 0 <= i < |order| ==> order[i] in s.data
    requires !NoLineBreak(s.name)
    ensures Parse(rt, Encode(rt, s, order)) != Ok(s)
  {
  }

  /** A record line of a negative time fails to parse, whatever state `read` is in. */
  lemma NegativeTimeRejected(rt: Runtime, st: ReadState, rec: TimeAndHash)
    requires rec.timeNanos < 0 && |rec.hash| > 0
    ensures Step(rt, st, RecordLine(rec)).Err?
  {
    RecordSplit(rec);
    TimeRoundTrip(rec.timeNanos);
  }

  lemma {:induction false} RunFailsOn(step: StepFn, st: ReadState, lines: seq<string>, i: nat)
    requires i < |lines|
    requires forall st' :: step(st', lines[i]).Err?
    ensures Run(step, st, lines).Err?
    decreases i
  {
    if i > 0 {
      var next := step(st, lines[0]);
      if next.Ok? {
        assert lines[1..][i - 1] == lines[i];
        RunFailsOn(step, next.value, lines[1..], i - 1);
      }
    }
  }

  lemma {:induction false} RecordLinesContain(recs: seq<TimeAndHash>, rec: TimeAndHash)
    requires rec in recs
    ensures RecordLine(rec) in RecordLines(recs)
    decreases |recs|
  {
    if recs[0] != rec {
      assert rec in recs[1..];
      RecordLinesContain(recs[1..], rec);
    }
  }

  lemma {:induction false} BlocksContain(rt: Runtime, data: ThreadData, order: seq<string>, k: nat, rec: TimeAndHash)
    requires forall i :: 0 <= i < |order| ==> order[i] in data
    requires k < |order| && rec in data[order[k]]
    ensures RecordLine(rec) in Blocks(rt, data, order)
    decreases k
  {
    if k == 0 {
      RecordLinesContain(data[order[0]], rec);
      assert RecordLine(rec) in Block(rt, order[0], data[order[0]]);
    } else {
      assert order[1..][k - 1] == order[k];
      BlocksContain(rt, data, order[1..], k - 1, rec);
    }
  }

  /**
   * One negative time anywhere makes the whole file unreadable: it is written
   * as a value above Long.MAX_VALUE, which the signed parse rejects.
   */
  lemma NegativeTimeBreaksRead(rt: Runtime, s: Snapshot, order: seq<string>, t: string, rec: TimeAndHash)
    requires Enumerates(order, s.data.Keys) && NoLineBreak(s.name)
    requires t in s.data && rec in s.data[t]
    requires rec.timeNanos < 0 && |rec.hash| > 0
    ensures Parse(rt, Encode(rt, s, order)).Err?
  {
    var blocks := Blocks(rt, s.data, order);
    BlocksChars(rt, s.data, order);
    FileLines(s.name, s.maxDepth, blocks);
    var k :| 0 <= k < |order| && order[k] == t;
    BlocksContain(rt, s.data, order, k, rec);
    var i :| 0 <= i < |blocks| && blocks[i] == RecordLine(rec);
    forall st' ensures ReaderStep(rt)(st', blocks[i]).Err? {
      NegativeTimeRejected(rt, st', rec);
    }
    RunFailsOn(ReaderStep(rt), ReadInit, blocks, i);
  }

  /**
   * A sample with an empty hash is written as "<time> ", which splits into
   * one piece and so is read as a thread header, not as a sample.
   */
  lemma EmptyHashReadAsHeader(rt: Runtime, st: ReadState, rec: TimeAndHash)
    requires rec.hash == []
    ensures SplitSpace(RecordLine(rec)) == [UnsignedString36(rec.timeNanos)]
    ensures var r := Step(rt, st, RecordLine(rec));
            r.Ok? ==> r.value.curThread.Some? && r.value.data == Flush(st)
  {
    var time := UnsignedString36(rec.timeNanos);
    assert Base64.Encode(rec.hash) == "";
    assert RecordLine(rec) == time + " ";
    TimeChars(rec.timeNanos);
    SplitTrailingSpace(time);
  }

  /** The text of a file with the given lines after the name and maxDepth lines. */
  function FileText(name: string, maxDepth: Int32, body: seq<string>): string {
    JoinLines([name, IntToString(maxDepth)] + body)
  }

  lemma FileLines(name: string, maxDepth: Int32, body: seq<string>)
    requires NoLineBreak(name)
    requires forall i :: 0 <= i < |body| ==> NoLineBreak(body[i])
    ensures var lines := ReadLines(FileText(name, maxDepth, body));
            |lines| >= 2 && lines[0] == name && ParseInt(lines[1]) == Some(maxDepth) && lines[2..] == body
  {
    var lines := [name, IntToString(maxDepth)] + body;
    IntToStringChars(maxDepth);
    ReadJoin(lines);
    IntRoundTrip(maxDepth);
  }

  /** A file whose body lines the loop reads to `st` is read as the name, the maxDepth and `st` flushed. */
  lemma ParseFile(rt: Runtime, name: string, maxDepth: Int32, body: seq<string>, st: ReadState)
    requires NoLineBreak(name)
    requires forall i :: 0 <= i < |body| ==> NoLineBreak(body[i])
    requires Run(ReaderStep(rt), ReadInit, body) == Ok(st)
    ensures Parse(rt, FileText(name, maxDepth, body)) == Ok(Snapshot(name, maxDepth, Flush(st)))
  {
    FileLines(name, maxDepth, body);
  }

  /** Samples before the first header are kept and belong to the first thread. */
  lemma LeadingRecordsJoinFirstThread(rt: Runtime, name: string, maxDepth: Int32,
                                      early: seq<TimeAndHash>, t: string, recs: seq<TimeAndHash>)
    requires NoLineBreak(name) && NameSurvives(rt, t) && AllWritable(early) && AllWritable(recs)
    ensures Parse(rt, FileText(name, maxDepth, RecordLines(early) + Block(rt, t, recs))) ==
            Ok(Snapshot(name, maxDepth, map[t := early + recs]))
  {
    var body := RecordLines(early) + Block(rt, t, recs);
    ReaderStepReads(rt);
    RunRecords(ReaderStep(rt), ReadInit, early, Block(rt, t, recs));
    AppendEmpty(early);
    var st := ReadState(map[], None, early);
    RunBlock(rt, ReaderStep(rt), st, t, recs, []);
    AppendEmpty(Block(rt, t, recs));
    RunEmpty(ReaderStep(rt), ReadState(map[], Some(t), early + recs));
    RecordLinesChars(early);
    BlockChars(rt, t, recs);
    BodyNoLineBreak(RecordLines(early), Block(rt, t, recs));
    ParseFile(rt, name, maxDepth, body, ReadState(map[], Some(t), early + recs));
  }

  /** Samples in a file without any header line are dropped. */
  lemma RecordsWithoutHeaderDropped(rt: Runtime, name: string, maxDepth: Int32, recs: seq<TimeAndHash>)
    requires NoLineBreak(name) && AllWritable(recs)
    ensures Parse(rt, FileText(name, maxDepth, RecordLines(recs))) == Ok(Snapshot(name, maxDepth, map[]))
  {
    ReaderStepReads(rt);
    RunRecords(ReaderStep(rt), ReadInit, recs, []);
    AppendEmpty(RecordLines(recs));
    AppendEmpty(recs);
    RunEmpty(ReaderStep(rt), ReadState(map[], None, recs));
    RecordLinesChars(recs);
    ParseFile(rt, name, maxDepth, RecordLines(recs), ReadState(map[], None, recs));
  }

  /** A thread whose header appears twice keeps only the samples after the second header. */
  lemma RepeatedHeaderReplaces(rt: Runtime, name: string, maxDepth: Int32,
                               t: string, first: seq<TimeAndHash>, second: seq<TimeAndHash>)
    requires NoLineBreak(name) && NameSurvives(rt, t) && AllWritable(first) && AllWritable(second)
    ensures Parse(rt, FileText(name, maxDepth, Block(rt, t, first) + Block(rt, t, second))) ==
            Ok(Snapshot(name, maxDepth, map[t := second]))
  {
    var body := Block(rt, t, first) + Block(rt, t, second);
    ReaderStepReads(rt);
    RunBlock(rt, ReaderStep(rt), ReadInit, t, first, Block(rt, t, second));
    AppendEmpty(first);
    AppendEmpty(second);
    AppendEmpty(Block(rt, t, second));
    var st := ReadState(map[], Some(t), first);
    RunBlock(rt, ReaderStep(rt), st, t, second, []);
    var last := ReadState(map[t := first], Some(t), second);
    RunEmpty(ReaderStep(rt), last);
    BlockChars(rt, t, first);
    BlockChars(rt, t, second);
    BodyNoLineBreak(Block(rt, t, first), Block(rt, t, second));
    ParseFile(rt, name, maxDepth, body, last);
    Overwrite(t, first, second);
  }

  lemma RunEmpty(step: StepFn, st: ReadState)
    ensures Run(step, st, []) == Ok(st)
  {
  }

  lemma Overwrite<K, V>(k: K, a: V, b: V)
    ensures map[k := a][k := b] == map[k := b]
  {
  }

  lemma BodyNoLineBreak(a: seq<string>, b: seq<string>)
    requires forall i :: 0 <= i < |a| ==> NoLineBreak(a[i])
    requires forall i :: 0 <= i < |b| ==> NoLineBreak(b[i])
    ensures forall i :: 0 <= i < |a + b| ==> NoLineBreak((a + b)[i])
  {
  }

  /** Writing one more line appends it and a line separator to the file. */
  lemma FileTextAppend(name: string, maxDepth: Int32, body: seq<string>, line: string)
    ensures FileText(name, maxDepth, body + [line]) == FileText(name, maxDepth, body) + line + "\n"
  {
    var head := [name, IntToString(maxDepth)];
    SnocAssoc(head, body, line);
    JoinAppend(head + body, line);
  }

  lemma {:induction false} RecordLinesSnoc(recs: seq<TimeAndHash>, rec: TimeAndHash)
    ensures RecordLines(recs + [rec]) == RecordLines(recs) + [RecordLine(rec)]
    decreases |recs|
  {
    if |recs| > 0 {
      var all := recs + [rec];
      assert all[0] == recs[0] && all[1..] == recs[1..] + [rec];
      RecordLinesSnoc(recs[1..], rec);
      ConsAssoc(RecordLine(recs[0]), RecordLines(recs[1..]), [RecordLine(rec)]);
    } else {
      assert recs + [rec] == [rec];
    }
  }

  /** A file with no body: the name line and the maxDepth line. */
  lemma FileTextHead(name: string, maxDepth: Int32)
    ensures FileText(name, maxDepth, []) == name + "\n" + IntToString(maxDepth) + "\n"
  {
    var d := IntToString(maxDepth);
    AppendEmpty([name, d]);
    assert [name, d][1..] == [d] && [d][1..] == [];
    assert JoinLines([d]) == d + "\n";
    assert JoinLines([name, d]) == name + "\n" + (d + "\n");
  }

  /** Writing one more thread's block appends its header line and its record lines to the file. */
  lemma FileTextBlock(name: string, maxDepth: Int32, body: seq<string>, rt: Runtime, t: string, recs: seq<TimeAndHash>)
    ensures FileText(name, maxDepth, body + Block(rt, t, recs)) ==
            FileText(name, maxDepth, body) + HeaderLine(rt, t) + "\n" + JoinLines(RecordLines(recs))
  {
    var head := [name, IntToString(maxDepth)];
    var block := Block(rt, t, recs);
    Assoc(head, body, block);
    JoinConcat(head + body, block);
    JoinBlock(rt, t, recs);
    AppendAssoc(JoinLines(head + body), HeaderLine(rt, t), "\n", JoinLines(RecordLines(recs)));
  }

  /** A block is written as its header line, then its record lines. */
  lemma JoinBlock(rt: Runtime, t: string, recs: seq<TimeAndHash>)
    ensures JoinLines(Block(rt, t, recs)) == HeaderLine(rt, t) + "\n" + JoinLines(RecordLines(recs))
  {
    var block := Block(rt, t, recs);
    assert block[0] == HeaderLine(rt, t) && block[1..] == RecordLines(recs);
  }

  /** Writing one more sample appends its record line. */
  lemma JoinRecordsSnoc(recs: seq<TimeAndHash>, j: nat)
    requires j < |recs|
    ensures JoinLines(RecordLines(recs[..j + 1])) == JoinLines(RecordLines(recs[..j])) + RecordLine(recs[j]) + "\n"
  {
    PrefixSnoc(recs, j);
    RecordLinesSnoc(recs[..j], recs[j]);
    JoinAppend(RecordLines(recs[..j]), RecordLine(recs[j]));
  }

  /** The loop's turn at line `i`: stop at a failure, otherwise go on from the next line. */
  lemma RunAt(step: StepFn, st: ReadState, lines: seq<string>, i: nat)
    requires i < |lines|
    ensures Run(step, st, lines[i..]) ==
            if step(st, lines[i]).Err? then step(st, lines[i]) else Run(step, step(st, lines[i]).value, lines[i + 1..])
  {
    assert lines[i..][0] == lines[i] && lines[i..][1..] == lines[i + 1..];
  }

  /** Listing one more key that was not listed yet. */
  lemma EnumeratesSnoc(order: seq<string>, keys: set<string>, t: string)
    requires Enumerates(order, keys) && t !in keys
    ensures Enumerates(order + [t], keys + {t})
  {
    var o := order + [t];
    forall u | u in keys + {t} ensures u in o {
      if u in keys {
        var i :| 0 <= i < |order| && order[i] == u;
        assert o[i] == u;
      } else {
        assert o[|order|] == u;
      }
    }
  }

  /**
   * The state of store's loop over the threads of `data` when `pending` are
   * still to write: `order` lists the written threads and `text` is the file
   * so far.
   */
  ghost predicate Saving(rt: Runtime, name: string, maxDepth: Int32, data: ThreadData, pending: set<string>,
                         order: seq<string>, text: string) {
    && pending <= data.Keys
    && Enumerates(order, data.Keys - pending)
    && text == FileText(name, maxDepth, Blocks(rt, data, order))
  }

  /** Before the loop: the name line and the maxDepth line. */
  lemma SavingStart(rt: Runtime, name: string, maxDepth: Int32, data: ThreadData)
    ensures Saving(rt, name, maxDepth, data, data.Keys, [], name + "\n" + IntToString(maxDepth) + "\n")
  {
    FileTextHead(name, maxDepth);
    assert data.Keys - data.Keys == {};
  }

  /** Writing one more thread appends its header line and its record lines. */
  lemma SavingStep(rt: Runtime, name: string, maxDepth: Int32, data: ThreadData, pending: set<string>,
                   order: seq<string>, text: string, t: string)
    requires t in pending && Saving(rt, name, maxDepth, data, pending, order, text)
    ensures t in data
    ensures Saving(rt, name, maxDepth, data, pending - {t}, order + [t],
                   text + HeaderLine(rt, t) + "\n" + JoinLines(RecordLines(data[t])))
  {
    FileTextBlock(name, maxDepth, Blocks(rt, data, order), rt, t, data[t]);
    BlocksAppend(rt, data, order, t);
    EnumeratesSnoc(order, data.Keys - pending, t);
    assert data.Keys - (pending - {t}) == (data.Keys - pending) + {t};
  }

  /** Once every thread is written the text is the encoding in the order written. */
  lemma SavingDone(rt: Runtime, name: string, maxDepth: Int32, data: ThreadData, order: seq<string>, text: string)
    requires Saving(rt, name, maxDepth, data, {}, order, text)
    ensures Enumerates(order, data.Keys)
    ensures text == Encode(rt, Snapshot(name, maxDepth, data), order)
  {
    assert data.Keys - {} == data.Keys;
  }
}
