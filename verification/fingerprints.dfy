/**
 * Stack fingerprinting: which samples are kept, how class names are
 * normalised, which frames are hashed and what the digest is fed.
 */
module Fingerprints {
  import opened Wrappers
  import opened JavaTypes
  import opened TextLines

  /** One stack frame as the capture side delivers it. */
  datatype Frame = Frame(className: string, methodName: string)

  /** The characters of the class `[a-zA-Z0-9_$.]`. */
  predicate IsClassNameChar(c: char) {
    'a' <= c <= 'z' || 'A' <= c <= 'Z' || '0' <= c <= '9' || c == '_' || c == '$' || c == '.'
  }

  /** The separators of the split: the class `[^a-zA-Z0-9_$.]`. */
  predicate IsNotClassNameChar(c: char) {
    !IsClassNameChar(c)
  }

  predicate AllClassNameChars(s: string) {
    forall i :: 0 <= i < |s| ==> IsClassNameChar(s[i])
  }

  /** What every generated lambda class name is collapsed to. */
  const LambdaMarker: string := "$$Lambda"

  /** `pat` occurs in `s` starting at index `j`. */
  predicate OccursAt(s: string, pat: string, j: nat) {
    j + |pat| <= |s| && s[j..j + |pat|] == pat
  }

  lemma OccursShift(s: string, pat: string, j: nat)
    requires 1 <= j && |s| > 0
    ensures OccursAt(s, pat, j) == OccursAt(s[1..], pat, j - 1)
  {
    if j + |pat| <= |s| {
      assert s[j..j + |pat|] == s[1..][j - 1..j - 1 + |pat|];
    }
  }

  /** String.indexOf: the first index at which the non-empty `pat` occurs in `s`, or |s| when it does not occur. */
  function IndexOf(s: string, pat: string): (i: nat)
    requires |pat| > 0
    ensures i <= |s|
    ensures i < |s| ==> OccursAt(s, pat, i)
    ensures forall j :: 0 <= j < i ==> !OccursAt(s, pat, j)
    decreases |s|
  {
    if |s| < |pat| then |s|
    else if s[..|pat|] == pat then 0
    else
      var r := IndexOf(s[1..], pat);
      assert !OccursAt(s, pat, 0);
      assert forall j :: 1 <= j < 1 + r ==> !OccursAt(s, pat, j) by {
        forall j | 1 <= j < 1 + r ensures !OccursAt(s, pat, j) {
          OccursShift(s, pat, j);
        }
      }
      if r == |s| - 1 then |s|
      else
        OccursShift(s, pat, 1 + r);
        1 + r
  }

  /** The first occurrence is determined by the properties that define it. */
  lemma IndexOfUnique(s: string, pat: string, i: nat)
    requires |pat| > 0 && i <= |s|
    requires i < |s| ==> OccursAt(s, pat, i)
    requires forall j :: 0 <= j < i ==> !OccursAt(s, pat, j)
    ensures IndexOf(s, pat) == i
  {
  }

  /**
   * replaceAll("\\$\\$Lambda.*", "\\$\\$Lambda") on a string of class-name
   * characters: `.*` runs to the end of such a string, so everything from the
   * first "$$Lambda" on becomes "$$Lambda".
   */
  function CollapseLambda(s: string): (r: string)
  {
    var i := IndexOf(s, LambdaMarker);
    if i == |s| then s else s[..i] + LambdaMarker
  }

  /**
   * normalizeClassName: `className.split("[^a-zA-Z0-9_$.]")[0]` with
   * `$$Lambda...` collapsed. The split yields no piece at all, and `[0]`
   * throws, when the name is non-empty and has no class-name character.
   */
  function NormalizeClassName(className: string): (r: Option<string>)
  {
    var parts := SplitWhere(className, IsNotClassNameChar);
    if |parts| == 0 then None else Some(CollapseLambda(parts[0]))
  }

  /** The part of a class name before its first character outside `[a-zA-Z0-9_$.]`. */
  function ClassNamePrefix(className: string): (p: string)
    ensures AllClassNameChars(p)
  {
    className[..IndexWhere(className, IsNotClassNameChar)]
  }

  /**
   * What normalisation does, stated without the split: it fails exactly when
   * every character (of a non-empty name) is outside the class, and otherwise
   * keeps the prefix before the first such character, cut after its first
   * "$$Lambda" when there is one.
   */
  lemma NormalizeClassNameSpec(className: string)
    ensures var r := NormalizeClassName(className);
            (r.None? <==> |className| > 0 && forall i :: 0 <= i < |className| ==> !IsClassNameChar(className[i])) &&
            (r.Some? ==>
              var p := ClassNamePrefix(className);
              var i := IndexOf(p, LambdaMarker);
              && (i == |p| ==> r.value == p)
              && (i < |p| ==> r.value == p[..i] + LambdaMarker && OccursAt(p, LambdaMarker, i)))
  {
    SplitFirstPiece(className, IsNotClassNameChar);
  }

  /** A name made only of class-name characters is its own prefix. */
  lemma NormalizeClassNameChars(n: string)
    requires AllClassNameChars(n)
    ensures NormalizeClassName(n) == Some(CollapseLambda(n))
  {
    IndexWhereUnique(n, IsNotClassNameChar, |n|);
    SplitFirstPiece(n, IsNotClassNameChar);
    assert n[..|n|] == n;
  }

  /** Collapsing keeps the class-name alphabet and is idempotent. */
  lemma CollapseIdempotent(p: string)
    requires AllClassNameChars(p)
    ensures AllClassNameChars(CollapseLambda(p))
    ensures CollapseLambda(CollapseLambda(p)) == CollapseLambda(p)
  {
    var i := IndexOf(p, LambdaMarker);
    if i < |p| {
      var m := |LambdaMarker|;
      var r := p[..i] + LambdaMarker;
      assert r == p[..i + m];
      forall j | 0 <= j < i ensures !OccursAt(r, LambdaMarker, j) {
        assert !OccursAt(p, LambdaMarker, j);
        assert r[j..j + m] == p[..i + m][j..j + m] == p[j..j + m];
      }
      IndexOfUnique(r, LambdaMarker, i);
    }
  }

  /** Normalising a normalised class name changes nothing. */
  lemma NormalizeIdempotent(className: string)
    requires NormalizeClassName(className).Some?
    ensures var n := NormalizeClassName(className).value;
            AllClassNameChars(n) && NormalizeClassName(n) == Some(n)
  {
    SplitFirstPiece(className, IsNotClassNameChar);
    var p := ClassNamePrefix(className);
    CollapseIdempotent(p);
    NormalizeClassNameChars(CollapseLambda(p));
  }

  /** SamplingAgent.SAMPLING_THREAD_NAME, the sampler's own thread. */
  const SamplingThreadName: string := "SamplingAgent"

  /** IGNORED_THREADS: the sampler's own thread and the JVM's service threads. */
  const IgnoredThreads: set<string> := {
    SamplingThreadName,
    "Reference Handler",
    "Finalizer",
    "Signal Dispatcher",
    "Common-Cleaner",
    "JFR Periodic Tasks",
    "JFR Recorder Thread",
    "Notification Thread"
  }

  /** checkThreadName: samples of a thread with this name are kept. */
  predicate CheckThreadName(threadName: string) {
    threadName !in IgnoredThreads
  }

  /** The first frame index hashed: Math.max(0, size - maxDepth), the subtraction in 32-bit int arithmetic. */
  function SelectionStart(size: nat, maxDepth: Int32): (start: nat)
    requires size <= MaxInt
  {
    var d := Wrap32(size - maxDepth);
    if d > 0 then d else 0
  }

  /** The frames the loop at the heart of ingestion visits. */
  function SelectedFrames(stack: seq<Frame>, maxDepth: Int32): (sel: seq<Frame>)
    requires |stack| <= MaxInt
  {
    var start := SelectionStart(|stack|, maxDepth);
    if start >= |stack| then [] else stack[start..]
  }

  /**
   * With a non-negative maxDepth the hashed frames are the last
   * min(size, maxDepth) frames of the stack as received. A negative maxDepth
   * selects no frame, unless size - maxDepth overflows an int, which wraps
   * to a negative start and selects every frame.
   */
  lemma SelectedFramesSpec(stack: seq<Frame>, maxDepth: Int32)
    requires |stack| <= MaxInt
    ensures var sel := SelectedFrames(stack, maxDepth);
            && (maxDepth >= 0 ==> |sel| == (if |stack| < maxDepth then |stack| else maxDepth)
                                  && sel == stack[|stack| - |sel|..])
            && (maxDepth < 0 ==> sel == (if |stack| - maxDepth > MaxInt then stack else []))
  {
    var d := |stack| - maxDepth;
    if d > MaxInt {
      assert Wrap32(d) == d - 0x1_0000_0000 by {
        assert MinInt <= d - 0x1_0000_0000 <= MaxInt;
        assert (Wrap32(d) - (d - 0x1_0000_0000)) % 0x1_0000_0000 == 0;
      }
    }
  }

  /** The text one frame contributes: normalised class name, '.', method name. */
  function FrameText(f: Frame): (r: Option<string>)
  {
    var name := NormalizeClassName(f.className);
    if name.None? then None else Some(name.value + "." + f.methodName)
  }

  /**
   * Everything the digest is fed for `frames` when each frame contributes
   * the bytes of `text(frame)`: those bytes in order, with no separator; None
   * as soon as one frame has no text.
   */
  function Feed(rt: Runtime, text: Frame -> Option<string>, frames: seq<Frame>): (r: Option<seq<Byte>>)
    decreases |frames|
  {
    if |frames| == 0 then Some([])
    else
      var init := Feed(rt, text, frames[..|frames| - 1]);
      var t := text(frames[|frames| - 1]);
      if init.None? || t.None? then None else Some(init.value + rt.getBytes(t.value))
  }

  /** What the digest is fed for `frames`: None when a class name cannot be normalised. */
  function DigestInput(rt: Runtime, frames: seq<Frame>): Option<seq<Byte>> {
    Feed(rt, FrameText, frames)
  }

  /** Feeding one more frame appends the bytes of its text, or fails when it has none. */
  lemma FeedSnoc(rt: Runtime, text: Frame -> Option<string>, frames: seq<Frame>, f: Frame)
    ensures Feed(rt, text, frames + [f]) ==
            var init, t := Feed(rt, text, frames), text(f);
            if init.None? || t.None? then None else Some(init.value + rt.getBytes(t.value))
  {
    assert (frames + [f])[..|frames|] == frames;
  }

  /** One frame without a text makes the whole input fail. */
  lemma {:induction false} FeedFails(rt: Runtime, text: Frame -> Option<string>, frames: seq<Frame>, k: nat)
    requires k < |frames| && text(frames[k]).None?
    ensures Feed(rt, text, frames).None?
    decreases |frames|
  {
    var n := |frames|;
    if k < n - 1 {
      assert frames[..n - 1][k] == frames[k];
      FeedFails(rt, text, frames[..n - 1], k);
    }
  }

  /** The outcome of offering one sample to a store. */
  datatype Ingestion =
    | Ingested(hash: seq<Byte>)
    | IgnoredThread
    | StackTooShort
    | NormalizeFailed

  /** The generic add: filter, then hash the selected frames with a fresh digest. */
  function Ingest(rt: Runtime, maxDepth: Int32, threadName: string, stack: seq<Frame>): (r: Ingestion)
    requires |stack| <= MaxInt
  {
    if !CheckThreadName(threadName) then IgnoredThread
    else if |stack| < 2 then StackTooShort
    else
      var input := DigestInput(rt, SelectedFrames(stack, maxDepth));
      if input.None? then NormalizeFailed else Ingested(rt.sha256(input.value))
  }

  /** When every frame has a text, the whole input is fed. */
  lemma {:induction false} FeedSucceeds(rt: Runtime, text: Frame -> Option<string>, frames: seq<Frame>)
    requires forall k :: 0 <= k < |frames| ==> text(frames[k]).Some?
    ensures Feed(rt, text, frames).Some?
    decreases |frames|
  {
    var n := |frames|;
    if n > 0 {
      var init := frames[..n - 1];
      forall k | 0 <= k < |init| ensures text(init[k]).Some? {
        assert init[k] == frames[k];
      }
      FeedSucceeds(rt, text, init);
    }
  }

  /**
   * Each outcome of ingestion, both ways: the ignored thread names, stacks
   * of fewer than two frames, and a selected frame whose class name cannot
   * be normalised; every other sample is hashed.
   */
  lemma IngestCases(rt: Runtime, maxDepth: Int32, threadName: string, stack: seq<Frame>)
    requires |stack| <= MaxInt
    ensures var r, sel := Ingest(rt, maxDepth, threadName, stack), SelectedFrames(stack, maxDepth);
            && (r == IgnoredThread <==> threadName in IgnoredThreads)
            && (r == StackTooShort <==> threadName !in IgnoredThreads && |stack| < 2)
            && (r == NormalizeFailed <==>
                  threadName !in IgnoredThreads && |stack| >= 2 &&
                  exists k :: 0 <= k < |sel| && FrameText(sel[k]).None?)
  {
    var sel := SelectedFrames(stack, maxDepth);
    if exists k :: 0 <= k < |sel| && FrameText(sel[k]).None? {
      var k :| 0 <= k < |sel| && FrameText(sel[k]).None?;
      FeedFails(rt, FrameText, sel, k);
    } else {
      FeedSucceeds(rt, FrameText, sel);
    }
  }

  /** Two frame sequences whose frames normalise to the same texts, position by position. */
  predicate SameTexts(a: seq<Frame>, b: seq<Frame>) {
    |a| == |b| && forall i :: 0 <= i < |a| ==> FrameText(a[i]) == FrameText(b[i])
  }

  /** What is fed depends on the frames only through their texts, position by position. */
  lemma {:induction false} FeedByTexts(rt: Runtime, text: Frame -> Option<string>, a: seq<Frame>, b: seq<Frame>)
    requires |a| == |b| && forall i :: 0 <= i < |a| ==> text(a[i]) == text(b[i])
    ensures Feed(rt, text, a) == Feed(rt, text, b)
    decreases |a|
  {
    if |a| > 0 {
      var n := |a|;
      var a', b' := a[..n - 1], b[..n - 1];
      forall i | 0 <= i < n - 1 ensures text(a'[i]) == text(b'[i]) {
        assert a'[i] == a[i] && b'[i] == b[i];
      }
      FeedByTexts(rt, text, a', b');
      FeedSnoc(rt, text, a', a[n - 1]);
      FeedSnoc(rt, text, b', b[n - 1]);
      assert a' + [a[n - 1]] == a && b' + [b[n - 1]] == b;
    }
  }

  /**
   * The fingerprint is a deterministic function of the normalised texts of
   * the selected frames: two kept samples whose selected frames normalise to
   * the same texts get the same outcome.
   */
  lemma FingerprintDeterministic(rt: Runtime, maxDepth: Int32, threadName: string, s1: seq<Frame>, s2: seq<Frame>)
    requires |s1| <= MaxInt && |s2| <= MaxInt && |s1| >= 2 && |s2| >= 2
    requires SameTexts(SelectedFrames(s1, maxDepth), SelectedFrames(s2, maxDepth))
    ensures Ingest(rt, maxDepth, threadName, s1) == Ingest(rt, maxDepth, threadName, s2)
  {
    FeedByTexts(rt, FrameText, SelectedFrames(s1, maxDepth), SelectedFrames(s2, maxDepth));
  }

  /** With at least maxDepth frames in `tail`, frames put in front of it are not selected. */
  lemma SelectedFramesDeep(maxDepth: Int32, deep: seq<Frame>, tail: seq<Frame>)
    requires 0 <= maxDepth && |deep| + |tail| <= MaxInt && |tail| >= maxDepth
    ensures SelectedFrames(deep + tail, maxDepth) == SelectedFrames(tail, maxDepth)
  {
    SelectedFramesSpec(deep + tail, maxDepth);
    SelectedFramesSpec(tail, maxDepth);
    var s := deep + tail;
    assert s[|s| - maxDepth..] == tail[|tail| - maxDepth..];
  }

  /** Frames in front of the last maxDepth do not take part in the fingerprint. */
  lemma DeepFramesIgnored(rt: Runtime, maxDepth: Int32, threadName: string, deep: seq<Frame>, tail: seq<Frame>)
    requires 0 <= maxDepth && |deep| + |tail| <= MaxInt
    requires |tail| >= 2 && |tail| >= maxDepth
    ensures Ingest(rt, maxDepth, threadName, deep + tail) == Ingest(rt, maxDepth, threadName, tail)
  {
    SelectedFramesDeep(maxDepth, deep, tail);
  }
}
