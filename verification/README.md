# Store: stack-sample fingerprints of a sampling profiler

The sampler-comparison project runs several Java sampling profilers against
the same program and compares what they saw. Each sampler's observations are
kept in a `Store`:

- a name;
- a maximal stack depth `maxDepth`;
- a map `dataPerThread` from thread name to the list of samples taken on that
  thread, in insertion order. Each sample is a `TimeAndHash`: a time in
  nanoseconds and the fingerprint of the stack.

A stack's fingerprint is the SHA-256 digest of the text `class.method` of the
last `maxDepth` frames of the stack as received (the outermost ones for JDK
stack traces, whose element 0 is the most recent call). Class names are normalised first:

- everything from the first character outside `[a-zA-Z0-9_$.]` on is dropped,
  which removes hidden-class addresses;
- everything after a `$$Lambda` marker is dropped.

Samples of the sampler's own thread and of the JVM's service threads are
ignored, and so are stacks of fewer than two frames.

A store can be written to and read back from a line-based text file:

- the name line;
- the `maxDepth` line;
- then for every thread a header line holding the Base64 of the thread name,
  followed by one line per sample: the time in unsigned base 36, a space, and
  the Base64 of the hash.

The analyses over a store are:

- the absolute and the relative distribution of fingerprints;
- the divergence between two stores' relative distributions: the summed
  surplus, and the share of fingerprints the other store never saw;
- the interval statistics over the gaps between consecutive samples of each
  thread: sample count, average, trimmed average, minimum, 10th and 90th
  percentile, maximum.

The Dafny model is organised as follows.

- `Stores.Store` is a class. `dataPerThread` is a field that its methods
  reassign.
- Every loop of the Java code is a `while` loop with invariants, in `Stores`.
  Each such method is proved equal to a specification function of the modules
  below:
  - `Fingerprints`: normalisation, frame selection, the digest input, and
    ingestion;
  - `Samples`: the map, its sample count and its multiset of hashes;
  - `Codec`: the file text and the reader's state machine;
  - `Distributions`;
  - `Intervals`.
- `Base64`, `Numerals` and `TextLines` model the JDK pieces the file format
  relies on:
  - `java.util.Base64`, as section 4 of RFC 4648;
  - `Integer.toString`, `Integer.parseInt`, `Long.toUnsignedString` and
    `Long.parseLong`;
  - `BufferedReader.readLine` and `String.split`.
- HashMap iteration order is unspecified. The loops over the entry set
  therefore pick the next key with `:|`, and every result is proved for every
  visiting order.

For a store without any gap, `computedInterval` reads `diffs.get(0)` and
throws; `Intervals.IntervalOf` returns an error exactly when there is no gap.

Some of the proved properties are quirks of the format rather than promises:

- A negative time is written unsigned and cannot be read back by the signed
  `parseLong`, so the file becomes unreadable.
- An empty hash makes its sample line read as a thread header.
- A name containing a line break does not survive the round trip.
- Samples before the first header join the first thread.
- A file with no header line loses its samples.
- A repeated header keeps only the last block.

## Model

| member | source | states |
|---|---|---|
| Stores.Store.constructor | src/main/java/me/bechberger/comparison/Store.java:29-33 | the store holds exactly the given name, maximal depth and map |
| Stores.Store.Empty | src/main/java/me/bechberger/comparison/Store.java:46-48 | a new store starts with an empty map |
| Stores.Store.AddSample | src/main/java/me/bechberger/comparison/Store.java:73-75 | the map becomes `Appended(old map, thread, sample)`: computeIfAbsent followed by add |
| Samples.AppendedShape | src/main/java/me/bechberger/comparison/Store.java:73-75 | appending creates the thread's list if absent, puts the sample last, keeps the earlier samples of that thread in order and leaves every other thread unchanged |
| Samples.AppendedTotal | src/main/java/me/bechberger/comparison/Store.java:73-75 | appending adds exactly one to the total number of samples |
| Samples.AppendedBag | src/main/java/me/bechberger/comparison/Store.java:73-75 | appending adds exactly the new hash to the multiset of all hashes |
| Samples.HashBagSize | src/main/java/me/bechberger/comparison/Store.java:225-230 | the multiset of hashes has one element per stored sample |
| Fingerprints.NormalizeClassNameSpec | src/main/java/me/bechberger/comparison/Store.java:85-88 | normalisation fails exactly when the name is non-empty and has no class-name character; otherwise the result is the prefix before the first other character, cut right after its first `$$Lambda` if it has one |
| Fingerprints.NormalizeIdempotent | src/main/java/me/bechberger/comparison/Store.java:85-88 | a normalised name consists of class-name characters only, and normalising it again returns it unchanged |
| Fingerprints.CollapseIdempotent | src/main/java/me/bechberger/comparison/Store.java:87 | the `$$Lambda` replacement keeps the alphabet and is idempotent |
| Fingerprints.IndexOf | src/main/java/me/bechberger/comparison/Store.java:87 | the position the replacement starts at is an occurrence of the marker, and no earlier position is one |
| Fingerprints.SelectedFramesSpec | src/main/java/me/bechberger/comparison/Store.java:98 | with maxDepth >= 0 the frames hashed are the last min(size, maxDepth); a negative maxDepth selects none, unless size - maxDepth overflows an int and so selects all |
| JavaTypes.Wrap32 | src/main/java/me/bechberger/comparison/Store.java:98 | 32-bit int arithmetic: values in range are unchanged, and any result differs from the exact value by a multiple of 2^32 |
| Stores.FeedFrames | src/main/java/me/bechberger/comparison/Store.java:97-101 | the loop feeds the digest the bytes of each selected frame's text in order, and fails at the first frame whose class name cannot be normalised |
| Fingerprints.FeedFails | src/main/java/me/bechberger/comparison/Store.java:99-100 | one frame without a text makes the whole digest input fail |
| Fingerprints.FeedSucceeds | src/main/java/me/bechberger/comparison/Store.java:99-100 | when every frame has a text, the digest input exists |
| Fingerprints.IngestCases | src/main/java/me/bechberger/comparison/Store.java:90-104 | each outcome of the generic add, both ways: ignored thread name; fewer than two frames; a selected frame whose class name cannot be normalised; every other sample is hashed |
| Stores.Store.Add | src/main/java/me/bechberger/comparison/Store.java:90-104 | the outcome is ingestion's; a hashed sample is appended under its thread with that hash, and anything else leaves the map unchanged |
| Fingerprints.FeedByTexts | src/main/java/me/bechberger/comparison/Store.java:97-102 | the digest input depends on the frames only through their texts, position by position |
| Fingerprints.FingerprintDeterministic | src/main/java/me/bechberger/comparison/Store.java:97-102 | the digest is reset for every sample, so two kept stacks whose selected frames have the same texts get the same outcome |
| Fingerprints.DeepFramesIgnored | src/main/java/me/bechberger/comparison/Store.java:98 | frames outside the last maxDepth take no part in the fingerprint |
| Stores.Store.Save | src/main/java/me/bechberger/comparison/Store.java:114-134 | the written text is the file encoding of the store, with the threads in an order that lists every thread exactly once |
| Stores.WriteRecords | src/main/java/me/bechberger/comparison/Store.java:123-129 | the inner loop appends one record line per sample, in list order |
| Base64.Encode | src/main/java/me/bechberger/comparison/Store.java:121 | the encoding's length is a multiple of four, and it is empty exactly when the input is |
| Base64.EncodeChars | src/main/java/me/bechberger/comparison/Store.java:127 | the encoding uses only the Base64 alphabet and '=' |
| Base64.SextetValue | src/main/java/me/bechberger/comparison/Store.java:190 | decoding a character gives the sextet that encodes back to that character |
| Base64.DecodeEncode | src/main/java/me/bechberger/comparison/Store.java:190-193 | decoding the encoding of any byte string gives that byte string back |
| Numerals.IntRoundTrip | src/main/java/me/bechberger/comparison/Store.java:178 | Integer.parseInt(Integer.toString(i)) == i for every int |
| Numerals.DigitsRoundTrip | src/main/java/me/bechberger/comparison/Store.java:125 | reading the digits printed for n in any radix from 2 to 36 gives n |
| Numerals.ParseSigned | src/main/java/me/bechberger/comparison/Store.java:192 | a successful parse lies in the range of the target type |
| Numerals.TimeRoundTrip | src/main/java/me/bechberger/comparison/Store.java:192 | parseLong(toUnsignedString(t, 36), 36) gives t back exactly when t >= 0, and fails for every negative t |
| TextLines.ReadJoin | src/main/java/me/bechberger/comparison/Store.java:183 | reading back lines written with a line break after each gives exactly those lines, provided none contains a line break |
| TextLines.FirstLineCut | src/main/java/me/bechberger/comparison/Store.java:177 | a name containing a line break is read back only up to that break |
| TextLines.SplitFirstPiece | src/main/java/me/bechberger/comparison/Store.java:86 | `split` gives no piece exactly when the string is non-empty and all separators; otherwise the first piece is everything before the first separator |
| TextLines.SplitTwo | src/main/java/me/bechberger/comparison/Store.java:184 | a record line splits into exactly its time and its hash |
| TextLines.SplitTrailingSpace | src/main/java/me/bechberger/comparison/Store.java:184 | a non-empty word followed by one space splits into that word alone |
| Codec.Step | src/main/java/me/bechberger/comparison/Store.java:184-195 | a turn of the read loop never adds threads beyond the flushed map, and a non-empty line of spaces only (no piece after `split`, so `parts[0]` throws) makes it fail |
| Codec.HeaderStep | src/main/java/me/bechberger/comparison/Store.java:185-190 | a written header line flushes the current thread, if any, and starts the named thread; the pending list is kept when no thread was current |
| Codec.RecordStep | src/main/java/me/bechberger/comparison/Store.java:191-194 | a written record line with a non-negative time and a non-empty hash appends exactly that sample to the current list |
| Stores.ReadTurn | src/main/java/me/bechberger/comparison/Store.java:184-195 | the body of read's loop, as the update of (data, curThread, cur) that `Stores.Store.Read` performs each turn, equals `Codec.Step`; it is a method of its own so that Read's loop invariant speaks of one turn at a time, and the meaning of a turn is stated by `Codec.HeaderStep` and `Codec.RecordStep` |
| Codec.Parse | src/main/java/me/bechberger/comparison/Store.java:172-204 | a successful read has at least two lines, takes the name from the first and gets maxDepth by parsing the second as a decimal int |
| Stores.Store.Read | src/main/java/me/bechberger/comparison/Store.java:172-204 | read fails with "Could not read data" exactly when the parse fails; otherwise it gives a new store with the parsed name, maxDepth and map |
| Codec.RoundTrip | src/main/java/me/bechberger/comparison/Store.java:114-204 | reading what store wrote gives the same name, maxDepth and map for every thread order, provided the name has no line break, thread names survive getBytes/new String, and every sample has a non-negative time and a non-empty hash |
| Codec.NameWithLineBreakLost | src/main/java/me/bechberger/comparison/Store.java:116-117 | a store whose name contains a line break is not read back as itself |
| Codec.NegativeTimeRejected | src/main/java/me/bechberger/comparison/Store.java:125 | a written sample line with a negative time makes its read turn fail |
| Codec.NegativeTimeBreaksRead | src/main/java/me/bechberger/comparison/Store.java:125 | one negative time anywhere in a store, on a sample with a non-empty hash, makes the whole written file unreadable, for a name without a line break and any order listing every thread once |
| Codec.EmptyHashReadAsHeader | src/main/java/me/bechberger/comparison/Store.java:184-190 | a sample with an empty hash is written as a line with one piece, which the reader takes as a thread header |
| Codec.LeadingRecordsJoinFirstThread | src/main/java/me/bechberger/comparison/Store.java:180-190 | sample lines before the first header are kept and belong to the first thread |
| Codec.RecordsWithoutHeaderDropped | src/main/java/me/bechberger/comparison/Store.java:197-199 | in a file without a header line every sample is dropped |
| Codec.RepeatedHeaderReplaces | src/main/java/me/bechberger/comparison/Store.java:186-187 | a thread whose header appears twice keeps only the samples after the second header |
| Stores.Store.SampleCount | src/main/java/me/bechberger/comparison/Store.java:235 | the count is the total number of samples over all threads |
| Stores.CountHashes | src/main/java/me/bechberger/comparison/Store.java:226-229 | the inner loop adds one to the count of each hash of a thread's list |
| Stores.Store.AbsoluteHashDistribution | src/main/java/me/bechberger/comparison/Store.java:223-232 | the result maps every hash to its number of occurrences in the store, whatever the visiting order |
| Distributions.CountsSum | src/main/java/me/bechberger/comparison/Store.java:223-232 | the counts of a multiset sum to its size |
| Distributions.AbsoluteDistributionSpec | src/main/java/me/bechberger/comparison/Store.java:223-232 | every count is positive, and the counts sum to the number of samples |
| Stores.Store.RelativeHashDistribution | src/main/java/me/bechberger/comparison/Store.java:234-237 | the result is every count divided by the number of samples |
| Distributions.ScaledFrequencies | src/main/java/me/bechberger/comparison/Store.java:236 | positive counts summing to n, divided by n, lie in (0, 1] and sum to 1 |
| Distributions.RelativeDistributionSpec | src/main/java/me/bechberger/comparison/Store.java:234-237 | for a non-empty store the fingerprints are those of the absolute distribution, every frequency lies in (0, 1] and the frequencies sum to 1 |
| Distributions.RelativeEmpty | src/main/java/me/bechberger/comparison/Store.java:234-237 | the relative distribution is empty exactly when the store has no sample |
| Stores.Store.DifferencePercentagePoints | src/main/java/me/bechberger/comparison/Store.java:247-270 | stores of different maxDepth give the "Max depth does not match" error; otherwise the result is the divergence of the two relative distributions |
| Stores.CompareDistributions | src/main/java/me/bechberger/comparison/Store.java:255-263 | the loop sums the positive differences and the frequencies of fingerprints with no counterpart, whatever the visiting order |
| Distributions.MissingIffAbsent | src/main/java/me/bechberger/comparison/Store.java:260-261 | when the other distribution has only positive frequencies, a fingerprint counts as missing exactly when the other store lacks it |
| Distributions.DivergenceBounds | src/main/java/me/bechberger/comparison/Store.java:255-263 | 0 <= share missing <= summed difference <= the total mass of this distribution |
| Distributions.StoreDivergenceBounds | src/main/java/me/bechberger/comparison/Store.java:247-270 | between two stores, 0 <= share missing <= summed difference <= 1 |
| Distributions.DivergenceSelf | src/main/java/me/bechberger/comparison/Store.java:247-270 | a distribution compared with itself gives (0, 0) |
| Stores.Store.ComputeTimeDiffs | src/main/java/me/bechberger/comparison/Store.java:311-325 | every qualifying thread's list is re-sorted by time in place; the gaps returned are, as a multiset, the gaps of all qualifying threads |
| Stores.AppendGaps | src/main/java/me/bechberger/comparison/Store.java:319-322 | the inner loop appends the differences between consecutive times |
| Intervals.ResortedSpec | src/main/java/me/bechberger/comparison/Store.java:313-317 | re-sorting keeps every thread; each qualifying list becomes a time-sorted permutation of itself; the others are unchanged; the sample count is kept |
| Sorting.SortBy | src/main/java/me/bechberger/comparison/Store.java:317 | the sorted list is ordered by the key and is a permutation of the input |
| Sorting.SortByStable | src/main/java/me/bechberger/comparison/Store.java:317 | the sort is stable: for every key, the elements with that key appear in the same order as in the input |
| Sorting.InsertStable | src/main/java/me/bechberger/comparison/Store.java:317 | insertion places the new element behind every element with the same key |
| Intervals.ResortedStable | src/main/java/me/bechberger/comparison/Store.java:317 | after re-sorting, samples of a thread taken at the same time keep the order they were added in |
| Sorting.Insert | src/main/java/me/bechberger/comparison/Store.java:317 | inserting into a sorted list keeps it sorted and adds exactly the element |
| Intervals.GapsNonneg | src/main/java/me/bechberger/comparison/Store.java:320 | in a time-sorted list no gap is negative |
| Intervals.GapBagNonneg | src/main/java/me/bechberger/comparison/Store.java:317-322 | no gap of the whole store is negative |
| Intervals.GapBagSize | src/main/java/me/bechberger/comparison/Store.java:319-322 | there are as many gaps as qualifying non-empty threads' samples, minus one per such thread |
| Stores.Store.ComputeInterval | src/main/java/me/bechberger/comparison/Store.java:295-305 | the lists are re-sorted as computeTimeDiffs does; the gaps are sorted and are those of the qualifying threads; the result is the summary of those gaps with the original sample count |
| Intervals.IntervalOf | src/main/java/me/bechberger/comparison/Store.java:295-305 | the summary fails exactly when there is no gap |
| Intervals.IntervalSpec | src/main/java/me/bechberger/comparison/Store.java:296-304 | over sorted gaps, min <= 10th percentile <= 90th percentile <= max; min and max are the first and last gap; the average lies in [min, max]; the trimmed average does too, or is 0 when the trimmed list is empty |
| Intervals.IntervalOrderIndependent | src/main/java/me/bechberger/comparison/Store.java:297-298 | two sorted gap lists holding the same gaps give the same summary, so the thread visiting order does not matter |
| Sorting.SortedUnique | src/main/java/me/bechberger/comparison/Store.java:298 | two sorted lists holding the same elements are equal |
| Intervals.PercentileIndices | src/main/java/me/bechberger/comparison/Store.java:299-300 | the 10% index is at most the 90% index, and for a non-empty list both are in range |
| Intervals.Trimmed | src/main/java/me/bechberger/comparison/Store.java:301 | the trimmed list runs from the 10% index to the 90% index and holds only gaps of the list |
| Intervals.SeqMin | src/main/java/me/bechberger/comparison/Store.java:302 | the minimum is one of the gaps and no gap is below it |
| Intervals.SeqMax | src/main/java/me/bechberger/comparison/Store.java:302 | the maximum is one of the gaps and no gap is above it |
| Intervals.AverageBounds | src/main/java/me/bechberger/comparison/Store.java:302-304 | the truncated average of a non-empty list lies between its minimum and its maximum |

## Left out

- `readJFR` (lines 136-170) and the `RecordedStackTrace` adapter (lines 106-108) read JFR recordings. The JFR reader is not part of this model.
- The `StackTraceElement[]` adapter (lines 110-112) only wraps the array. Frames are modelled as class name and method name pairs given to `Stores.Store.Add`.
- File I/O is not modelled. `Save` returns the text and `Read` takes it.
- The `.jfr` guard of `read` depends on the path and is not modelled.
- Every exception inside `read` is reported as the single error "Could not read data", as the code does.
- SHA-256 is not modelled. The `Runtime` parameter carries it as an uninterpreted function. The thread-local digest instance and its lazy creation are not modelled either.
- `String.getBytes` and `new String(byte[])` depend on the platform charset. They are `Runtime` parameters, and the round trip demands that thread names survive them.
- `BufferedWriter.newLine` is taken to write "\n". `readLine` also accepts "\r" and "\r\n".
- `Numerals.ParseSigned`: only ASCII digits and letters are accepted. `Character.digit`'s other Unicode digits are not modelled.
- `stddev` (lines 307-309) and the two standard-deviation fields of `ComputedInterval` use floating-point square roots, so they are left out.
- `Intervals.Average`: the double average cast to long is modelled as exact division truncated toward zero. Floating-point rounding and a long overflow of the sum are not modelled.
- `Intervals.TenPercIndex`: `(int) (n * 0.1)` and `(int) (n * 0.9)` are modelled as `n / 10` and `n * 9 / 10`. The double rounding of the product is not modelled.
- `Distributions.RelativeDistribution`: float division and float sums are modelled as exact real arithmetic.
- `Distributions.Divergence` (and with it `Distributions.MissingIffAbsent`): the float subtraction `diff` and the float equality test `diff == entry.getValue()` are exact in the model. In floats a tiny positive frequency in the other store can vanish in the subtraction, so such a fingerprint counts as missing although the other store has it; `MissingIffAbsent` holds of the exact-real model only.
- `Intervals.Gaps`: the long subtraction of two times is exact in the model. Its overflow is not modelled.
- `Stores.Store.SampleCount`: the int sum of list sizes is exact. An overflow past 2^31 samples is not modelled. The same holds for the counts of `AbsoluteHashDistribution`.
- `Stores.Store.ComputeTimeDiffs`: the gaps are specified as a multiset. The order in which they are returned depends on the map's iteration order, and `ComputeInterval` sorts them anyway.
- `Sorting.SortBy`: `List.sort` (TimSort) is modelled by an insertion sort. Both are stable (`Sorting.SortByStable`), so they give the same sorted list; the JDK algorithm itself is not modelled.
- `Stores.Store.Save`: the thread order is returned beside the text and is left unspecified beyond listing every thread once, as HashMap iteration guarantees nothing more.
- `Codec.RoundTrip` also requires non-empty hashes. SHA-256 always gives 32 bytes, and `EmptyHashReadAsHeader` shows what an empty hash does.
- The three-argument constructor `Store(String, int, Map)` (lines 29-33, `Stores.Store.constructor`) stores the caller's map itself, so later changes through either reference are shared. The model copies the map value.
- `intervalsToTable` (lines 284-293) only formats text. The getters (lines 50-56, 327-329) and `HashWrapper` are not modelled: hashes are compared by value in the model, which is what `HashWrapper.equals` provides (lines 213-215).
- `SamplingAgent` and `Main` only call the store and are not part of this model.
- The loops of `add`, `store`, `getAbsoluteHashDistribution`, `differencePercentagePoints` and `computeTimeDiffs` are written as `Stores` methods that the class methods call. Those methods work on the values of the store's fields.
