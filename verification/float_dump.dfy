/**
 * `DumpFloats` and `CompareWithDump`: the two consumers of the sweep that move a
 * candidate function's outputs through a flat binary file of floats, one block
 * of `BuffSize` entries at a time.
 *
 * Floats are left abstract (the type parameter `F`); a candidate function is a
 * map from the visited word to its output. The file is the sequence of floats it
 * holds. `F` values are only stored, copied and paired, never computed with.
 */
module FloatDump {
  import opened Wrappers
  import opened FloatBits
  import FloatSweep

  /** `TestData::buffSize` of both the writer and the reader. */
  const BuffSize: nat := 10 * 1024

  /** Whole blocks needed to hold `n` entries. */
  function BlocksFor(n: nat): nat {
    (n + BuffSize - 1) / BuffSize
  }

  // ---------------------------------------------------------------------------
  // Writer
  // ---------------------------------------------------------------------------

  /** The writer's `buff`, `usedBuff` and everything written to the file so far. */
  datatype DumpState<F> = DumpState(buff: seq<F>, used: nat, file: seq<F>)

  predicate WriterReady<F>(s: DumpState<F>) {
    |s.buff| == BuffSize && s.used < BuffSize
  }

  /** `writeData()`: writes the WHOLE buffer, used or not, then empties it. */
  function WriteData<F>(s: DumpState<F>): (r: DumpState<F>)
    requires |s.buff| == BuffSize
    ensures r.file == s.file + s.buff && |r.file| == |s.file| + BuffSize
    ensures r.buff == s.buff && r.used == 0
  {
    DumpState(s.buff, 0, s.file + s.buff)
  }

  /**
   * `internalOp` of the writer: store the output in the next slot; flush when the
   * buffer is full. The stream of outputs (file followed by the used part of the
   * buffer) grows by exactly the new value, and the buffer is never left full.
   */
  function DumpVisit<F>(s: DumpState<F>, value: F): (r: DumpState<F>)
    requires WriterReady(s)
    ensures WriterReady(r)
    ensures r.used == (s.used + 1) % BuffSize
    ensures r.file + r.buff[..r.used] == s.file + s.buff[..s.used] + [value]
    ensures r.used == 0 ==> r.file == s.file + r.buff
    ensures r.used != 0 ==> r.file == s.file
    ensures forall p :: s.used < p < BuffSize ==> r.buff[p] == s.buff[p]
  {
    var filled := DumpState(s.buff[s.used := value], s.used + 1, s.file);
    if filled.used >= BuffSize then
      assert filled.buff == s.buff[..s.used] + [value];
      WriteData(filled)
    else
      assert filled.buff[..filled.used] == s.buff[..s.used] + [value];
      filled
  }

  /** The stream position arithmetic behind the final partial flush. */
  lemma FlushedLength(n: nat)
    ensures n % BuffSize == 0 ==> n == BlocksFor(n) * BuffSize
    ensures n % BuffSize != 0 ==> n - n % BuffSize + BuffSize == BlocksFor(n) * BuffSize
  {
    var q := n / BuffSize;
    var r := n % BuffSize;
    assert n == q * BuffSize + r;
    if r == 0 {
      assert (n + BuffSize - 1) / BuffSize == q;
    } else {
      assert n + BuffSize - 1 == (q + 1) * BuffSize + (r - 1);
      assert (n + BuffSize - 1) / BuffSize == q + 1;
    }
  }

  /** What an unused buffer slot `p` holds: the value written one block earlier, or its initial contents. */
  ghost function Stale<F>(file: seq<F>, initial: seq<F>, p: nat): F
    requires |initial| == BuffSize && p < BuffSize
  {
    if |file| >= BuffSize then file[|file| - BuffSize + p] else initial[p]
  }

  /**
   * The writer after the outputs `outs`: whole blocks in the file, the rest in the
   * buffer, and every unused slot stale.
   */
  ghost predicate Written<F>(s: DumpState<F>, outs: seq<F>, initial: seq<F>) {
    && |initial| == BuffSize
    && WriterReady(s)
    && s.used == |outs| % BuffSize
    && |s.file| == |outs| - s.used
    && s.file + s.buff[..s.used] == outs
    && forall p :: s.used <= p < BuffSize ==> s.buff[p] == Stale(s.file, initial, p)
  }

  lemma {:induction false} VisitKeepsWritten<F>(s: DumpState<F>, outs: seq<F>, initial: seq<F>, value: F)
    requires Written(s, outs, initial)
    ensures Written(DumpVisit(s, value), outs + [value], initial)
  {
    var r := DumpVisit(s, value);
    assert |outs + [value]| % BuffSize == (s.used + 1) % BuffSize;
    if r.used == 0 {
      forall p | 0 <= p < BuffSize
        ensures r.buff[p] == Stale(r.file, initial, p)
      {
        assert r.file[|r.file| - BuffSize + p] == r.buff[p];
      }
    } else {
      assert r.file == s.file && r.used == s.used + 1;
      forall p | r.used <= p < BuffSize
        ensures r.buff[p] == Stale(r.file, initial, p)
      {
        assert r.buff[p] == s.buff[p];
      }
    }
  }

  /** `execute`'s final step: a partly used buffer is written out whole. */
  function DumpFinish<F>(s: DumpState<F>): (r: DumpState<F>)
    requires |s.buff| == BuffSize
    ensures s.used > 0 ==> r.file == s.file + s.buff
    ensures s.used == 0 ==> r.file == s.file
  {
    if s.used > 0 then WriteData(s) else s
  }

  lemma {:induction false} FinishedFile<F>(s: DumpState<F>, outs: seq<F>, initial: seq<F>)
    requires Written(s, outs, initial)
    ensures |DumpFinish(s).file| == BlocksFor(|outs|) * BuffSize
    ensures DumpFinish(s).file[..|outs|] == outs
    ensures forall k :: |outs| <= k < |DumpFinish(s).file| ==>
              DumpFinish(s).file[k] == (if k >= BuffSize then outs[k - BuffSize] else initial[k])
  {
    FlushedLength(|outs|);
    var file := DumpFinish(s).file;
    if s.used > 0 {
      assert file[..|outs|] == s.file + s.buff[..s.used];
      forall k | |outs| <= k < |file|
        ensures file[k] == (if k >= BuffSize then outs[k - BuffSize] else initial[k])
      {
        var p := k - |s.file|;
        assert file[k] == s.buff[p];
        if k >= BuffSize {
          assert s.file[|s.file| - BuffSize + p] == outs[k - BuffSize];
        }
      }
    }
  }

  /** The writer as `DumpFloats::TestData` constructs it: empty buffer of arbitrary contents. */
  function NewWriter<F>(initial: seq<F>): (s: DumpState<F>)
    requires |initial| == BuffSize
    ensures WriterReady(s) && s.buff == initial && s.used == 0 && s.file == []
  {
    DumpState(initial, 0, [])
  }

  /** The writer after visiting `outs` in order, one `internalOp` call each. */
  function DumpAll<F>(initial: seq<F>, outs: seq<F>): (s: DumpState<F>)
    requires |initial| == BuffSize
    ensures WriterReady(s)
  {
    if |outs| == 0 then NewWriter(initial)
    else DumpVisit(DumpAll(initial, outs[..|outs| - 1]), outs[|outs| - 1])
  }

  lemma {:induction false} DumpAllWritten<F>(initial: seq<F>, outs: seq<F>)
    requires |initial| == BuffSize
    ensures Written(DumpAll(initial, outs), outs, initial)
  {
    if |outs| > 0 {
      var front := outs[..|outs| - 1];
      DumpAllWritten(initial, front);
      VisitKeepsWritten(DumpAll(initial, front), front, initial, outs[|outs| - 1]);
      assert front + [outs[|outs| - 1]] == outs;
    }
  }

  /** The file after writing `outs` and the final flush. */
  function DumpFile<F>(initial: seq<F>, outs: seq<F>): seq<F>
    requires |initial| == BuffSize
  {
    DumpFinish(DumpAll(initial, outs)).file
  }

  /**
   * The dump of `outs`: whole blocks, the outputs first, then stale slots holding
   * the output one block earlier (or, within the first block, the initial buffer).
   */
  lemma DumpedFile<F>(initial: seq<F>, outs: seq<F>)
    requires |initial| == BuffSize
    ensures |DumpFile(initial, outs)| == BlocksFor(|outs|) * BuffSize
    ensures DumpFile(initial, outs)[..|outs|] == outs
    ensures forall k :: |outs| <= k < |DumpFile(initial, outs)| ==>
              DumpFile(initial, outs)[k] == (if k >= BuffSize then outs[k - BuffSize] else initial[k])
  {
    DumpAllWritten(initial, outs);
    FinishedFile(DumpAll(initial, outs), outs, initial);
  }

  /** `DumpedFile` restated for outputs computed by `op` from the visited words. */
  lemma DumpedOutputs<F>(inputs: seq<int32>, op: int32 -> F, initial: seq<F>, outs: seq<F>)
    requires |initial| == BuffSize
    requires |outs| == |inputs| && forall k :: 0 <= k < |inputs| ==> outs[k] == op(inputs[k])
    ensures |DumpFile(initial, outs)| % BuffSize == 0
    ensures |DumpFile(initial, outs)| == BlocksFor(|inputs|) * BuffSize
    ensures forall k :: 0 <= k < |inputs| ==> DumpFile(initial, outs)[k] == op(inputs[k])
    ensures forall k :: |inputs| <= k < |DumpFile(initial, outs)| ==>
              DumpFile(initial, outs)[k] == (if k >= BuffSize then op(inputs[k - BuffSize]) else initial[k])
  {
    DumpedFile(initial, outs);
    var file := DumpFile(initial, outs);
    assert forall k :: 0 <= k < |inputs| ==> file[k] == file[..|outs|][k];
  }

  /**
   * `DumpFloats<op>::execute`: sweep the given words, write `op` of each through
   * the buffer, and flush the partly used last buffer as a whole block.
   *
   * The file is whole blocks; its first `|inputs|` entries are the outputs in
   * visit order; every entry past them is a stale buffer slot holding the output
   * one block earlier or, within the first block, the buffer's initial contents.
   */
  method DumpFloats<F>(inputs: seq<int32>, op: int32 -> F, initial: seq<F>) returns (file: seq<F>)
    requires |initial| == BuffSize
    ensures |file| % BuffSize == 0
    ensures |file| == BlocksFor(|inputs|) * BuffSize
    ensures forall k :: 0 <= k < |inputs| ==> file[k] == op(inputs[k])
    ensures forall k :: |inputs| <= k < |file| ==>
              file[k] == (if k >= BuffSize then op(inputs[k - BuffSize]) else initial[k])
  {
    var s := NewWriter(initial);
    ghost var outs: seq<F> := [];
    var j := 0;
    while j < |inputs|
      invariant 0 <= j <= |inputs|
      invariant |outs| == j && forall k :: 0 <= k < j ==> outs[k] == op(inputs[k])
      invariant s == DumpAll(initial, outs)
    {
      var value := op(inputs[j]);
      s := DumpVisit(s, value);
      outs := outs + [value];
      assert outs[..|outs| - 1] == outs[..j];
      j := j + 1;
    }
    DumpedOutputs(inputs, op, initial, outs);
    file := DumpFinish(s).file;
  }

  // ---------------------------------------------------------------------------
  // Reader
  // ---------------------------------------------------------------------------

  /** One triple handed to `ErrorTestData::update`: input, stored reference, new output. */
  datatype Sample<F> = Sample(input: int32, reference: F, tested: F)

  /** The reader's `buff`, `usedBuff`, `consumedBuff` and the stream position (in floats). */
  datatype ReaderState<F> = ReaderState(buff: seq<F>, used: nat, consumed: nat, pos: nat)

  /** How many stored values have been handed out so far. */
  function Taken<F>(s: ReaderState<F>): int {
    s.pos - s.used + s.consumed
  }

  /** The buffer holds the `used` stored values that end at the stream position. */
  ghost predicate ReaderInv<F>(s: ReaderState<F>, stored: seq<F>) {
    && |s.buff| == BuffSize
    && s.consumed <= s.used <= BuffSize
    && s.used <= s.pos <= |stored|
    && s.buff[..s.used] == stored[s.pos - s.used..s.pos]
  }

  /** `TestData()` of the comparer: zero-filled buffer, nothing read or consumed. */
  function NewReader<F>(zero: F): (s: ReaderState<F>)
    ensures |s.buff| == BuffSize && s.used == 0 && s.consumed == 0 && s.pos == 0
    ensures forall p :: 0 <= p < BuffSize ==> s.buff[p] == zero
  {
    ReaderState(seq(BuffSize, _ => zero), 0, 0, 0)
  }

  /**
   * `readData()` with the used count taken as the number of floats the read
   * actually delivered: up to one block from the stream position; the rest of
   * the buffer keeps its old contents.
   */
  function ReadData<F>(s: ReaderState<F>, stored: seq<F>): (r: ReaderState<F>)
    requires |s.buff| == BuffSize && s.pos <= |stored|
    ensures ReaderInv(r, stored) && r.consumed == 0
    ensures r.pos == s.pos + r.used
    ensures r.used == if |stored| - s.pos < BuffSize then |stored| - s.pos else BuffSize
  {
    var n := if |stored| - s.pos < BuffSize then |stored| - s.pos else BuffSize;
    var r := ReaderState(stored[s.pos..s.pos + n] + s.buff[n..], n, 0, s.pos + n);
    assert r.buff[..n] == stored[s.pos..s.pos + n];
    r
  }

  /**
   * `internalOp` of the comparer: refill the buffer when it is used up; skip the
   * input when the refill brings nothing; otherwise pair the input with the next
   * stored value.
   *
   * The k-th input that is not skipped gets the k-th stored value, and an input
   * is skipped exactly when every stored value has been handed out.
   */
  function CompareVisit<F>(s: ReaderState<F>, stored: seq<F>, op: int32 -> F, input: int32): (r: (ReaderState<F>, Option<Sample<F>>))
    requires ReaderInv(s, stored)
    ensures ReaderInv(r.0, stored)
    ensures r.1.Some? <==> Taken(s) < |stored|
    ensures r.1.Some? ==> r.1.value == Sample(input, stored[Taken(s)], op(input)) && Taken(r.0) == Taken(s) + 1
    ensures r.1.None? ==> Taken(r.0) == Taken(s) == |stored|
  {
    var s1 := if s.consumed >= s.used then ReadData(s, stored) else s;
    assert Taken(s1) == Taken(s);
    if s1.consumed >= s1.used then
      (s1, None)
    else
      BufferedValue(s1, stored);
      (s1.(consumed := s1.consumed + 1), Some(Sample(input, s1.buff[s1.consumed], op(input))))
  }

  /** The next unconsumed buffer slot holds the next stored value not yet handed out. */
  lemma BufferedValue<F>(s: ReaderState<F>, stored: seq<F>)
    requires ReaderInv(s, stored) && s.consumed < s.used
    ensures Taken(s) < |stored| && s.buff[s.consumed] == stored[Taken(s)]
  {
    assert s.buff[s.consumed] == s.buff[..s.used][s.consumed];
  }

  /**
   * `CompareWithDump<op>::execute` over the given sweep and stored file: the k-th
   * input is paired with the k-th stored value; once the stored values run out,
   * the remaining inputs produce nothing.
   */
  method CompareWithDump<F>(inputs: seq<int32>, stored: seq<F>, op: int32 -> F, zero: F) returns (samples: seq<Sample<F>>)
    ensures |samples| == if |inputs| < |stored| then |inputs| else |stored|
    ensures forall k :: 0 <= k < |samples| ==> samples[k] == Sample(inputs[k], stored[k], op(inputs[k]))
  {
    var s := NewReader(zero);
    samples := [];
    var j := 0;
    while j < |inputs|
      invariant 0 <= j <= |inputs|
      invariant ReaderInv(s, stored)
      invariant Taken(s) == |samples| == if j < |stored| then j else |stored|
      invariant forall k :: 0 <= k < |samples| ==> samples[k] == Sample(inputs[k], stored[k], op(inputs[k]))
    {
      var step := CompareVisit(s, stored, op, inputs[j]);
      if step.1.Some? {
        assert step.1.value == Sample(inputs[|samples|], stored[|samples|], op(inputs[|samples|]));
        samples := samples + [step.1.value];
      }
      s := step.0;
      j := j + 1;
    }
  }

  /**
   * Dumping a candidate and comparing the same candidate against that dump over
   * the same sweep pairs every input with the candidate's own output twice, so
   * every sample has zero error.
   */
  method CompareAgainstOwnDump<F>(inputs: seq<int32>, op: int32 -> F, initial: seq<F>, zero: F)
    returns (samples: seq<Sample<F>>, asWritten: Result<seq<Sample<F>>, ReadPastBuffer>)
    requires |initial| == BuffSize
    ensures |samples| == |inputs|
    ensures forall k :: 0 <= k < |samples| ==>
              samples[k].input == inputs[k] && samples[k].reference == samples[k].tested == op(inputs[k])
    ensures asWritten == Success(samples)
  {
    var file := DumpFloats(inputs, op, initial);
    FlushedLength(|inputs|);
    samples := CompareWithDump(inputs, file, op, zero);
    asWritten := CompareAsWritten(NewStreamReader(zero), file, op, inputs);
    WholeBlockDumpAsWritten(file, op, zero, inputs);
    assert asWritten.value == samples;
  }

  // ---------------------------------------------------------------------------
  // Reader, as written
  // ---------------------------------------------------------------------------

  /** `size_t` on a 64-bit build: arithmetic wraps modulo 2^64. */
  const SizeTModulus: int := 0x1_0000_0000_0000_0000

  /** The reader with the stream's failure state, which decides what `tellg()` reports. */
  datatype StreamReader<F> = StreamReader(buff: seq<F>, used: nat, consumed: nat, pos: nat, failed: bool)

  function NewStreamReader<F>(zero: F): (s: StreamReader<F>)
    ensures |s.buff| == BuffSize && s.used == 0 && s.consumed == 0 && s.pos == 0 && !s.failed
  {
    StreamReader(seq(BuffSize, _ => zero), 0, 0, 0, false)
  }

  /** `tellg()`: the byte offset, or -1 once the stream has failed. */
  function TellG(pos: nat, failed: bool): (t: int)
    ensures t == -1 <==> failed
    ensures !failed ==> t >= 0 && t % 4 == 0 && t / 4 == pos
  {
    if failed then -1 else 4 * pos
  }

  /**
   * `readData()` as written: the used count is the difference of the two `tellg()`
   * readings, divided by `sizeof(float)` in `size_t` arithmetic. A read that
   * delivers less than a whole block sets the failure state, so the second reading
   * is -1 and the count wraps around to a huge value.
   */
  function ReadDataAsWritten<F>(s: StreamReader<F>, stored: seq<F>): (r: StreamReader<F>)
    requires |s.buff| == BuffSize && s.pos <= |stored|
    ensures |r.buff| == BuffSize && r.pos <= |stored| && r.consumed == 0
    ensures !s.failed && |stored| - s.pos >= BuffSize ==> r.used == BuffSize && !r.failed
    ensures !s.failed && |stored| - s.pos >= BuffSize ==>
              r.pos == s.pos + BuffSize && r.buff == stored[s.pos..s.pos + BuffSize]
    ensures !s.failed && |stored| - s.pos < BuffSize && 4 * s.pos < SizeTModulus ==>
              r.used == SizeTModulus / 4 - 1 - s.pos && r.failed
  {
    var beginPos := TellG(s.pos, s.failed);
    var n := if s.failed then 0 else if |stored| - s.pos < BuffSize then |stored| - s.pos else BuffSize;
    var failed := s.failed || n < BuffSize;
    var endPos := TellG(s.pos + n, failed);
    var used := ((endPos - beginPos) % SizeTModulus) / 4;
    assert !s.failed && failed && 4 * s.pos < SizeTModulus ==>
      (endPos - beginPos) % SizeTModulus == SizeTModulus - 1 - 4 * s.pos;
    StreamReader(stored[s.pos..s.pos + n] + s.buff[n..], used, 0, s.pos + n, failed)
  }

  /** Reading `buff[consumedBuff]` past the end of the buffer. */
  datatype ReadPastBuffer = ReadPastBuffer(index: nat)

  /** `CompareWithDump<op>` as written, over the given inputs. */
  function CompareAsWritten<F>(s: StreamReader<F>, stored: seq<F>, op: int32 -> F, inputs: seq<int32>)
    : (r: Result<seq<Sample<F>>, ReadPastBuffer>)
    requires |s.buff| == BuffSize && s.pos <= |stored|
    ensures r.Success? ==> |r.value| <= |inputs|
    ensures r.Success? ==> forall k :: 0 <= k < |r.value| ==> r.value[k].tested == op(r.value[k].input)
    ensures r.Failure? ==> r.error.index >= BuffSize
    decreases |inputs|
  {
    if |inputs| == 0 then Success([])
    else
      var s1 := NextReader(s, stored);
      if s1.consumed >= s1.used then
        CompareAsWritten(s1, stored, op, inputs[1..])
      else if s1.consumed >= BuffSize then
        Failure(ReadPastBuffer(s1.consumed))
      else
        var rest :- CompareAsWritten(s1.(consumed := s1.consumed + 1), stored, op, inputs[1..]);
        Success([Sample(inputs[0], s1.buff[s1.consumed], op(inputs[0]))] + rest)
  }

  /**
   * With an empty dump the first visit is not skipped: the failed read leaves
   * `usedBuff` at 2^62 - 1, so the input is paired with the zero left in the
   * buffer by the constructor. `CompareWithDump` pairs nothing here.
   */
  lemma ShortDumpPairsStaleValue<F>(op: int32 -> F, zero: F)
    ensures ReadDataAsWritten(NewStreamReader(zero), []).used == 0x3FFF_FFFF_FFFF_FFFF
    ensures CompareAsWritten(NewStreamReader(zero), [], op, [0]) == Success([Sample(0, zero, op(0))])
  {
    var s := NewStreamReader(zero);
    var s1 := ReadDataAsWritten(s, []);
    assert s1.buff[0] == zero;
    assert s1.consumed == 0 < s1.used;
    var rest := CompareAsWritten(s1.(consumed := 1), [], op, [0][1..]);
    assert rest == Success([]);
    assert CompareAsWritten(s, [], op, [0]) == Success([Sample(0, zero, op(0))] + rest.value);
    assert [Sample(0, zero, op(0))] + rest.value == [Sample(0, zero, op(0))];
  }

  /**
   * The as-written reader while every read so far delivered a whole block: the
   * stream is good, and the buffer holds the block that ends at the stream
   * position (or nothing yet).
   */
  ghost predicate WholeBlocks<F>(s: StreamReader<F>, stored: seq<F>) {
    && !s.failed && |s.buff| == BuffSize
    && s.consumed <= s.used <= s.pos <= |stored|
    && (s.used == BuffSize || s.used == 0)
    && s.pos % BuffSize == 0 && |stored| % BuffSize == 0
    && s.buff[..s.used] == stored[s.pos - s.used..s.pos]
  }

  /** Between two multiples of the block size lies at least one whole block. */
  lemma BlockGap(x: nat, y: nat)
    requires x % BuffSize == 0 && y % BuffSize == 0 && x < y
    ensures y - x >= BuffSize
  {
    var a, b := x / BuffSize, y / BuffSize;
    assert x == a * BuffSize && y == b * BuffSize;
    assert a < b;
    assert y - x == (b - a) * BuffSize;
  }

  /** The reader `CompareAsWritten` takes the next value from. */
  function NextReader<F>(s: StreamReader<F>, stored: seq<F>): (s1: StreamReader<F>)
    requires |s.buff| == BuffSize && s.pos <= |stored|
    ensures |s1.buff| == BuffSize && s1.pos <= |stored|
    ensures s.consumed < s.used ==> s1 == s
  {
    if s.consumed >= s.used then ReadDataAsWritten(s, stored) else s
  }

  /**
   * While a value is left in the file, the next reader of a whole-block reader
   * still reads whole blocks and holds that value at its consumed index.
   */
  lemma NextReaderWholeBlocks<F>(s: StreamReader<F>, stored: seq<F>)
    requires WholeBlocks(s, stored) && s.pos - s.used + s.consumed < |stored|
    ensures var s1 := NextReader(s, stored);
            && WholeBlocks(s1, stored) && s1.consumed < s1.used
            && s1.pos - s1.used + s1.consumed == s.pos - s.used + s.consumed
            && s1.buff[s1.consumed] == stored[s.pos - s.used + s.consumed]
  {
    var s1 := NextReader(s, stored);
    if s.consumed >= s.used {
      BlockGap(s.pos, |stored|);
      assert s1.buff[..s1.used] == stored[s1.pos - s1.used..s1.pos];
    }
    assert s1.buff[s1.consumed] == s1.buff[..s1.used][s1.consumed];
  }

  /** The samples pair each input with the stored values from index `t` on. */
  ghost predicate PairedFrom<F>(r: seq<Sample<F>>, inputs: seq<int32>, stored: seq<F>, op: int32 -> F, t: nat) {
    && |r| == |inputs| && t + |inputs| <= |stored|
    && forall k :: 0 <= k < |inputs| ==> r[k] == Sample(inputs[k], stored[t + k], op(inputs[k]))
  }

  lemma PairedCons<F>(x: Sample<F>, rest: seq<Sample<F>>, inputs: seq<int32>, stored: seq<F>, op: int32 -> F, t: nat)
    requires |inputs| > 0 && t < |stored| && x == Sample(inputs[0], stored[t], op(inputs[0]))
    requires PairedFrom(rest, inputs[1..], stored, op, t + 1)
    ensures PairedFrom([x] + rest, inputs, stored, op, t)
  {
    var r := [x] + rest;
    forall k | 0 <= k < |inputs|
      ensures r[k] == Sample(inputs[k], stored[t + k], op(inputs[k]))
    {
      if k > 0 {
        assert r[k] == rest[k - 1];
        assert inputs[1..][k - 1] == inputs[k];
      }
    }
  }

  /**
   * On a file of whole blocks with a stored value for every remaining input, the
   * as-written reader never reads short, so it pairs the inputs with the stored
   * values in order, from the ones not yet handed out.
   */
  lemma {:induction false} WholeBlocksAsWritten<F>(s: StreamReader<F>, stored: seq<F>, op: int32 -> F, inputs: seq<int32>)
    requires WholeBlocks(s, stored)
    requires s.pos - s.used + s.consumed + |inputs| <= |stored|
    ensures var r := CompareAsWritten(s, stored, op, inputs);
            r.Success? && PairedFrom(r.value, inputs, stored, op, s.pos - s.used + s.consumed)
    decreases |inputs|
  {
    var t := s.pos - s.used + s.consumed;
    if |inputs| > 0 {
      var s1 := NextReader(s, stored);
      var s2 := s1.(consumed := s1.consumed + 1);
      assert && WholeBlocks(s2, stored) && s1.consumed < s1.used
             && s2.pos - s2.used + s2.consumed == t + 1 && s1.buff[s1.consumed] == stored[t] by {
        NextReaderWholeBlocks(s, stored);
      }
      WholeBlocksAsWritten(s2, stored, op, inputs[1..]);
      var rest := CompareAsWritten(s2, stored, op, inputs[1..]);
      var x := Sample(inputs[0], stored[t], op(inputs[0]));
      assert CompareAsWritten(s, stored, op, inputs) == Success([x] + rest.value);
      PairedCons(x, rest.value, inputs, stored, op, t);
    } else {
      assert CompareAsWritten(s, stored, op, inputs) == Success([]);
    }
  }

  /**
   * The misreading of a short block never shows on a dump of whole blocks that
   * holds a value for every input: there `CompareAsWritten` gives the samples
   * `CompareWithDump` gives, the k-th input paired with the k-th stored value.
   */
  lemma WholeBlockDumpAsWritten<F>(stored: seq<F>, op: int32 -> F, zero: F, inputs: seq<int32>)
    requires |stored| % BuffSize == 0 && |inputs| <= |stored|
    ensures CompareAsWritten(NewStreamReader(zero), stored, op, inputs).Success?
    ensures var r := CompareAsWritten(NewStreamReader(zero), stored, op, inputs).value;
            |r| == |inputs| && forall k :: 0 <= k < |inputs| ==> r[k] == Sample(inputs[k], stored[k], op(inputs[k]))
  {
    WholeBlocksAsWritten(NewStreamReader(zero), stored, op, inputs);
  }

  /**
   * The dump of a whole sweep: its 0x7F800001 outputs need 208897 blocks, so the
   * last block holds one output (for +infinity, the sweep's last visit) followed
   * by 10239 stale entries, each the output one block earlier.
   */
  lemma SweepDump<F>(visits: seq<int32>, op: int32 -> F, initial: seq<F>, outs: seq<F>)
    requires |visits| == FloatSweep.VisitCount && |initial| == BuffSize
    requires |outs| == |visits| && forall k :: 0 <= k < |visits| ==> outs[k] == op(visits[k])
    ensures |DumpFile(initial, outs)| == 208897 * BuffSize
    ensures |DumpFile(initial, outs)| - |visits| == BuffSize - 1
    ensures forall k :: |visits| <= k < |DumpFile(initial, outs)| ==> DumpFile(initial, outs)[k] == op(visits[k - BuffSize])
  {
    DumpedOutputs(visits, op, initial, outs);
    assert BlocksFor(|visits|) == 208897;
  }
}
