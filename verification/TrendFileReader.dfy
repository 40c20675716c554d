/** The trend file readers: the newest record, a strided sample of a time range, and the
    record count. Each works on the bytes alone and must agree with the append history. */
module TrendFileReader {
  import opened TndFormat
  import opened Wrappers
  import TrendFileWriter

  function LastOf(recs: seq<Record>): Option<seq<byte>> {
    if recs == [] then None else Some(recs[|recs| - 1])
  }

  // FREQ, the sample interval in seconds, as stored in the fixed header.
  function Freq(file: seq<byte>): nat
    requires |file| >= 512
  {
    file[12] as int + 256 * file[13] as int
  }

  // A record index lies in the sampled data exactly when it is counted by its block.
  lemma RecordVisible(file: seq<byte>, recs: seq<Record>, ri: nat)
    requires Shows(file, recs)
    ensures ri < |recs| ==> HeaderInFile(|file|, ri / 31) && HoldsRecord(file, ri, recs[ri])
    ensures HeaderInFile(|file|, ri / 31) ==> (ri % 31 < DataCnt(file, ri / 31) <==> ri < |recs|)
  {
    if ri < |recs| {
      assert HoldsRecord(file, ri, recs[ri]);
    }
    if HeaderInFile(|file|, ri / 31) {
      assert DataCnt(file, ri / 31) == Filled(|recs|, ri / 31);
    }
  }

  // Which block the backward walk must stop at.
  lemma NewestBlock(file: seq<byte>, recs: seq<Record>, blk: nat)
    requires Shows(file, recs) && HeaderInFile(|file|, blk)
    requires recs != [] ==> (|recs| - 1) / 31 <= blk
    ensures DataCnt(file, blk) == 0 <==> recs == [] || (|recs| - 1) / 31 < blk
    ensures DataCnt(file, blk) != 0 ==>
              && HoldsRecord(file, |recs| - 1, recs[|recs| - 1])
              && RecordOffset(|recs| - 1) == BlockOffset(blk) + 8 + (DataCnt(file, blk) - 1) * 32
  {
    assert DataCnt(file, blk) == Filled(|recs|, blk);
    if recs != [] {
      assert HoldsRecord(file, |recs| - 1, recs[|recs| - 1]);
    }
  }

  // The backward walk from block `blkIdx`.
  function LatestFrom(file: seq<byte>, blkIdx: int): Option<seq<byte>>
    requires blkIdx >= -1
    decreases blkIdx
  {
    if blkIdx < 0 then None
    else if !HeaderInFile(|file|, blkIdx) || DataCnt(file, blkIdx) == 0 then LatestFrom(file, blkIdx - 1)
    else
      var recOff := BlockOffset(blkIdx) + 8 + (DataCnt(file, blkIdx) - 1) * 32;
      if recOff + 32 > |file| then LatestFrom(file, blkIdx - 1)
      else Some(file[recOff..recOff + 32])
  }

  // The block the walk starts from; C++ division truncates towards zero.
  function TopBlock(fileSize: nat): nat {
    if fileSize >= 512 then (fileSize - 512) / 1024 else 0
  }

  lemma {:induction false} WalkFindsLast(file: seq<byte>, recs: seq<Record>, blkIdx: int)
    requires Shows(file, recs) && -1 <= blkIdx
    requires recs != [] ==> (|recs| - 1) / 31 <= blkIdx
    ensures LatestFrom(file, blkIdx) == LastOf(recs)
    decreases blkIdx
  {
    if blkIdx >= 0 {
      if HeaderInFile(|file|, blkIdx) {
        NewestBlock(file, recs, blkIdx);
      } else if recs != [] {
        RecordVisible(file, recs, |recs| - 1);
      }
      if !HeaderInFile(|file|, blkIdx) || DataCnt(file, blkIdx) == 0 {
        WalkFindsLast(file, recs, blkIdx - 1);
      }
    }
  }

  /** `readLatest` finds the newest record of whatever history the file shows. */
  lemma LatestIsLast(file: seq<byte>, recs: seq<Record>)
    requires Shows(file, recs)
    ensures LatestFrom(file, TopBlock(|file|)) == LastOf(recs)
  {
    if recs != [] {
      assert HoldsRecord(file, |recs| - 1, recs[|recs| - 1]);
      assert (|recs| - 1) / 31 <= TopBlock(|file|);
    }
    WalkFindsLast(file, recs, TopBlock(|file|));
  }

  // Walks backwards from the last possible block to the first one with data.
  method ReadLatest(file: seq<byte>) returns (latest: Option<seq<byte>>)
    ensures latest == LatestFrom(file, TopBlock(|file|))
    ensures forall recs: seq<Record> | Shows(file, recs) :: latest == LastOf(recs)
  {
    forall recs: seq<Record> | Shows(file, recs)
      ensures LatestFrom(file, TopBlock(|file|)) == LastOf(recs)
    {
      LatestIsLast(file, recs);
    }
    var fileSize := |file|;
    var blkIdx: int := TopBlock(fileSize);
    while blkIdx >= 0
      invariant -1 <= blkIdx
      invariant LatestFrom(file, TopBlock(fileSize)) == LatestFrom(file, blkIdx)
    {
      var blkOff := BlockOffset(blkIdx);
      if blkOff + 8 > fileSize {
        blkIdx := blkIdx - 1;
        continue;
      }
      var dataCnt := DataCnt(file, blkIdx);
      if dataCnt == 0 {
        blkIdx := blkIdx - 1;
        continue;
      }
      var recOff := blkOff + 8 + (dataCnt - 1) * 32;
      if recOff + 32 > fileSize {
        blkIdx := blkIdx - 1;
        continue;
      }
      return Some(file[recOff..recOff + 32]);
    }
    return None;
  }

  // ---------------------------------------------------------------- sampling

  // Records ri, ri + step, ... up to riEnd, as far as the history goes.
  function Sampled(recs: seq<Record>, ri: nat, riEnd: int, step: nat): seq<Record>
    requires step > 0
    decreases |recs| - ri
  {
    if ri > riEnd || ri >= |recs| then []
    else [recs[ri]] + Sampled(recs, ri + step, riEnd, step)
  }

  /** What `Sampled` means: element i is record ri + i * step, and it stops only
      when the next index is past the range or past the last record. */
  lemma {:induction false} SampledIsExact(recs: seq<Record>, ri: nat, riEnd: int, step: nat)
    requires step > 0
    ensures var s := Sampled(recs, ri, riEnd, step);
            && (forall i | 0 <= i < |s| ::
                  ri + i * step <= riEnd && ri + i * step < |recs| && s[i] == recs[ri + i * step])
            && (ri + |s| * step > riEnd || ri + |s| * step >= |recs|)
    decreases |recs| - ri
  {
    var s := Sampled(recs, ri, riEnd, step);
    if ri <= riEnd && ri < |recs| {
      var rest := Sampled(recs, ri + step, riEnd, step);
      SampledIsExact(recs, ri + step, riEnd, step);
      assert s == [recs[ri]] + rest;
      assert (ri + step) + |rest| * step == ri + |s| * step;
      forall i | 0 <= i < |s|
        ensures ri + i * step <= riEnd && ri + i * step < |recs| && s[i] == recs[ri + i * step]
      {
        if i > 0 {
          assert (ri + step) + (i - 1) * step == ri + i * step;
          assert s[i] == rest[i - 1];
        }
      }
    }
  }

  // Unix times to record indices: floor division by the sample interval.
  function FirstIndex(startTime: nat, from: nat, freq: nat): (ri: nat)
    requires freq > 0
  {
    if from >= startTime then (from - startTime) / freq else 0
  }

  function LastIndex(startTime: nat, to: nat, freq: nat): int
    requires freq > 0
  {
    if to >= startTime then (to - startTime) / freq else -1
  }

  datatype SampleResult = TooShort | InvalidFreq | Sample(records: seq<seq<byte>>)

  // Is record ri counted by its block and wholly inside the file?
  predicate Readable(file: seq<byte>, ri: nat) {
    && HeaderInFile(|file|, ri / 31)
    && ri % 31 < DataCnt(file, ri / 31)
    && RecordOffset(ri) + 32 <= |file|
  }

  function RecordAt(file: seq<byte>, ri: nat): seq<byte>
    requires Readable(file, ri)
  {
    file[RecordOffset(ri)..RecordOffset(ri) + 32]
  }

  // The strided scan of the bytes, without the header cache.
  function Scan(file: seq<byte>, ri: nat, riEnd: int, step: nat): seq<seq<byte>>
    requires step > 0
    decreases riEnd - ri
  {
    if ri > riEnd || !Readable(file, ri) then []
    else [RecordAt(file, ri)] + Scan(file, ri + step, riEnd, step)
  }

  /** The scan neither loses nor repeats a record of the history the file shows. */
  lemma {:induction false} ScanIsSampled(file: seq<byte>, recs: seq<Record>, ri: nat, riEnd: int, step: nat)
    requires Shows(file, recs) && step > 0
    ensures Scan(file, ri, riEnd, step) == Sampled(recs, ri, riEnd, step)
    decreases riEnd - ri
  {
    hide DataCnt, BlockOffset, RecordOffset, HeaderInFile, Shows;
    RecordVisible(file, recs, ri);
    assert Readable(file, ri) <==> ri < |recs|;
    if ri <= riEnd && ri < |recs| {
      assert RecordAt(file, ri) == recs[ri];
      ScanIsSampled(file, recs, ri + step, riEnd, step);
    }
  }

  // Record j is of the time startTime + j * freq. The sample holds the records first, first + step, ...
  // of times not later than `to`, and stops only at the end of the history or past that time.
  ghost predicate InTimes(sample: seq<seq<byte>>, recs: seq<Record>, first: nat, step: nat, startTime: nat, freq: nat,
                          to: nat)
  {
    && (forall i: nat | i < |sample| ::
          var j := first + i * step;
          j < |recs| && sample[i] == recs[j] && startTime + j * freq <= to)
    && var next := first + |sample| * step;
       next >= |recs| || startTime + next * freq > to
  }

  /** Strided sample of the records between two unix times. `startTime` is the decoded STIME field.
      Record j is of the time startTime + j * FREQ: the sample begins with the last record not later
      than `from`, or with the first one, ends before the first candidate later than `to`, and takes
      every step-th record in between. */
  method ReadSample(file: seq<byte>, startTime: nat, from: nat, to: nat, step0: nat)
    returns (r: SampleResult, ghost first: nat)
    ensures |file| < 520 <==> r == TooShort
    ensures |file| >= 520 ==> (r == InvalidFreq <==> Freq(file) == 0)
    ensures r.Sample? ==>
              if from < startTime then first == 0
              else startTime + first * Freq(file) <= from < startTime + (first + 1) * Freq(file)
    ensures forall recs: seq<Record> | r.Sample? && Shows(file, recs) ::
              InTimes(r.records, recs, first, if step0 == 0 then 1 else step0, startTime, Freq(file), to)
    ensures forall recs: seq<Record> | r.Sample? && Shows(file, recs) ::
              r.records == Sampled(recs, FirstIndex(startTime, from, Freq(file)),
                                   LastIndex(startTime, to, Freq(file)), Max(1, step0))
  {
    first := 0;
    var fileSize := |file|;
    if fileSize < 520 {
      return TooShort, first;
    }
    var freq := Freq(file);
    if freq == 0 {
      return InvalidFreq, first;
    }
    var step := if step0 == 0 then 1 else step0;
    var riStart := FirstIndex(startTime, from, freq);
    var riEnd := LastIndex(startTime, to, freq);
    first := riStart;
    FirstIndexIsTime(startTime, from, freq);
    ScanInTimes(file, riStart, step, startTime, freq, to);
    NothingInRange(file, riStart, riEnd, step);
    hide Shows, Freq, Scan, Sampled, FirstIndex, LastIndex, InTimes;
    if riEnd < riStart {
      return Sample([]), first;
    }
    var result := ScanLoop(file, riStart, riEnd, step);
    return Sample(result), first;
  }

  lemma NothingInRange(file: seq<byte>, riStart: nat, riEnd: int, step: nat)
    requires step > 0
    ensures riEnd < riStart ==> Scan(file, riStart, riEnd, step) == []
  {
  }

  lemma FirstIndexIsTime(startTime: nat, from: nat, freq: nat)
    requires freq > 0
    ensures var a := FirstIndex(startTime, from, freq);
            if from < startTime then a == 0 else startTime + a * freq <= from < startTime + (a + 1) * freq
  {
    if from >= startTime {
      DivisionBounds(from - startTime, freq);
    }
  }

  lemma DivisionBounds(t: nat, freq: nat)
    requires freq > 0
    ensures t / freq * freq <= t < (t / freq + 1) * freq
  {
    assert t == t / freq * freq + t % freq;
    assert (t / freq + 1) * freq == t / freq * freq + freq;
  }

  // An index is within the range exactly if its record is not later than `to`.
  lemma LastIndexIsTime(startTime: nat, to: nat, freq: nat, j: nat)
    requires freq > 0
    ensures j <= LastIndex(startTime, to, freq) <==> startTime + j * freq <= to
  {
    if to >= startTime {
      var last := (to - startTime) / freq;
      DivisionBounds(to - startTime, freq);
      if j <= last {
        TimesGrows(j, last, freq);
      } else {
        TimesGrows(last + 1, j, freq);
      }
    }
  }

  lemma TimesGrows(a: nat, b: nat, freq: nat)
    requires a <= b
    ensures a * freq <= b * freq
  {
    assert b * freq == a * freq + (b - a) * freq;
  }

  lemma ScanInTimes(file: seq<byte>, first: nat, step: nat, startTime: nat, freq: nat, to: nat)
    requires step > 0 && freq > 0
    ensures forall recs: seq<Record> | Shows(file, recs) ::
              && Scan(file, first, LastIndex(startTime, to, freq), step)
                 == Sampled(recs, first, LastIndex(startTime, to, freq), step)
              && InTimes(Scan(file, first, LastIndex(startTime, to, freq), step), recs,
                         first, step, startTime, freq, to)
  {
    hide Shows, InTimes, LastIndex, Scan, Sampled;
    forall recs: seq<Record> | Shows(file, recs)
      ensures Scan(file, first, LastIndex(startTime, to, freq), step)
           == Sampled(recs, first, LastIndex(startTime, to, freq), step)
      ensures InTimes(Scan(file, first, LastIndex(startTime, to, freq), step), recs, first, step, startTime, freq, to)
    {
      ScanIsSampled(file, recs, first, LastIndex(startTime, to, freq), step);
      SampledInTimes(recs, first, step, startTime, freq, to);
    }
  }

  lemma SampledInTimes(recs: seq<Record>, first: nat, step: nat, startTime: nat, freq: nat, to: nat)
    requires step > 0 && freq > 0
    ensures InTimes(Sampled(recs, first, LastIndex(startTime, to, freq), step), recs, first, step, startTime, freq, to)
  {
    var last := LastIndex(startTime, to, freq);
    var s := Sampled(recs, first, last, step);
    SampledIsExact(recs, first, last, step);
    hide Sampled, LastIndex;
    forall i: nat | i < |s|
      ensures var j := first + i * step; j < |recs| && s[i] == recs[j] && startTime + j * freq <= to
    {
      LastIndexIsTime(startTime, to, freq, first + i * step);
    }
    LastIndexIsTime(startTime, to, freq, first + |s| * step);
  }

  lemma MoveAcross<T>(a: seq<T>, x: T, b: seq<T>)
    ensures a + ([x] + b) == a + [x] + b
  {
  }

  // The loop itself, with the header of the current block cached.
  method ScanLoop(file: seq<byte>, riStart: nat, riEnd: int, step: nat) returns (result: seq<seq<byte>>)
    requires step > 0
    ensures result == Scan(file, riStart, riEnd, step)
  {
    hide DataCnt, BlockOffset, RecordOffset;
    result := [];
    var curBlkIdx: int := -1;
    var curDataCnt: nat := 0;
    var ri := riStart;
    while ri <= riEnd
      invariant curBlkIdx >= 0 ==> HeaderInFile(|file|, curBlkIdx) && curDataCnt == DataCnt(file, curBlkIdx)
      invariant result + Scan(file, ri, riEnd, step) == Scan(file, riStart, riEnd, step)
      decreases riEnd - ri
    {
      var blkIdx := ri / 31;
      var recInBlk := ri % 31;
      if blkIdx != curBlkIdx {
        if BlockOffset(blkIdx) + 8 > |file| {
          assert !Readable(file, ri);
          break;
        }
        curBlkIdx := blkIdx;
        curDataCnt := DataCnt(file, blkIdx);
      }
      if recInBlk >= curDataCnt {
        assert !Readable(file, ri);
        break;
      }
      var recOff := RecordOffset(ri);
      if recOff + 32 > |file| {
        break;
      }
      assert Readable(file, ri);
      MoveAcross(result, RecordAt(file, ri), Scan(file, ri + step, riEnd, step));
      result := result + [file[recOff..recOff + 32]];
      ri := ri + step;
    }
    assert Scan(file, ri, riEnd, step) == [];
  }

  // ---------------------------------------------------------------- counting

  datatype FileInfo = FileInfo(fileSize: nat, startTime: nat, endTime: nat, recordCount: nat, freq: nat, chCount: nat)
  datatype HeaderResult = HeaderTooShort | InvalidMagic | Parsed(info: FileInfo)

  // End of the recording, in 32-bit arithmetic.
  function EndTime(startTime: nat, recordCount: nat, freq: nat): nat {
    if freq > 0 then (startTime + recordCount * freq) % 0x1_0000_0000 else startTime
  }

  lemma EndTimeWraps(startTime: nat, recordCount: nat, freq: nat)
    ensures var ended, end := startTime + recordCount * freq, EndTime(startTime, recordCount, freq);
            && (ended < 0x1_0000_0000 ==> end == ended)
            && (freq > 0 ==> end < 0x1_0000_0000 && (ended - end) % 0x1_0000_0000 == 0)
  {
    var recorded := recordCount * freq;
    if freq > 0 {
      SameRest(startTime + recorded);
    } else {
      assert recorded == 0;
    }
  }

  lemma SameRest(t: nat)
    ensures (t - t % 0x1_0000_0000) % 0x1_0000_0000 == 0
    ensures t < 0x1_0000_0000 ==> t % 0x1_0000_0000 == t
  {
  }

  // Does the file end in a whole block header or in records, and not between two blocks?
  predicate LastHeaderWhole(fileSize: nat)
    requires fileSize >= 512
  {
    (fileSize - 512) % 1024 >= 8
  }

  lemma LastBlockCount(file: seq<byte>, recs: seq<Record>)
    requires Shows(file, recs)
    ensures LastHeaderWhole(|file|) ==>
              var last := (|file| - 512) / 1024;
              HeaderInFile(|file|, last) && 31 * last + DataCnt(file, last) == |recs|
    ensures !LastHeaderWhole(|file|) ==> !HeaderInFile(|file|, (|file| - 512) / 1024)
  {
    var n := |recs|;
    var last := (|file| - 512) / 1024;
    assert |file| == 512 + 1024 * last + (|file| - 512) % 1024;
    if LastHeaderWhole(|file|) {
      assert HeaderInFile(|file|, last);
      assert DataCnt(file, last) == Filled(n, last);
      assert last <= n / 31;
      if n > 0 {
        assert HoldsRecord(file, n - 1, recs[n - 1]);
      }
    }
  }

  /** Reads the fixed header and counts the records from the last block's header.
      On every file a reader can meet, the count is right exactly when the file does not end
      between a full block and the next block's header; otherwise it is 0. */
  method ParseHeader(file: seq<byte>, startTime: nat) returns (r: HeaderResult)
    ensures |file| < 512 <==> r == HeaderTooShort
    ensures |file| >= 512 ==> (r == InvalidMagic <==> !(file[0] == 0x53 && file[1] == 0x57))
    ensures r.Parsed? ==>
              && r.info.fileSize == |file| && r.info.startTime == startTime && r.info.chCount == file[5]
              && r.info.freq == file[12] as int + 256 * file[13] as int
    ensures r.Parsed? ==>
              var ended := startTime + r.info.recordCount * r.info.freq;
              && (ended < 0x1_0000_0000 ==> r.info.endTime == ended)
              && (r.info.freq > 0 ==> r.info.endTime < 0x1_0000_0000 && (ended - r.info.endTime) % 0x1_0000_0000 == 0)
    ensures r.Parsed? ==> forall recs: seq<Record> | Shows(file, recs) && |recs| <= CAPACITY ::
              r.info.recordCount == if LastHeaderWhole(|file|) then |recs| else 0
  {
    if |file| < 512 {
      return HeaderTooShort;
    }
    if file[0] != 0x53 || file[1] != 0x57 {
      return InvalidMagic;
    }
    hide EndTime;
    var freq := Freq(file);
    var recordCount := CountRecords(file);
    EndTimeWraps(startTime, recordCount, freq);
    return Parsed(FileInfo(|file|, startTime, EndTime(startTime, recordCount, freq),
                           recordCount, freq, file[5] as int));
  }

  method CountRecords(file: seq<byte>) returns (recordCount: nat)
    requires |file| >= 512
    ensures forall recs: seq<Record> | Shows(file, recs) && |recs| <= CAPACITY ::
              recordCount == if LastHeaderWhole(|file|) then |recs| else 0
  {
    hide Shows, DataCnt, BlockOffset, LastHeaderWhole;
    recordCount := 0;
    if |file| >= 520 {
      var lastBlkIdx := (|file| - 512) / 1024;
      if BlockOffset(lastBlkIdx) + 8 <= |file| {
        recordCount := (lastBlkIdx % 0x1_0000_0000 * 31 + DataCnt(file, lastBlkIdx)) % 0x1_0000_0000;
      }
    }
    forall recs: seq<Record> | Shows(file, recs) && |recs| <= CAPACITY
      ensures recordCount == if LastHeaderWhole(|file|) then |recs| else 0
    {
      CountInHeader(file, recs);
    }
  }

  lemma CountInHeader(file: seq<byte>, recs: seq<Record>)
    requires |file| >= 512 && Shows(file, recs) && |recs| <= CAPACITY
    ensures |file| >= 520
    ensures var last := (|file| - 512) / 1024;
            && (LastHeaderWhole(|file|) <==> BlockOffset(last) + 8 <= |file|)
            && (LastHeaderWhole(|file|) ==>
                  (last % 0x1_0000_0000 * 31 + DataCnt(file, last)) % 0x1_0000_0000 == |recs|)
  {
    hide Shows, DataCnt;
    LastBlockCount(file, recs);
    var last := (|file| - 512) / 1024;
    if LastHeaderWhole(|file|) {
      NoWrap(last, DataCnt(file, last));
    }
    ShownIsLongEnough(file, recs);
  }

  lemma ShownIsLongEnough(file: seq<byte>, recs: seq<Record>)
    requires Shows(file, recs)
    ensures |file| >= 520
  {
  }

  lemma NoWrap(last: nat, count: nat)
    requires 31 * last + count <= CAPACITY
    ensures (last % 0x1_0000_0000 * 31 + count) % 0x1_0000_0000 == 31 * last + count
  {
    assert last % 0x1_0000_0000 == last;
  }

  // ---------------------------------------------------------------- writer and readers together

  lemma EndsWholeIff(blk: nat, used: nat)
    requires used < 1024
    ensures LastHeaderWhole(BlockOffset(blk) + used) <==> used >= 8
  {
  }

  // A complete file never ends between two blocks, so its count is the writer's.
  lemma CompleteFileEndsWhole(n: nat)
    ensures LastHeaderWhole(ImageSize(n))
  {
    EndsWholeIff(n / 31, 8 + n % 31 * 32);
  }

  /** Exactly which interrupted appends make the record count read 0: those of a
      block-filling record that stopped after its padding and before the next header was whole. */
  lemma TornCount(file: seq<byte>, recs: seq<Record>, rec: Record, k: nat)
    requires Complete(file, recs) && |recs| < CAPACITY
    ensures var torn := TrendFileWriter.TornAppend(file, |recs|, rec, k);
            |torn| >= 512 && (LastHeaderWhole(|torn|) <==> !(|recs| % 31 == 30 && 58 <= k < 66))
  {
    TornSize(file, recs, rec, k);
    var q, r := |recs| / 31, |recs| % 31;
    var extra := Min(k, 32) + if r == 30 then Max(0, Min(k - 34, 32)) else 0;
    if r == 30 && extra >= 56 {
      EndsWholeIff(q + 1, extra - 56);
    } else {
      EndsWholeIff(q, 8 + r * 32 + extra);
    }
  }

  /** Of the appends answered with true, exactly these are not read back: an ordinary record whose 32
      bytes were the last the medium took. And exactly these make the record count read 0: a
      block-filling record whose next header was not taken whole. */
  lemma AcknowledgedAppend(file: seq<byte>, recs: seq<Record>, rec: Record, k: nat)
    requires Complete(file, recs) && |recs| < CAPACITY && k >= TrendFileWriter.CheckedBytes(|recs|)
    ensures var n, torn := |recs|, TrendFileWriter.TornAppend(file, |recs|, rec, k);
            && (Shows(torn, recs + [rec]) <==> !(n % 31 != 30 && k == 32))
            && (!Shows(torn, recs + [rec]) ==> Shows(torn, recs))
            && |torn| >= 512 && (LastHeaderWhole(|torn|) <==> !(n % 31 == 30 && k < 66))
  {
    TrendFileWriter.TornAppendShows(file, recs, rec, k);
    TornCount(file, recs, rec, k);
    if k == 32 {
      TornSize(file, recs, rec, k);
      ShownCountIsExact(TrendFileWriter.TornAppend(file, |recs|, rec, k), recs, rec);
    }
  }

  lemma ShownCountIsExact(file: seq<byte>, recs: seq<Record>, rec: Record)
    requires Shows(file, recs) && HeaderInFile(|file|, |recs| / 31)
    ensures !Shows(file, recs + [rec])
  {
    assert DataCnt(file, |recs| / 31) == Filled(|recs|, |recs| / 31) != Filled(|recs| + 1, |recs| / 31);
  }

  lemma TornSize(file: seq<byte>, recs: seq<Record>, rec: Record, k: nat)
    requires Complete(file, recs) && |recs| < CAPACITY
    ensures |TrendFileWriter.TornAppend(file, |recs|, rec, k)|
         == ImageSize(|recs|) + Min(k, 32) + if |recs| % 31 == 30 then Max(0, Min(k - 34, 32)) else 0
  {
    if k <= 32 {
      TrendFileWriter.StoppedInRecord(file, |recs|, rec, k);
      TrendFileWriter.RecordWritten(file, recs, rec, k);
    } else {
      TrendFileWriter.TornAppendCounted(file, recs, rec, k);
    }
  }

  /** Both readers over every history and every interrupted append: with at most the record's own
      32 bytes stored they see the n appended records, from the first byte of the count on n + 1. */
  lemma InterruptedHistoryIsReadBack(header: seq<byte>, recs: seq<Record>, rec: Record, k: nat,
                                     ri: nat, riEnd: int, step: nat)
    requires |header| == 512 && |recs| < CAPACITY && step > 0
    ensures var torn := TrendFileWriter.TornAppend(TrendFileWriter.FileAfter(header, recs), |recs|, rec, k);
            var seen := TrendFileWriter.Visible(recs, rec, k);
            && LatestFrom(torn, TopBlock(|torn|)) == LastOf(seen)
            && Scan(torn, ri, riEnd, step) == Sampled(seen, ri, riEnd, step)
            && |torn| >= 512 && torn[..512] == header
  {
    var file := TrendFileWriter.FileAfter(header, recs);
    TrendFileWriter.FileAfterIsComplete(header, recs);
    TrendFileWriter.TornAppendShows(file, recs, rec, k);
    var torn := TrendFileWriter.TornAppend(file, |recs|, rec, k);
    var seen := TrendFileWriter.Visible(recs, rec, k);
    LatestIsLast(torn, seen);
    ScanIsSampled(torn, seen, ri, riEnd, step);
  }

  /** What the writer put into the header is what the readers take from it, however many records
      follow: magic, channel count, start time, sample interval. */
  lemma HeaderIsReadBack(c: TrendFileWriter.Config, stime: seq<byte>, recs: seq<Record>)
    requires TrendFileWriter.ConfigOk(c) && |stime| == 6 && |recs| <= CAPACITY
    ensures var file := TrendFileWriter.FileAfter(TrendFileWriter.FileHeader(c, stime), recs);
            && |file| >= 520 && file[0] == 0x53 && file[1] == 0x57
            && file[5] == c.chCnt && file[6..12] == stime && Freq(file) == c.freq
  {
    hide TrendFileWriter.FixedHeader, TrendFileWriter.FileAfter, TrendFileWriter.ChannelArea, Complete;
    var header := TrendFileWriter.FileHeader(c, stime);
    var file := TrendFileWriter.FileAfter(header, recs);
    TrendFileWriter.FileAfterIsComplete(header, recs);
    CompleteFileSize(file, recs);
    var fixed := TrendFileWriter.FixedHeader(c, stime);
    FixedHeaderFields(c, stime);
    assert forall i | 0 <= i < 64 :: file[i] == file[..512][i] == header[i] == fixed[i];
    assert file[6..12] == fixed[6..12];
  }

  lemma CompleteFileSize(file: seq<byte>, recs: seq<Record>)
    requires Complete(file, recs)
    ensures |file| >= 520
  {
  }

  lemma FixedHeaderFields(c: TrendFileWriter.Config, stime: seq<byte>)
    requires TrendFileWriter.ConfigOk(c) && |stime| == 6
    ensures var h := TrendFileWriter.FixedHeader(c, stime);
            && h[0] == 0x53 && h[1] == 0x57 && h[5] == c.chCnt && h[6..12] == stime
            && h[12] as int + 256 * h[13] as int == c.freq
  {
  }
}
