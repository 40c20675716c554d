/** The trend file writer: an append is a record write, an in-place update of the
    block's record count and, when the block is full, padding and the next block header, all of
    them through a write buffer whose last flush nobody checks. */
module TrendFileWriter {
  import opened TndFormat

  // Number of bytes the append of record n writes.
  function AppendBytes(n: nat): nat {
    if n % 31 == 30
    then 32 + 2 + 24 + 8
    else 32 + 2
  }

  function Zeros(n: nat): (z: seq<byte>)
    ensures |z| == n
    ensures forall i | 0 <= i < n :: z[i] == 0
  {
    seq(n, _ => 0)
  }

  // The first m bytes of the new record count of record n's block, patched in place.
  function PatchCount(file: seq<byte>, n: nat, m: nat): seq<byte> {
    WriteAt(file, BlockOffset(n / 31) + 4, LittleEndian16(n % 31 + 1)[..Min(m, 2)])
  }

  // The first m bytes of what follows a block's last record: its padding and the next block header.
  function FillBlock(file: seq<byte>, blk: nat, m: int): seq<byte>
    requires blk < CAPACITY
  {
    var padded := WriteAt(file, BlockOffset(blk) + 1000, Zeros(24)[..Max(0, Min(m, 24))]);
    WriteAt(padded, BlockOffset(blk + 1), BlockHeader(blk + 1, 0)[..Max(0, Min(m - 24, 8))])
  }

  /** The file when the append of record n stopped after `k` bytes, counted over all
      its writes in order: record, count, padding, next block header. */
  function TornAppend(file: seq<byte>, n: nat, rec: Record, k: nat): seq<byte>
    requires n < CAPACITY
  {
    var f1 := WriteAt(file, RecordOffset(n), rec[..Min(k, 32)]);
    var f2 := PatchCount(f1, n, Max(0, k - 32));
    if n % 31 != 30 then f2
    else FillBlock(f2, n / 31, k - 34)
  }

  // The records a reader finds in that file: record n appears with the first byte of the count.
  function Visible(recs: seq<Record>, rec: Record, k: nat): seq<Record> {
    if k <= 32 then recs else recs + [rec]
  }

  lemma WriteKeeps(file: seq<byte>, off: nat, data: seq<byte>, lo: nat, hi: nat)
    requires lo <= hi <= |file|
    requires hi <= off || off + |data| <= lo
    ensures hi <= |WriteAt(file, off, data)|
    ensures WriteAt(file, off, data)[lo..hi] == file[lo..hi]
  {
  }

  lemma WriteAtEnd(file: seq<byte>, data: seq<byte>)
    ensures WriteAt(file, |file|, data) == file + data
  {
  }

  lemma LittleEndianReadsBack(x: nat)
    requires x < 0x1_0000_0000
    ensures var b := LittleEndian32(x);
            b[0] as int + 256 * b[1] as int + 65536 * b[2] as int + 16777216 * b[3] as int == x
  {
    var q1 := x / 256;
    var q2 := q1 / 256;
    var q3 := q2 / 256;
    assert x == 256 * q1 + x % 256 && q1 == 256 * q2 + q1 % 256 && q2 == 256 * q3 + q2 % 256;
  }

  // Bytes appended at the end of the file that complete no block header change nothing.
  lemma TailWritten(f: seq<byte>, recs: seq<Record>, data: seq<byte>, blk: nat)
    requires Shows(f, recs) && SelfIndexed(f)
    requires |f| + |data| <= ImageSize(|recs|) + 32
    requires HeaderInFile(|f|, blk) && !HeaderInFile(|f| + |data|, blk + 1)
    ensures var g := WriteAt(f, |f|, data); |g| == |f| + |data| && Shows(g, recs) && SelfIndexed(g)
  {
    hide WriteAt, DataCnt, BlkIndex, HoldsRecord;
    var g := WriteAt(f, |f|, data);
    forall j | 0 <= j < |recs|
      ensures HoldsRecord(g, j, recs[j])
    {
      assert HoldsRecord(f, j, recs[j]);
      RecordKept(f, data, j, recs[j]);
    }
    forall b: nat | HeaderInFile(|g|, b)
      ensures DataCnt(g, b) == Filled(|recs|, b) && BlkIndex(g, b) == b
    {
      assert b <= blk;
      assert DataCnt(f, b) == Filled(|recs|, b) && BlkIndex(f, b) == b;
      HeaderKept(f, data, b);
    }
  }

  lemma RecordKept(f: seq<byte>, data: seq<byte>, j: nat, r: Record)
    requires HoldsRecord(f, j, r)
    ensures HoldsRecord(WriteAt(f, |f|, data), j, r)
  {
    WriteKeeps(f, |f|, data, RecordOffset(j), RecordOffset(j) + 32);
  }

  lemma HeaderKept(f: seq<byte>, data: seq<byte>, b: nat)
    requires HeaderInFile(|f|, b)
    ensures var g := WriteAt(f, |f|, data);
            HeaderInFile(|g|, b) && DataCnt(g, b) == DataCnt(f, b) && BlkIndex(g, b) == BlkIndex(f, b)
  {
  }

  lemma WrittenBack(file: seq<byte>, data: seq<byte>, off: nat)
    requires off <= |file|
    ensures |WriteAt(file, off, data)| >= off + |data|
    ensures WriteAt(file, off, data)[off..off + |data|] == data
  {
  }

  // The record itself lands past every counted record, so it stays unseen until it is counted.
  lemma RecordWritten(file: seq<byte>, recs: seq<Record>, rec: Record, k: nat)
    requires Complete(file, recs)
    ensures var f1 := WriteAt(file, RecordOffset(|recs|), rec[..Min(k, 32)]);
            && |f1| == ImageSize(|recs|) + Min(k, 32)
            && Shows(f1, recs) && SelfIndexed(f1)
            && (k >= 32 ==> HoldsRecord(f1, |recs|, rec))
  {
    var data := rec[..Min(k, 32)];
    TailWritten(file, recs, data, |recs| / 31);
    WrittenBack(file, data, |file|);
    assert k >= 32 ==> data == rec;
  }

  lemma CountPatchKeepsRecord(f1: seq<byte>, n: nat, m: nat, j: nat, r: Record)
    requires HeaderInFile(|f1|, n / 31) && HoldsRecord(f1, j, r)
    ensures HoldsRecord(PatchCount(f1, n, m), j, r)
  {
    var at, lo := BlockOffset(n / 31) + 4, RecordOffset(j);
    assert lo + 32 <= at || at + 2 <= lo by {
      if j / 31 < n / 31 {
        assert BlockOffset(j / 31) + 1024 <= BlockOffset(n / 31);
      } else {
        assert BlockOffset(n / 31) <= BlockOffset(j / 31);
      }
    }
    WriteKeeps(f1, at, LittleEndian16(n % 31 + 1)[..Min(m, 2)], lo, lo + 32);
  }

  lemma CountPatchHeader(f1: seq<byte>, n: nat, m: nat, b: nat)
    requires HeaderInFile(|f1|, n / 31) && HeaderInFile(|f1|, b)
    requires DataCnt(f1, n / 31) == n % 31
    ensures |PatchCount(f1, n, m)| == |f1|
    ensures BlkIndex(PatchCount(f1, n, m), b) == BlkIndex(f1, b)
    ensures DataCnt(PatchCount(f1, n, m), b) == if b == n / 31 && m > 0 then n % 31 + 1 else DataCnt(f1, b)
  {
    var off := BlockOffset(n / 31) + 4;
    var f2 := PatchCount(f1, n, m);
    // The count is below 256, so its high byte is zero before and after.
    assert f1[off + 1] == 0;
    if b != n / 31 {
      assert BlockOffset(b) + 8 <= BlockOffset(n / 31) || BlockOffset(n / 31) + 8 <= BlockOffset(b);
    }
  }

  // The append becomes visible with the first byte of the count.
  lemma CountWritten(f1: seq<byte>, recs: seq<Record>, rec: Record, m: nat)
    requires Shows(f1, recs) && SelfIndexed(f1)
    requires |f1| == ImageSize(|recs|) + 32 && HoldsRecord(f1, |recs|, rec)
    ensures var f2 := PatchCount(f1, |recs|, m);
            |f2| == |f1| && Shows(f2, if m == 0 then recs else recs + [rec]) && SelfIndexed(f2)
  {
    hide PatchCount, DataCnt, BlkIndex, HoldsRecord;
    var n := |recs|;
    var f2 := PatchCount(f1, n, m);
    var seen := if m == 0 then recs else recs + [rec];
    assert HeaderInFile(|f1|, n / 31);
    assert DataCnt(f1, n / 31) == Filled(n, n / 31) == n % 31;
    CountPatchHeader(f1, n, m, n / 31);
    forall j | 0 <= j < |seen|
      ensures HoldsRecord(f2, j, seen[j])
    {
      assert HoldsRecord(f1, j, (recs + [rec])[j]);
      CountPatchKeepsRecord(f1, n, m, j, seen[j]);
    }
    forall b: nat | HeaderInFile(|f2|, b)
      ensures DataCnt(f2, b) == Filled(|seen|, b) && BlkIndex(f2, b) == b
    {
      assert DataCnt(f1, b) == Filled(n, b) && BlkIndex(f1, b) == b;
      CountPatchHeader(f1, n, m, b);
    }
  }

  // The next block header, written whole, counts no records yet.
  lemma NextHeaderWritten(f: seq<byte>, recs: seq<Record>, blk: nat)
    requires 0 < |recs| <= CAPACITY && |recs| == 31 * blk
    requires Shows(f, recs) && SelfIndexed(f) && |f| == BlockOffset(blk)
    ensures var g := WriteAt(f, |f|, BlockHeader(blk, 0));
            |g| == ImageSize(|recs|) && Shows(g, recs) && SelfIndexed(g)
  {
    hide WriteAt, DataCnt, BlkIndex, HoldsRecord, BlockHeader;
    var g := WriteAt(f, |f|, BlockHeader(blk, 0));
    forall j | 0 <= j < |recs|
      ensures HoldsRecord(g, j, recs[j])
    {
      assert HoldsRecord(f, j, recs[j]);
      RecordKept(f, BlockHeader(blk, 0), j, recs[j]);
    }
    forall b: nat | HeaderInFile(|g|, b)
      ensures DataCnt(g, b) == Filled(|recs|, b) && BlkIndex(g, b) == b
    {
      if b < blk {
        assert HeaderInFile(|f|, b);
        assert DataCnt(f, b) == Filled(|recs|, b) && BlkIndex(f, b) == b;
        HeaderKept(f, BlockHeader(blk, 0), b);
      } else {
        HeaderReadsBack(f, blk);
      }
    }
  }

  lemma HeaderReadsBack(f: seq<byte>, blk: nat)
    requires blk <= CAPACITY && |f| == BlockOffset(blk)
    ensures var g := WriteAt(f, |f|, BlockHeader(blk, 0));
            HeaderInFile(|g|, blk) && DataCnt(g, blk) == 0 && BlkIndex(g, blk) == blk
  {
    var g := WriteAt(f, |f|, BlockHeader(blk, 0));
    LittleEndianReadsBack(blk);
    WrittenBack(f, BlockHeader(blk, 0), |f|);
    var h := g[|f|..|f| + 8];
    assert forall i | 0 <= i < 8 :: h[i] == g[|f| + i];
  }

  // The next block header, or its first m bytes: it shows no further record.
  lemma HeaderStarted(f3: seq<byte>, recs: seq<Record>, blk: nat, m: nat)
    requires |recs| <= CAPACITY && |recs| == 31 * (blk + 1)
    requires Shows(f3, recs) && SelfIndexed(f3) && |f3| == BlockOffset(blk + 1)
    ensures var f4 := WriteAt(f3, |f3|, BlockHeader(blk + 1, 0)[..Min(m, 8)]);
            Shows(f4, recs) && SelfIndexed(f4) && |f4| == |f3| + Min(m, 8)
  {
    hide WriteAt, BlockHeader, Shows, SelfIndexed;
    var head := BlockHeader(blk + 1, 0)[..Min(m, 8)];
    if m < 8 {
      TailWritten(f3, recs, head, blk);
    } else {
      assert head == BlockHeader(blk + 1, 0);
      NextHeaderWritten(f3, recs, blk + 1);
    }
  }

  lemma StoppedInPad(file: seq<byte>, blk: nat, m: int)
    requires blk < CAPACITY && m <= 24
    ensures FillBlock(file, blk, m) == WriteAt(file, BlockOffset(blk) + 1000, Zeros(24)[..Max(0, m)])
  {
    assert BlockHeader(blk + 1, 0)[..0] == [];
  }

  lemma StoppedInNextHeader(file: seq<byte>, blk: nat, m: nat)
    requires blk < CAPACITY && 24 <= m
    ensures FillBlock(file, blk, m)
         == WriteAt(WriteAt(file, BlockOffset(blk) + 1000, Zeros(24)), BlockOffset(blk + 1),
                    BlockHeader(blk + 1, 0)[..Min(m - 24, 8)])
  {
    assert Zeros(24)[..24] == Zeros(24);
  }

  // The two writes that follow a block's last record, stopped after m bytes.
  lemma BlockFilled(f2: seq<byte>, recs: seq<Record>, blk: nat, m: int)
    requires |recs| <= CAPACITY && |recs| == 31 * (blk + 1)
    requires Shows(f2, recs) && SelfIndexed(f2) && |f2| == BlockOffset(blk) + 1000
    ensures var f4 := FillBlock(f2, blk, m);
            Shows(f4, recs) && SelfIndexed(f4) && |f4| == |f2| + Max(0, Min(m, 32))
  {
    if m <= 24 {
      StoppedInPad(f2, blk, m);
      TailWritten(f2, recs, Zeros(24)[..Max(0, m)], blk);
    } else {
      StoppedInNextHeader(f2, blk, m);
      TailWritten(f2, recs, Zeros(24), blk);
      HeaderStarted(WriteAt(f2, |f2|, Zeros(24)), recs, blk, m - 24);
    }
  }

  lemma NextOffsets(n: nat)
    requires n < CAPACITY
    ensures ImageSize(n + 1) <= MAX_FILE_SIZE
    ensures n % 31 != 30 ==> ImageSize(n + 1) == ImageSize(n) + 32
    ensures n % 31 == 30 ==> (n + 1) / 31 == n / 31 + 1 && (n + 1) % 31 == 0
    ensures n % 31 == 30 ==> ImageSize(n) + 32 == BlockOffset(n / 31) + 1000 == BlockOffset((n + 1) / 31) - 24
  {
    assert n % 31 != 30 ==> (n + 1) / 31 == n / 31 && (n + 1) % 31 == n % 31 + 1;
  }

  // The same file in the two cases of the append, after the record itself is stored.
  lemma TornAppendCounted(file: seq<byte>, recs: seq<Record>, rec: Record, k: nat)
    requires Complete(file, recs) && |recs| < CAPACITY && k > 32
    ensures var torn := TornAppend(file, |recs|, rec, k);
            && Shows(torn, recs + [rec]) && SelfIndexed(torn)
            && |torn| == if |recs| % 31 == 30 then ImageSize(|recs|) + 32 + Max(0, Min(k - 34, 32))
                         else ImageSize(|recs|) + 32
  {
    var n := |recs|;
    RecordWritten(file, recs, rec, k);
    var f1 := WriteAt(file, RecordOffset(n), rec[..Min(k, 32)]);
    CountWritten(f1, recs, rec, k - 32);
    if n % 31 == 30 {
      NextOffsets(n);
      BlockFilled(PatchCount(f1, n, k - 32), recs + [rec], n / 31, k - 34);
    }
  }

  lemma TornAppendKeepsHeader(file: seq<byte>, n: nat, rec: Record, k: nat)
    requires n < CAPACITY && |file| >= 512
    ensures |TornAppend(file, n, rec, k)| >= 512
    ensures TornAppend(file, n, rec, k)[..512] == file[..512]
  {
    hide WriteAt, LittleEndian16, BlockHeader;
    var f1 := WriteAt(file, RecordOffset(n), rec[..Min(k, 32)]);
    WriteKeeps(file, RecordOffset(n), rec[..Min(k, 32)], 0, 512);
    var f2 := PatchCount(f1, n, Max(0, k - 32));
    WriteKeeps(f1, BlockOffset(n / 31) + 4, LittleEndian16(n % 31 + 1)[..Min(Max(0, k - 32), 2)], 0, 512);
    if n % 31 == 30 {
      var pad := Zeros(24)[..Max(0, Min(k - 34, 24))];
      WriteKeeps(f2, BlockOffset(n / 31) + 1000, pad, 0, 512);
      var head := BlockHeader(n / 31 + 1, 0)[..Max(0, Min(k - 58, 8))];
      WriteKeeps(WriteAt(f2, BlockOffset(n / 31) + 1000, pad), BlockOffset(n / 31 + 1), head, 0, 512);
    }
  }

  /** Torn-append safety. However many bytes of the next append reached the file, a reader is shown
      either the old records or the old records and the new one, never anything else; a finished
      append leaves a complete file, and the 512-byte file header is never touched. */
  lemma TornAppendShows(file: seq<byte>, recs: seq<Record>, rec: Record, k: nat)
    requires Complete(file, recs) && |recs| < CAPACITY
    ensures var torn := TornAppend(file, |recs|, rec, k);
            && Shows(torn, Visible(recs, rec, k))
            && |file| <= |torn| <= ImageSize(|recs| + 1) <= MAX_FILE_SIZE
            && torn[..512] == file[..512]
            && (k >= AppendBytes(|recs|) ==> Complete(torn, recs + [rec]))
  {
    NextOffsets(|recs|);
    TornAppendKeepsHeader(file, |recs|, rec, k);
    if k <= 32 {
      RecordWritten(file, recs, rec, k);
    } else {
      TornAppendCounted(file, recs, rec, k);
    }
  }

  /** What a whole append does to a file that ends where the record goes: two bytes change, the count of
      the block, and the record follows; behind the last record of a block 24 zeros and the header of
      the next block, which counts nothing. */
  lemma WholeAppend(file: seq<byte>, n: nat, rec: Record)
    requires n < CAPACITY && |file| == ImageSize(n) && HeaderInFile(|file|, n / 31)
    ensures var at, count := BlockOffset(n / 31) + 4, n % 31 + 1;
            var counted := file[..at] + [count, 0] + file[at + 2..];
            TornAppend(file, n, rec, AppendBytes(n))
            == if n % 31 != 30 then counted + rec
               else counted + rec + Zeros(24)
                    + [(n / 31 + 1) % 256, (n / 31 + 1) / 256 % 256, (n / 31 + 1) / 65536 % 256,
                       (n / 31 + 1) / 16777216, 0, 0, 0, 0]
  {
    hide WriteAt, PatchCount, FillBlock, TornAppend, Zeros, BlockHeader;
    var at, count := BlockOffset(n / 31) + 4, n % 31 + 1;
    var counted := file[..at] + [count, 0] + file[at + 2..];
    StoppedAt(file, n, rec, AppendBytes(n));
    WriteAtEnd(file, rec);
    CountInPlace(file, n, rec);
    if n % 31 == 30 {
      NextOffsets(n);
      FillAtEnd(counted + rec, n / 31);
      BlockHeaderBytes(n / 31 + 1);
    }
  }

  lemma FillAtEnd(file: seq<byte>, blk: nat)
    requires blk < CAPACITY && |file| == BlockOffset(blk) + 1000
    ensures FillBlock(file, blk, 32) == file + Zeros(24) + BlockHeader(blk + 1, 0)
  {
    hide WriteAt, Zeros, BlockHeader;
    StoppedInNextHeader(file, blk, 32);
    WriteAtEnd(file, Zeros(24));
    WriteAtEnd(file + Zeros(24), BlockHeader(blk + 1, 0));
    assert BlockHeader(blk + 1, 0)[..8] == BlockHeader(blk + 1, 0);
  }

  lemma BlockHeaderBytes(blk: nat)
    requires blk <= CAPACITY
    ensures BlockHeader(blk, 0)
         == [blk % 256, blk / 256 % 256, blk / 65536 % 256, blk / 16777216, 0, 0, 0, 0]
  {
    assert blk / 256 / 256 == blk / 65536 && blk / 256 / 256 / 256 == blk / 16777216;
  }

  lemma CountInPlace(file: seq<byte>, n: nat, rec: Record)
    requires HeaderInFile(|file|, n / 31)
    ensures var at := BlockOffset(n / 31) + 4;
            PatchCount(file + rec, n, 2) == file[..at] + [n % 31 + 1, 0] + file[at + 2..] + rec
  {
    var at := BlockOffset(n / 31) + 4;
    assert LittleEndian16(n % 31 + 1)[..2] == [n % 31 + 1, 0];
  }

  // ---------------------------------------------------------------- capacity

  // What the capacity check adds to the current size.
  function WorstCase(dataCnt: nat): nat {
    if dataCnt == 30 then 32 + 24 + 8 else 32
  }

  /** The capacity check refuses an append exactly when 130,023,408 records are stored. */
  lemma CapacityIsExact(n: nat)
    ensures ImageSize(n) + WorstCase(n % 31) > MAX_FILE_SIZE <==> n >= CAPACITY
  {
    var blk, cnt := n / 31, n % 31;
    assert n == 31 * blk + cnt;
    assert CAPACITY == 31 * 4194303 + 15;
  }

  // ---------------------------------------------------------------- histories

  // The file after opening with this header and appending `recs`, each append complete.
  function FileAfter(header: seq<byte>, recs: seq<Record>): seq<byte>
    requires |header| == 512 && |recs| <= CAPACITY
  {
    if recs == [] then header + BlockHeader(0, 0)
    else
      var n := |recs| - 1;
      TornAppend(FileAfter(header, recs[..n]), n, recs[n], AppendBytes(n))
  }

  lemma FileAfterOneMore(header: seq<byte>, recs: seq<Record>, rec: Record)
    requires |header| == 512 && |recs| < CAPACITY
    ensures FileAfter(header, recs + [rec]) == TornAppend(FileAfter(header, recs), |recs|, rec, AppendBytes(|recs|))
  {
    hide TornAppend, AppendBytes;
    assert (recs + [rec])[..|recs|] == recs;
  }

  lemma {:induction false} FileAfterIsComplete(header: seq<byte>, recs: seq<Record>)
    requires |header| == 512 && |recs| <= CAPACITY
    ensures Complete(FileAfter(header, recs), recs)
    ensures FileAfter(header, recs)[..512] == header
  {
    if recs == [] {
      NewFileIsComplete(header);
    } else {
      var n := |recs| - 1;
      FileAfterIsComplete(header, recs[..n]);
      TornAppendShows(FileAfter(header, recs[..n]), recs[..n], recs[n], AppendBytes(n));
      assert recs[..n] + [recs[n]] == recs;
    }
  }

  lemma NewFileIsComplete(header: seq<byte>)
    requires |header| == 512
    ensures Complete(header + BlockHeader(0, 0), [])
    ensures (header + BlockHeader(0, 0))[..512] == header
  {
    var f := header + BlockHeader(0, 0);
    assert f[512..] == BlockHeader(0, 0);
    assert forall i | 0 <= i < 8 :: f[512 + i] == BlockHeader(0, 0)[i] == 0;
    forall b: nat | HeaderInFile(|f|, b)
      ensures DataCnt(f, b) == Filled(0, b) && BlkIndex(f, b) == b
    {
      assert b == 0;
    }
  }

  /** Over every history: stop the append after any number of bytes, at any record count,
      block boundaries included, and a reader is shown the history or the history and one more. */
  lemma TornHistory(header: seq<byte>, recs: seq<Record>, rec: Record, k: nat)
    requires |header| == 512 && |recs| < CAPACITY
    ensures Shows(TornAppend(FileAfter(header, recs), |recs|, rec, k), Visible(recs, rec, k))
    ensures |TornAppend(FileAfter(header, recs), |recs|, rec, k)| <= MAX_FILE_SIZE
  {
    FileAfterIsComplete(header, recs);
    TornAppendShows(FileAfter(header, recs), recs, rec, k);
  }

  // ---------------------------------------------------------------- the writer

  // What the writer is told about the file when it is opened.
  datatype Config = Config(chCnt: byte, freq: nat, zcode: byte, fver: byte, channels: seq<seq<byte>>)

  ghost predicate ConfigOk(c: Config) {
    && c.freq < 0x1_0000
    && |c.channels| == 16
    && forall i | 0 <= i < 16 :: |c.channels[i]| == 28
  }

  function FixedHeader(c: Config, stime: seq<byte>): (h: seq<byte>)
    requires ConfigOk(c) && |stime| == 6
    ensures |h| == 64
  {
    [0x53, 0x57, 0x30, 1, 0, c.chCnt] + stime + LittleEndian16(c.freq) + [c.zcode, c.fver] + Zeros(48)
  }

  // A default channel slot: its upper raw limit is 65535, everything else is zero.
  const EMPTY_CHANNEL: seq<byte> := Zeros(16) + [255, 255] + Zeros(10)

  function ChannelSlot(c: Config, i: nat): (slot: seq<byte>)
    requires ConfigOk(c) && i < 16
    ensures |slot| == 28
  {
    if i < c.chCnt then c.channels[i] else EMPTY_CHANNEL
  }

  // The first k channel slots.
  function ChannelArea(c: Config, k: nat): (area: seq<byte>)
    requires ConfigOk(c) && k <= 16
    ensures |area| == 28 * k
  {
    if k == 0 then [] else ChannelArea(c, k - 1) + ChannelSlot(c, k - 1)
  }

  function FileHeader(c: Config, stime: seq<byte>): (h: seq<byte>)
    requires ConfigOk(c) && |stime| == 6
    ensures |h| == 512
  {
    FixedHeader(c, stime) + ChannelArea(c, 16)
  }

  /** The file header byte by byte: magic, channel count, start time, interval, two codes, zeros, and
      sixteen channel slots of which the unused ones hold an upper raw limit of 65535. */
  lemma HeaderLayout(c: Config, stime: seq<byte>)
    requires ConfigOk(c) && |stime| == 6
    ensures var h := FileHeader(c, stime);
            && h[..6] == [0x53, 0x57, 0x30, 1, 0, c.chCnt] && h[6..12] == stime
            && h[12] as int + 256 * h[13] as int == c.freq && h[14] == c.zcode && h[15] == c.fver
            && (forall i | 16 <= i < 64 :: h[i] == 0)
            && forall i: nat | i < 16 :: SlotAt(c, h, i)
  {
    var fixed := FixedHeader(c, stime);
    hide FixedHeader, ChannelSlot;
    forall i: nat | i < 16
      ensures SlotAt(c, FileHeader(c, stime), i)
    {
      SlotInArea(c, 16, i);
      SliceBehind(fixed, ChannelArea(c, 16), 28 * i, 28 * i + 28);
      SlotBytes(c, i);
    }
    FixedBytes(c, stime);
    assert FileHeader(c, stime)[..64] == fixed;
  }

  // Slot i of the header.
  ghost predicate SlotAt(c: Config, h: seq<byte>, i: nat)
    requires ConfigOk(c) && |h| == 512 && i < 16
  {
    var slot := h[64 + 28 * i..64 + 28 * i + 28];
    if i < c.chCnt then slot == c.channels[i]
    else forall k | 0 <= k < 28 :: slot[k] == if k == 16 || k == 17 then 255 else 0
  }

  lemma SlotBytes(c: Config, i: nat)
    requires ConfigOk(c) && i < 16
    ensures i < c.chCnt ==> ChannelSlot(c, i) == c.channels[i]
    ensures i >= c.chCnt ==>
              forall k | 0 <= k < 28 :: ChannelSlot(c, i)[k] == if k == 16 || k == 17 then 255 else 0
  {
  }

  lemma {:induction false} SlotInArea(c: Config, k: nat, i: nat)
    requires ConfigOk(c) && i < k <= 16
    ensures ChannelArea(c, k)[28 * i..28 * i + 28] == ChannelSlot(c, i)
  {
    hide ChannelSlot;
    if i < k - 1 {
      SlotInArea(c, k - 1, i);
    }
  }

  lemma SliceBehind(a: seq<byte>, b: seq<byte>, lo: nat, hi: nat)
    requires lo <= hi <= |b|
    ensures (a + b)[|a| + lo..|a| + hi] == b[lo..hi]
  {
  }

  lemma FixedBytes(c: Config, stime: seq<byte>)
    requires ConfigOk(c) && |stime| == 6
    ensures var h := FixedHeader(c, stime);
            && h[..6] == [0x53, 0x57, 0x30, 1, 0, c.chCnt] && h[6..12] == stime
            && h[12] as int + 256 * h[13] as int == c.freq && h[14] == c.zcode && h[15] == c.fver
            && forall i | 16 <= i < 64 :: h[i] == 0
  {
  }

  // How many bytes a file collects before it has to store them.
  const WRITE_BUFFER: nat := 16384

  /** A buffered file (`QFile` opened without `Unbuffered`). Written bytes are collected and reach the
      medium when the file is positioned, asked for its size, flushed or closed. The medium stops
      accepting bytes once `budget` of them are stored; what it did not accept stays in the buffer. */
  class TndFile {
    var bytes: seq<byte>      // what the medium holds
    var budget: nat           // how many more bytes it accepts
    var position: nat         // where the next stored byte goes
    var buffer: seq<byte>     // written, not yet stored
    var lastWasWrite: bool    // cleared by the next attempt to store, successful or not

    constructor (budget: nat)
      ensures bytes == [] && buffer == [] && position == 0 && !lastWasWrite && this.budget == budget
    {
      bytes, buffer, position, lastWasWrite := [], [], 0, false;
      this.budget := budget;
    }

    // The content once everything in the buffer is stored.
    function Content(): seq<byte>
      reads this
    {
      WriteAt(bytes, position, buffer)
    }

    // What the medium still accepts once it has taken what it can of the buffer.
    function BudgetOnceStored(): nat
      reads this
    {
      budget - Min(|buffer|, budget)
    }

    // The medium took all it could and the buffer is still not empty.
    predicate Jammed()
      reads this
    {
      budget == 0 && buffer != []
    }

    method Flush() returns (ok: bool)
      modifies this`bytes, this`budget, this`position, this`buffer
      ensures ok <==> old(budget) >= |old(buffer)|
      ensures var k := Min(|old(buffer)|, old(budget));
              && bytes == WriteAt(old(bytes), old(position), old(buffer)[..k])
              && buffer == old(buffer)[k..] && position == old(position) + k && budget == old(budget) - k
    {
      var k := Min(|buffer|, budget);
      ok := k == |buffer|;
      bytes := WriteAt(bytes, position, buffer[..k]);
      buffer := buffer[k..];
      position := position + k;
      budget := budget - k;
    }

    method EnsureFlushed() returns (ok: bool)
      modifies this
      ensures !lastWasWrite
      ensures ok <==> !old(lastWasWrite) || old(budget) >= |old(buffer)|
      ensures var k := if old(lastWasWrite) then Min(|old(buffer)|, old(budget)) else 0;
              && bytes == WriteAt(old(bytes), old(position), old(buffer)[..k])
              && buffer == old(buffer)[k..] && position == old(position) + k && budget == old(budget) - k
    {
      ok := true;
      if lastWasWrite {
        lastWasWrite := false;
        ok := Flush();
      }
    }

    // Stores what is buffered, then moves. A position past the end is allowed.
    method Seek(off: nat) returns (ok: bool)
      modifies this
      ensures !lastWasWrite
      ensures ok <==> !old(lastWasWrite) || old(budget) >= |old(buffer)|
      ensures var k := if old(lastWasWrite) then Min(|old(buffer)|, old(budget)) else 0;
              && bytes == WriteAt(old(bytes), old(position), old(buffer)[..k])
              && buffer == old(buffer)[k..] && budget == old(budget) - k
              && position == if ok then off else old(position) + k
    {
      ok := EnsureFlushed();
      if ok {
        position := off;
      }
    }

    // Stores what is buffered; 0 if that fails.
    method Size() returns (size: nat)
      modifies this
      ensures !lastWasWrite
      ensures var k := if old(lastWasWrite) then Min(|old(buffer)|, old(budget)) else 0;
              && bytes == WriteAt(old(bytes), old(position), old(buffer)[..k])
              && buffer == old(buffer)[k..] && position == old(position) + k && budget == old(budget) - k
      ensures size == if !old(lastWasWrite) || old(budget) >= |old(buffer)| then |bytes| else 0
    {
      var ok := EnsureFlushed();
      size := if ok then |bytes| else 0;
    }

    /** Puts the data into the buffer and answers its length, whatever the medium will accept of it
        later. Only a buffer that would overflow is stored first. */
    method Write(data: seq<byte>) returns (written: int)
      requires |data| <= WRITE_BUFFER
      modifies this
      ensures lastWasWrite
      ensures |old(buffer)| + |data| <= WRITE_BUFFER ==>
                && written == |data| && buffer == old(buffer) + data
                && bytes == old(bytes) && position == old(position) && budget == old(budget)
      ensures |old(buffer)| + |data| > WRITE_BUFFER ==>
                var k := Min(|old(buffer)|, old(budget));
                && bytes == WriteAt(old(bytes), old(position), old(buffer)[..k])
                && position == old(position) + k && budget == old(budget) - k
                && (written == |data| <==> k == |old(buffer)|)
                && buffer == if k == |old(buffer)| then data else old(buffer)[k..]
    {
      lastWasWrite := true;
      if |buffer| + |data| > WRITE_BUFFER {
        var ok := Flush();
        if !ok {
          return -1;
        }
      }
      buffer := buffer + data;
      written := |data|;
    }

    // Stores what it can, unchecked, and forgets the rest.
    method Close()
      modifies this
      ensures buffer == [] && !lastWasWrite
      ensures bytes == WriteAt(old(bytes), old(position), old(buffer)[..Min(|old(buffer)|, old(budget))])
      ensures budget == old(budget) - Min(|old(buffer)|, old(budget))
    {
      var _ := Flush();
      buffer, lastWasWrite := [], false;
    }

    // Opening for writing empties the file.
    method Truncate()
      modifies this
      ensures bytes == [] && buffer == [] && position == 0 && !lastWasWrite && budget == old(budget)
    {
      bytes, buffer, position, lastWasWrite := [], [], 0, false;
    }
  }

  // Where an append that stored k bytes has stopped.
  lemma StoppedInRecord(file: seq<byte>, n: nat, rec: Record, k: nat)
    requires n < CAPACITY && k <= 32
    ensures TornAppend(file, n, rec, k) == WriteAt(file, RecordOffset(n), rec[..k])
  {
    var f1 := WriteAt(file, RecordOffset(n), rec[..k]);
    assert PatchCount(f1, n, 0) == f1;
    assert FillBlock(f1, n / 31, k - 34) == f1;
  }

  lemma CountStored(file: seq<byte>, n: nat, k: nat)
    requires k <= 2
    ensures PatchCount(file, n, k) == WriteAt(file, BlockOffset(n / 31) + 4, LittleEndian16(n % 31 + 1)[..k])
  {
  }

  // How many bytes of append n must be accepted before its last write is put into the buffer.
  function CheckedBytes(n: nat): nat {
    if n % 31 == 30 then 32 + 2 + 24 else 32
  }

  lemma NextHeaderStored(file: seq<byte>, blk: nat, m: nat)
    requires blk < CAPACITY && 24 <= m <= 32
    ensures FillBlock(file, blk, m)
         == WriteAt(FillBlock(file, blk, 24), BlockOffset(blk + 1), BlockHeader(blk + 1, 0)[..m - 24])
  {
    StoppedInNextHeader(file, blk, m);
    StoppedInNextHeader(file, blk, 24);
  }

  // The append of record n, stopped after k bytes, as the sequence of its writes.
  lemma StoppedAt(file: seq<byte>, n: nat, rec: Record, k: nat)
    requires n < CAPACITY
    ensures k <= 32 ==> TornAppend(file, n, rec, k) == WriteAt(file, RecordOffset(n), rec[..k])
    ensures k >= 32 ==>
              var counted := PatchCount(WriteAt(file, RecordOffset(n), rec), n, Min(k - 32, 2));
              TornAppend(file, n, rec, k) == if n % 31 == 30 then FillBlock(counted, n / 31, k - 34) else counted
  {
    if k <= 32 {
      StoppedInRecord(file, n, rec, k);
    }
    assert rec[..32] == rec;
    var stored := WriteAt(file, RecordOffset(n), rec);
    assert PatchCount(stored, n, Max(0, k - 32)) == PatchCount(stored, n, Max(0, Min(k - 32, 2)));
  }

  datatype AppendResult = Appended | FileNotOpen | CapacityExceeded | WriteFailed

  class Writer {
    const file: TndFile
    var isOpen: bool
    var blkIndex: nat
    var dataCnt: nat
    var recordCount: nat
    ghost var records: seq<Record>

    // The open file, once its buffer is stored, holds exactly the appended records, and the counters
    // agree with it. Only the header of a new file may still be in the buffer.
    ghost predicate Valid()
      reads this, file
    {
      && isOpen
      && Complete(file.Content(), records)
      && blkIndex == |records| / 31
      && dataCnt == |records| % 31
      && recordCount == |records|
      && (file.buffer == [] || (records == [] && file.bytes == [] && file.position == 0 && file.lastWasWrite))
    }

    constructor (file: TndFile)
      ensures this.file == file && !isOpen
    {
      this.file := file;
      isOpen := false;
      blkIndex, dataCnt, recordCount, records := 0, 0, 0, [];
    }

    method Close()
      modifies this, file
      ensures !isOpen && blkIndex == 0 && dataCnt == 0 && recordCount == 0
      ensures file.buffer == [] && !file.lastWasWrite
      ensures file.budget == if old(isOpen) then old(file.BudgetOnceStored()) else old(file.budget)
      ensures old(isOpen) ==>
                file.bytes == WriteAt(old(file.bytes), old(file.position),
                                      old(file.buffer)[..Min(|old(file.buffer)|, old(file.budget))])
      ensures !old(isOpen) ==> file.bytes == old(file.bytes)
    {
      if isOpen {
        file.Close();
      } else {
        file.buffer, file.lastWasWrite := [], false;
      }
      isOpen := false;
      blkIndex, dataCnt, recordCount := 0, 0, 0;
    }

    /** Empties the file and writes header, sixteen channel slots and the first block header. The 520
        bytes stay in the buffer: once the directory and the file are there, opening succeeds on any
        medium and nothing is stored yet. */
    method Open(c: Config, stime: seq<byte>, directoryMade: bool, fileOpened: bool) returns (ok: bool)
      requires ConfigOk(c) && |stime| == 6
      modifies this, file
      ensures ok <==> directoryMade && fileOpened
      ensures !ok ==> !isOpen && blkIndex == dataCnt == recordCount == 0
      ensures !ok && !old(isOpen) ==> file.bytes == old(file.bytes)
      ensures ok ==> Valid() && records == []
      ensures ok ==> file.bytes == [] && file.Content() == FileAfter(FileHeader(c, stime), [])
      ensures ok ==> file.buffer == FileAfter(FileHeader(c, stime), []) && |file.buffer| == 520
      ensures file.budget == if old(isOpen) then old(file.BudgetOnceStored()) else old(file.budget)
    {
      hide WriteAt, Complete, FixedHeader, ChannelSlot, BlockHeader, FileAfter;
      Close();
      if !directoryMade || !fileOpened {
        return false;
      }
      file.Truncate();
      var fixed := FixedHeader(c, stime);
      // These 520 bytes fit into the buffer, so no write of them can come back short.
      var written := file.Write(fixed);
      var i := 0;
      while i < 16
        invariant 0 <= i <= 16
        invariant file.buffer == fixed + ChannelArea(c, i)
        invariant file.bytes == [] && file.position == 0 && file.lastWasWrite
        invariant !isOpen && blkIndex == dataCnt == recordCount == 0
        invariant file.budget == if old(isOpen) then old(file.BudgetOnceStored()) else old(file.budget)
      {
        ghost var area := ChannelArea(c, i);
        written := file.Write(ChannelSlot(c, i));
        assert fixed + area + ChannelSlot(c, i) == fixed + (area + ChannelSlot(c, i));
        i := i + 1;
      }
      written := file.Write(BlockHeader(0, 0));
      isOpen := true;
      records := [];
      NewFileBuffered(FileHeader(c, stime));
      return true;
    }

    /** The record, both counters, then the count of the block. The counters move as soon as the record
        is in the buffer; that the medium takes it shows only at the next seek. */
    method StoreRecord(values: Record, ghost n: nat) returns (ok: bool)
      requires file.buffer == [] ==> n < CAPACITY && blkIndex == n / 31 && dataCnt == n % 31 && recordCount == n
      requires file.buffer != [] ==> file.Jammed()
      modifies this, file
      ensures isOpen == old(isOpen) && blkIndex == old(blkIndex) && records == old(records)
      ensures old(file.buffer) == [] ==>
                && (ok <==> old(file.budget) >= 32)
                && recordCount == n + 1 && dataCnt == n % 31 + 1
                && file.bytes == WriteAt(old(file.bytes), RecordOffset(n), values[..Min(old(file.budget), 32)])
                && file.budget == Max(0, old(file.budget) - 32)
      ensures old(file.buffer) == [] && ok ==>
                file.buffer == LittleEndian16(n % 31 + 1)
                && file.position == BlockOffset(n / 31) + 4 && file.lastWasWrite
      ensures old(file.buffer) == [] && !ok ==> file.Jammed()
      ensures old(file.buffer) != [] ==> !ok && file.Jammed() && file.bytes == old(file.bytes)
    {
      hide WriteAt, LittleEndian16, Complete;
      ok := file.Seek(BlockOffset(blkIndex) + 8 + dataCnt * 32);
      if !ok {
        return;
      }
      assert file.buffer == [] || file.Jammed();
      var written := file.Write(values);
      if written != 32 {
        return false;
      }
      assert old(file.buffer) == [] ==> file.buffer == values == values[..32];
      dataCnt := (dataCnt + 1) % 0x1_0000;
      recordCount := (recordCount + 1) % 0x1_0000_0000;
      ok := file.Seek(BlockOffset(blkIndex) + 4);
      if !ok {
        return;
      }
      written := file.Write(LittleEndian16(dataCnt));
      ok := written == 2;
    }

    /** Pads the full block and puts the next block's header into the buffer before moving to it. It
        answers true as soon as the padding is stored. */
    method StartNextBlock(ghost n: nat) returns (ok: bool)
      requires n < CAPACITY && n % 31 == 30 && blkIndex == n / 31
      requires file.buffer == LittleEndian16(31) && file.position == BlockOffset(n / 31) + 4 && file.lastWasWrite
      modifies this, file
      ensures isOpen == old(isOpen) && recordCount == old(recordCount) && records == old(records)
      ensures ok <==> old(file.budget) >= 26
      ensures ok ==> blkIndex == n / 31 + 1 && dataCnt == 0
      ensures file.budget == Max(0, old(file.budget) - 26)
      ensures file.bytes == FillBlock(PatchCount(old(file.bytes), n, Min(old(file.budget), 2)), n / 31,
                                      Min(old(file.budget), 26) - 2)
      ensures ok ==> file.buffer == BlockHeader(n / 31 + 1, 0) && file.position == BlockOffset(n / 31 + 1)
      ensures !ok ==> file.Jammed()
    {
      hide WriteAt, Zeros, LittleEndian16, BlockHeader, PatchCount, FillBlock, Complete;
      ghost var counted := PatchCount(file.bytes, n, Min(file.budget, 2));
      CountStored(file.bytes, n, Min(file.budget, 2));
      StoppedInPad(counted, n / 31, Min(file.budget, 26) - 2);
      ok := file.Seek(BlockOffset(blkIndex) + 8 + 31 * 32);
      if !ok {
        return;
      }
      assert file.bytes == counted;
      var written := file.Write(Zeros(24));
      assert file.buffer == Zeros(24);
      var nextBlk := blkIndex + 1;
      ok := file.Seek(BlockOffset(nextBlk));
      if !ok {
        return;
      }
      written := file.Write(BlockHeader(nextBlk, 0));
      assert file.buffer == BlockHeader(nextBlk, 0);
      blkIndex := nextBlk;
      dataCnt := 0;
    }

    // The append after the capacity check: record, counters, count and, when the block is full, the next one.
    method WriteRecord(values: Record, ghost n: nat) returns (ok: bool)
      requires file.buffer == [] ==> n < CAPACITY && blkIndex == n / 31 && dataCnt == n % 31 && recordCount == n
      requires file.buffer != [] ==> file.Jammed()
      modifies this, file
      ensures isOpen == old(isOpen) && records == old(records)
      ensures old(file.buffer) == [] ==>
                var have := old(file.budget);
                && (ok <==> have >= CheckedBytes(n))
                && recordCount == n + 1
                && file.bytes == TornAppend(old(file.bytes), n, values, Min(have, AppendBytes(n)))
                && if have >= AppendBytes(n)
                   then file.buffer == [] && file.budget == have - AppendBytes(n)
                        && blkIndex == (n + 1) / 31 && dataCnt == (n + 1) % 31
                   else file.Jammed()
      ensures old(file.buffer) != [] ==> !ok && file.Jammed() && file.bytes == old(file.bytes)
    {
      hide WriteAt, PatchCount, FillBlock, TornAppend, LittleEndian16, BlockHeader, Complete;
      ghost var empty, before, have := file.buffer == [], file.bytes, file.budget;
      ok := StoreRecord(values, n);
      assert values[..32] == values;
      if empty {
        StoppedAt(before, n, values, Min(have, AppendBytes(n)));
      }
      if !ok {
        return;
      }
      ghost var stored := file.bytes;
      if dataCnt == 31 {
        ok := StartNextBlock(n);
        if !ok {
          return;
        }
        NextHeaderStored(PatchCount(stored, n, 2), n / 31, Min(have - 34, 32));
      } else {
        CountStored(stored, n, Min(have - 32, 2));
      }
      var _ := file.Flush();
    }

    /** Appends one record. The file becomes the append stopped after as many bytes as the medium
        accepts. The answer is true exactly when the bytes before the last write are accepted: that
        last write is only flushed, and the result of the flush is not looked at. After a medium has
        once refused a byte, no append succeeds. */
    method AppendRecord(values: Record) returns (r: AppendResult)
      requires isOpen ==> Valid() || file.Jammed()
      modifies this, file
      ensures r == FileNotOpen <==> !old(isOpen)
      ensures r == FileNotOpen ==> unchanged(this) && unchanged(file)
      ensures isOpen == old(isOpen)
      ensures old(isOpen) && !old(Valid()) ==>
                r in {WriteFailed, CapacityExceeded} && file.Jammed() && file.bytes == old(file.bytes)
      ensures old(isOpen && Valid()) && old(file.budget) < |old(file.buffer)| ==>
                r == WriteFailed && file.Jammed() && file.bytes == old(file.Content())[..old(file.budget)]
      ensures old(isOpen && Valid()) && old(file.budget) >= |old(file.buffer)| ==>
                var n, have := |old(records)|, old(file.budget) - |old(file.buffer)|;
                && (r == CapacityExceeded <==> n >= CAPACITY)
                && (r == CapacityExceeded ==> Valid() && records == old(records) && file.bytes == old(file.bytes))
                && (r == Appended <==> n < CAPACITY && have >= CheckedBytes(n))
                && (n < CAPACITY ==>
                      && file.bytes == TornAppend(old(file.Content()), n, values, Min(have, AppendBytes(n)))
                      && recordCount == n + 1
                      && if have >= AppendBytes(n)
                         then Valid() && file.buffer == [] && records == old(records) + [values]
                              && file.budget == have - AppendBytes(n)
                         else file.Jammed())
    {
      hide WriteAt, PatchCount, FillBlock, TornAppend, Shows, SelfIndexed, HoldsRecord, CountsOk;
      hide LittleEndian16, BlockHeader;
      if !isOpen {
        return FileNotOpen;
      }
      ghost var n, content, pending, budget0 := |records|, file.Content(), file.buffer, file.budget;
      ghost var valid := Valid();
      ghost var good := valid && budget0 >= |pending|;
      var worstCase := if dataCnt == 30 then 32 + 24 + 8 else 32;
      var size := file.Size();
      if good {
        WholeBuffer(pending);
        CapacityIsExact(n);
      } else if valid {
        PrefixStored(pending, budget0);
      }
      if size + worstCase > MAX_FILE_SIZE {
        return CapacityExceeded;
      }
      if good {
        TornAppendShows(content, records, values, AppendBytes(n));
      }
      var ok := WriteRecord(values, n);
      if !ok {
        return WriteFailed;
      }
      records := records + [values];
      return Appended;
    }
  }

  // Of a new file's buffer, only the first k bytes are stored.
  lemma PrefixStored(buffer: seq<byte>, k: nat)
    requires k <= |buffer|
    ensures WriteAt([], 0, buffer[..k]) == WriteAt([], 0, buffer)[..k]
  {
  }

  // A new file, stored whole from the buffer.
  lemma NewFileBuffered(header: seq<byte>)
    requires |header| == 512
    ensures FileAfter(header, []) == header + BlockHeader(0, 0)
    ensures WriteAt([], 0, FileAfter(header, [])) == FileAfter(header, [])
    ensures Complete(FileAfter(header, []), [])
  {
    NewFileIsComplete(header);
    WriteAtEnd([], header + BlockHeader(0, 0));
  }

  lemma WholeBuffer(buffer: seq<byte>)
    ensures buffer[..|buffer|] == buffer && buffer[|buffer|..] == []
  {
  }
}
