/** The `.tnd` trend file layout: a 512-byte header, then 1024-byte blocks.
    A block is an 8-byte header (little-endian block index and record count),
    31 records of 32 bytes, and 24 bytes of padding. */
module TndFormat {

  type byte = x: int | 0 <= x < 256

  const MAX_FILE_SIZE: nat := 4 * 1024 * 1024 * 1024

  // The largest number of records a file may hold before an append is refused.
  const CAPACITY: nat := 130_023_408

  // One record: sixteen 16-bit samples, stored as their 32 bytes.
  type Record = r: seq<byte> | |r| == 32 witness seq(32, _ => 0)

  function Min(a: int, b: int): int {
    if a < b then a else b
  }

  function Max(a: int, b: int): int {
    if a < b then b else a
  }

  function BlockOffset(blk: nat): nat {
    512 + blk * 1024
  }

  function RecordOffset(index: nat): nat {
    BlockOffset(index / 31) + 8 + index % 31 * 32
  }

  // Does a file of this size contain the whole header of block `blk`?
  predicate HeaderInFile(size: nat, blk: nat) {
    BlockOffset(blk) + 8 <= size
  }

  function LittleEndian16(x: nat): (r: seq<byte>)
    requires x < 0x1_0000
    ensures |r| == 2
  {
    [x % 256, x / 256]
  }

  function LittleEndian32(x: nat): seq<byte>
    requires x < 0x1_0000_0000
  {
    [x % 256, x / 256 % 256, x / 256 / 256 % 256, x / 256 / 256 / 256]
  }

  function BlockHeader(blk: nat, dataCnt: nat): (h: seq<byte>)
    requires blk < 0x1_0000_0000 && dataCnt < 0x1_0000
    ensures |h| == 8
  {
    LittleEndian32(blk) + LittleEndian16(dataCnt) + [0, 0]
  }

  // The two fields of a block header, as read back from the file.
  function BlkIndex(file: seq<byte>, blk: nat): nat
    requires HeaderInFile(|file|, blk)
  {
    var o := BlockOffset(blk);
    file[o] as int + 256 * file[o + 1] as int + 65536 * file[o + 2] as int + 16777216 * file[o + 3] as int
  }

  function DataCnt(file: seq<byte>, blk: nat): nat
    requires HeaderInFile(|file|, blk)
  {
    var o := BlockOffset(blk);
    file[o + 4] as int + 256 * file[o + 5] as int
  }

  // Overwrites `data` at `off`, extending the file (zero-filled up to `off`) when needed.
  function WriteAt(file: seq<byte>, off: nat, data: seq<byte>): (r: seq<byte>)
    ensures data == [] ==> r == file
    ensures data != [] ==> |r| == Max(|file|, off + |data|)
  {
    if data == [] then file
    else
      seq(Max(|file|, off + |data|), i requires 0 <= i =>
        if off <= i < off + |data| then data[i - off] else if i < |file| then file[i] else 0)
  }

  // Size of a file that holds exactly n records.
  function ImageSize(n: nat): nat {
    RecordOffset(n)
  }

  // How many of the n records lie in block `blk`.
  function Filled(n: nat, blk: nat): nat {
    Max(0, Min(31, n - blk * 31))
  }

  // The file shows record j: its 32 bytes are inside the file and are r.
  ghost predicate HoldsRecord(file: seq<byte>, j: nat, r: Record) {
    && RecordOffset(j) + 32 <= |file|
    && file[RecordOffset(j)..RecordOffset(j) + 32] == r
  }

  ghost predicate CountsOk(file: seq<byte>, n: nat) {
    forall blk: nat | HeaderInFile(|file|, blk) :: DataCnt(file, blk) == Filled(n, blk)
  }

  // Every block header inside the file names its own block.
  ghost predicate SelfIndexed(file: seq<byte>) {
    forall blk: nat | HeaderInFile(|file|, blk) :: BlkIndex(file, blk) == blk
  }

  /** What a reader may rely on: the file shows exactly `recs`. All their bytes are present,
      every block header inside the file counts them, and at most one unfinished record follows. */
  ghost predicate Shows(file: seq<byte>, recs: seq<Record>) {
    && ImageSize(0) <= |file| <= ImageSize(|recs|) + 32
    && (forall j | 0 <= j < |recs| :: HoldsRecord(file, j, recs[j]))
    && CountsOk(file, |recs|)
  }

  /** A file after completed appends only: the exact size, and each block carries its own index. */
  ghost predicate Complete(file: seq<byte>, recs: seq<Record>) {
    && Shows(file, recs)
    && |file| == ImageSize(|recs|)
    && |recs| <= CAPACITY
    && SelfIndexed(file)
  }
}
