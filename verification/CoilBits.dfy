/** Coils packed eight to a byte, least significant bit first, and read back. */
module CoilBits {

  function Mask(i: nat): bv8
    requires i < 8
  {
    match i
    case 0 => 0x01
    case 1 => 0x02
    case 2 => 0x04
    case 3 => 0x08
    case 4 => 0x10
    case 5 => 0x20
    case 6 => 0x40
    case _ => 0x80
  }

  function BitOf(b: bv8, i: nat): bool
    requires i < 8
  {
    b & Mask(i) != 0
  }

  // The two expressions of the code: a set bit is or-ed in as 1 << i and tested as (b >> i) & 1.
  lemma ShiftIsMask(i: nat)
    requires i < 8
    ensures (1 as bv8) << i == Mask(i)
  {
  }

  lemma ShiftTestsBit(b: bv8, i: nat)
    requires i < 8
    ensures (b >> i) & 1 == 1 <==> BitOf(b, i)
  {
  }

  // Coil i as the bit `mask`; coils past the end are zero.
  function Piece(values: seq<bool>, i: nat, mask: bv8): bv8 {
    if i < |values| && values[i] then mask else 0
  }

  function OrAll(p0: bv8, p1: bv8, p2: bv8, p3: bv8, p4: bv8, p5: bv8, p6: bv8, p7: bv8): bv8 {
    p0 | p1 | p2 | p3 | p4 | p5 | p6 | p7
  }

  function PackedByte(values: seq<bool>, k: nat): bv8 {
    OrAll(Piece(values, 8 * k, 0x01), Piece(values, 8 * k + 1, 0x02),
          Piece(values, 8 * k + 2, 0x04), Piece(values, 8 * k + 3, 0x08),
          Piece(values, 8 * k + 4, 0x10), Piece(values, 8 * k + 5, 0x20),
          Piece(values, 8 * k + 6, 0x40), Piece(values, 8 * k + 7, 0x80))
  }

  function Packed(values: seq<bool>): (p: seq<bv8>)
    ensures |p| == (|values| + 7) / 8
  {
    seq((|values| + 7) / 8, k requires 0 <= k => PackedByte(values, k))
  }

  function Unpacked(data: seq<bv8>, count: nat): (v: seq<bool>)
    requires (count + 7) / 8 <= |data|
    ensures |v| == count
  {
    seq(count, i requires 0 <= i < count => BitOf(data[i / 8], i % 8))
  }

  function At(values: seq<bool>, i: nat): bool {
    i < |values| && values[i]
  }

  lemma BitsOfPackedByte(values: seq<bool>, k: nat)
    ensures var b := PackedByte(values, k);
            && BitOf(b, 0) == At(values, 8 * k) && BitOf(b, 1) == At(values, 8 * k + 1)
            && BitOf(b, 2) == At(values, 8 * k + 2) && BitOf(b, 3) == At(values, 8 * k + 3)
            && BitOf(b, 4) == At(values, 8 * k + 4) && BitOf(b, 5) == At(values, 8 * k + 5)
            && BitOf(b, 6) == At(values, 8 * k + 6) && BitOf(b, 7) == At(values, 8 * k + 7)
  {
  }

  lemma BitOfPackedByte(values: seq<bool>, k: nat, c: nat)
    requires c < 8
    ensures BitOf(PackedByte(values, k), c) == At(values, 8 * k + c)
  {
    hide BitOf, PackedByte, At;
    BitsOfPackedByte(values, k);
  }

  lemma BitOfPacked(values: seq<bool>, i: nat)
    requires i < |values|
    ensures BitOf(Packed(values)[i / 8], i % 8) == values[i]
  {
    hide BitOf, PackedByte;
    BitOfPackedByte(values, i / 8, i % 8);
    assert i == 8 * (i / 8) + i % 8;
  }

  // The bits behind the last coil are zero.
  lemma BitOfPadding(values: seq<bool>, i: nat)
    requires |values| <= i < 8 * |Packed(values)|
    ensures !BitOf(Packed(values)[i / 8], i % 8)
  {
    hide BitOf, PackedByte;
    BitOfPackedByte(values, i / 8, i % 8);
    assert i == 8 * (i / 8) + i % 8;
  }

  /** Packing loses nothing: any number of coils is read back in order. */
  lemma UnpackedPacked(values: seq<bool>)
    ensures Unpacked(Packed(values), |values|) == values
  {
    hide BitOf, Packed;
    forall i | 0 <= i < |values|
      ensures BitOf(Packed(values)[i / 8], i % 8) == values[i]
    {
      BitOfPacked(values, i);
    }
  }

  // A byte is its eight bits.
  lemma SameBits(x: bv8, y: bv8)
    requires forall c | 0 <= c < 8 :: BitOf(x, c) == BitOf(y, c)
    ensures x == y
  {
    EightBits(x, y);
  }

  lemma EightBits(x: bv8, y: bv8)
    requires BitOf(x, 0) == BitOf(y, 0) && BitOf(x, 1) == BitOf(y, 1) && BitOf(x, 2) == BitOf(y, 2)
    requires BitOf(x, 3) == BitOf(y, 3) && BitOf(x, 4) == BitOf(y, 4) && BitOf(x, 5) == BitOf(y, 5)
    requires BitOf(x, 6) == BitOf(y, 6) && BitOf(x, 7) == BitOf(y, 7)
    ensures x == y
  {
  }

  lemma OrSetsBit(x: bv8, r: nat, c: nat)
    requires r < 8 && c < 8
    ensures BitOf(x | Mask(r), c) == (BitOf(x, c) || c == r)
  {
  }

  // Byte k holds the coils seen so far.
  ghost predicate Holds(b: bv8, values: seq<bool>, n: nat, k: nat)
    requires n <= |values|
  {
    forall c | 0 <= c < 8 :: BitOf(b, c) == (8 * k + c < n && values[8 * k + c])
  }

  lemma HoldsMore(b: bv8, values: seq<bool>, i: nat, k: nat)
    requires i < |values| && Holds(b, values, i, k)
    ensures Holds(if k == i / 8 && values[i] then b | Mask(i % 8) else b, values, i + 1, k)
  {
    hide BitOf, Mask;
    var r := i % 8;
    var b' := if k == i / 8 && values[i] then b | Mask(r) else b;
    assert i == 8 * (i / 8) + r;
    forall c | 0 <= c < 8
      ensures BitOf(b', c) == (8 * k + c < i + 1 && values[8 * k + c])
    {
      OrSetsBit(b, r, c);
    }
  }

  lemma HoldsAll(b: bv8, values: seq<bool>, k: nat)
    requires Holds(b, values, |values|, k)
    ensures b == PackedByte(values, k)
  {
    hide BitOf, PackedByte;
    forall c | 0 <= c < 8
      ensures BitOf(b, c) == BitOf(PackedByte(values, k), c)
    {
      BitOfPackedByte(values, k, c);
    }
    SameBits(b, PackedByte(values, k));
  }

  // The packing loop.
  method PackCoils(values: seq<bool>) returns (packed: seq<bv8>)
    ensures packed == Packed(values)
  {
    hide PackedByte, Mask, Holds;
    packed := seq((|values| + 7) / 8, _ => 0);
    forall k | 0 <= k < |packed|
      ensures Holds(packed[k], values, 0, k)
    {
      NothingHeld(values, k);
    }
    var i := 0;
    while i < |values|
      invariant 0 <= i <= |values| && |packed| == (|values| + 7) / 8
      invariant forall k | 0 <= k < |packed| :: Holds(packed[k], values, i, k)
    {
      forall k | 0 <= k < |packed|
        ensures Holds(if k == i / 8 && values[i] then packed[k] | Mask(i % 8) else packed[k], values, i + 1, k)
      {
        HoldsMore(packed[k], values, i, k);
      }
      if values[i] {
        ShiftIsMask(i % 8);
        packed := packed[i / 8 := packed[i / 8] | ((1 as bv8) << (i % 8))];
      }
      i := i + 1;
    }
    forall k | 0 <= k < |packed|
      ensures packed[k] == PackedByte(values, k)
    {
      HoldsAll(packed[k], values, k);
    }
  }

  lemma NothingHeld(values: seq<bool>, k: nat)
    ensures Holds(0, values, 0, k)
  {
  }

  // The unpacking loop of a response whose data starts at `from`.
  method UnpackCoils(response: seq<bv8>, from: nat, count: nat) returns (out: seq<bool>)
    requires from + (count + 7) / 8 <= |response|
    ensures out == Unpacked(response[from..], count)
  {
    hide BitOf, Mask;
    out := [];
    var i := 0;
    while i < count
      invariant 0 <= i <= count && |out| == i
      invariant forall k | 0 <= k < i :: out[k] == BitOf(response[from..][k / 8], k % 8)
    {
      var value := response[from + i / 8];
      ShiftTestsBit(value, i % 8);
      out := out + [(value >> (i % 8)) & 0x01 == 1];
      i := i + 1;
    }
  }
}
