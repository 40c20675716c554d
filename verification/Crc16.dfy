/** The Modbus RTU checksum (section 6.2.2 of MODBUS over Serial Line V1.02): its loop, its
    zero residue, and which corruptions of a frame of any length it detects. */
module Crc16 {
  import opened LinearRegister
  import opened Octets

  // One bit of the division by the generator, least significant bit first.
  function Shift(x: bv16): bv16 {
    if x & 1 == 1 then (x >> 1) ^ 0xA001 else x >> 1
  }

  function Xor(x: bv16, y: bv16): bv16 {
    x ^ y
  }

  const CRC16: Register<bv16> := Register(0, Xor, Shift)

  function Widen(data: seq<bv8>): (w: seq<bv16>)
    ensures |w| == |data|
    ensures forall i | 0 <= i < |data| :: w[i] == Extend(data[i])
  {
    seq(|data|, i requires 0 <= i < |data| => Extend(data[i]))
  }

  function Extend(b: bv8): bv16 {
    b as bv16
  }

  // The register after `data`, started from `crc`.
  function Crc(crc: bv16, data: seq<bv8>): bv16 {
    Feed(CRC16, crc, Widen(data))
  }

  function LowByte(x: bv16): bv8 {
    (x & 0xFF) as bv8
  }

  function HighByte(x: bv16): bv8 {
    (x >> 8) as bv8
  }

  // The checksum loop.
  method Compute(data: seq<bv8>) returns (crc: bv16)
    ensures crc == Crc(0xFFFF, data)
  {
    hide Shift, Xor;
    crc := 0xFFFF;
    ghost var symbols := Widen(data);
    assert symbols[0..] == symbols;
    var i := 0;
    while i < |data|
      invariant 0 <= i <= |data|
      invariant Feed(CRC16, crc, symbols[i..]) == Crc(0xFFFF, data)
    {
      assert symbols[i..][0] == symbols[i] && symbols[i..][1..] == symbols[i + 1..];
      crc := ComputeByte(crc, data[i]);
      i := i + 1;
    }
    assert symbols[|data|..] == [];
  }

  // The inner loop: one byte, eight bits.
  method ComputeByte(before: bv16, b: bv8) returns (crc: bv16)
    ensures crc == Add(CRC16, before, Extend(b))
  {
    hide Shift;
    crc := before ^ (b as bv16);
    var bit := 0;
    while bit < 8
      invariant 0 <= bit <= 8
      invariant Shifts(CRC16, crc, 8 - bit) == Add(CRC16, before, Extend(b))
    {
      ShiftByCases(crc);
      assert Shifts(CRC16, crc, 8 - bit) == Shifts(CRC16, Shift(crc), 7 - bit);
      if crc & 0x0001 == 1 {
        crc := crc >> 1;
        crc := crc ^ 0xA001;
      } else {
        crc := crc >> 1;
      }
      bit := bit + 1;
    }
  }

  lemma ShiftByCases(x: bv16)
    ensures x & 1 == 1 ==> Shift(x) == (x >> 1) ^ 0xA001
    ensures x & 1 != 1 ==> Shift(x) == x >> 1
  {
  }

  // ---------------------------------------------------------------- the register is linear

  lemma XorSelf(x: bv16)
    ensures Xor(x, x) == 0
  {
  }

  lemma XorZeroEqual(x: bv16, y: bv16)
    requires Xor(x, y) == 0
    ensures x == y
  {
  }

  lemma XorZeroIff(x: bv16, y: bv16)
    ensures Xor(x, y) == 0 <==> x == y
  {
    hide Xor;
    XorSelf(x);
    if Xor(x, y) == 0 {
      XorZeroEqual(x, y);
    }
  }

  lemma XorWithZero(x: bv16)
    ensures Xor(x, 0) == x
  {
  }

  lemma XorAssociates(x: bv16, y: bv16, z: bv16)
    ensures Xor(Xor(x, y), z) == Xor(x, Xor(y, z))
  {
  }

  lemma XorRegroups(a: bv16, b: bv16, c: bv16, d: bv16)
    ensures Xor(Xor(a, b), Xor(c, d)) == Xor(Xor(a, c), Xor(b, d))
  {
    hide Xor;
    XorAssociates(a, b, Xor(c, d));
    XorAssociates(b, c, d);
    XorCommutes(b, c);
    XorAssociates(c, b, d);
    XorAssociates(a, c, Xor(b, d));
  }

  lemma XorCommutes(x: bv16, y: bv16)
    ensures Xor(x, y) == Xor(y, x)
  {
  }

  lemma ShiftLinearOddOdd(x: bv16, y: bv16)
    requires x & 1 == 1 && y & 1 == 1
    ensures Shift(x ^ y) == Shift(x) ^ Shift(y)
  {
  }

  lemma ShiftLinearOddEven(x: bv16, y: bv16)
    requires x & 1 == 1 && y & 1 != 1
    ensures Shift(x ^ y) == Shift(x) ^ Shift(y)
  {
  }

  lemma ShiftLinearEvenEven(x: bv16, y: bv16)
    requires x & 1 != 1 && y & 1 != 1
    ensures Shift(x ^ y) == Shift(x) ^ Shift(y)
  {
  }

  lemma ShiftLinear(x: bv16, y: bv16)
    ensures Shift(Xor(x, y)) == Xor(Shift(x), Shift(y))
  {
    hide Shift;
    if x & 1 == 1 {
      if y & 1 == 1 {
        ShiftLinearOddOdd(x, y);
      } else {
        ShiftLinearOddEven(x, y);
      }
    } else if y & 1 == 1 {
      ShiftLinearOddEven(y, x);
      XorCommutes(x, y);
      XorCommutes(Shift(x), Shift(y));
    } else {
      ShiftLinearEvenEven(x, y);
    }
  }

  lemma ShiftToZero(x: bv16)
    ensures Shift(x) == 0 ==> x == 0
  {
  }

  lemma CrcShiftIsLinear()
    ensures ShiftIsLinear(CRC16)
  {
    hide Shift, Xor;
    forall x: bv16, y: bv16
      ensures CRC16.shift(CRC16.xor(x, y)) == CRC16.xor(CRC16.shift(x), CRC16.shift(y))
    {
      ShiftLinear(x, y);
    }
  }

  lemma CrcZeroIff()
    ensures ZeroIffEqual(CRC16)
  {
    hide Shift, Xor;
    forall x: bv16, y: bv16
      ensures CRC16.xor(x, y) == CRC16.zero <==> x == y
    {
      XorZeroIff(x, y);
    }
  }

  lemma CrcZeroIsNeutral()
    ensures ZeroIsNeutral(CRC16)
  {
    hide Shift, Xor;
    forall x: bv16
      ensures CRC16.xor(x, CRC16.zero) == x
    {
      XorWithZero(x);
    }
  }

  lemma CrcRegroups()
    ensures Regroups(CRC16)
  {
    hide Shift, Xor;
    forall a: bv16, b: bv16, c: bv16, d: bv16
      ensures CRC16.xor(CRC16.xor(a, b), CRC16.xor(c, d)) == CRC16.xor(CRC16.xor(a, c), CRC16.xor(b, d))
    {
      XorRegroups(a, b, c, d);
    }
  }

  lemma CrcShiftLosesNothing()
    ensures ShiftLosesNothing(CRC16)
  {
    hide Shift, Xor;
    forall x: bv16
      ensures CRC16.shift(x) == CRC16.zero ==> x == CRC16.zero
    {
      ShiftToZero(x);
    }
  }

  lemma CrcLaws()
    ensures Laws(CRC16)
  {
    hide ShiftIsLinear, ZeroIffEqual, ZeroIsNeutral, Regroups, ShiftLosesNothing;
    CrcShiftIsLinear();
    CrcZeroIff();
    CrcZeroIsNeutral();
    CrcRegroups();
    CrcShiftLosesNothing();
  }

  // ---------------------------------------------------------------- single patterns, bit by bit

  function Shift8(x: bv16): bv16 {
    Shift(Shift(Shift(Shift(Shift(Shift(Shift(Shift(x))))))))
  }

  lemma EightShifts(x: bv16)
    ensures Shifts(CRC16, x, BITS) == Shift8(x)
  {
    hide Shift, Xor;
    var x2 := Shift(Shift(x));
    var x4 := Shift(Shift(x2));
    var x6 := Shift(Shift(x4));
    assert Shifts(CRC16, x, 8) == Shifts(CRC16, Shift(x), 7) == Shifts(CRC16, x2, 6);
    assert Shifts(CRC16, x2, 6) == Shifts(CRC16, Shift(x2), 5) == Shifts(CRC16, x4, 4);
    assert Shifts(CRC16, x4, 4) == Shifts(CRC16, Shift(x4), 3) == Shifts(CRC16, x6, 2);
    assert Shifts(CRC16, x6, 2) == Shifts(CRC16, Shift(x6), 1) == Shifts(CRC16, Shift(Shift(x6)), 0);
  }

  function AddBits(crc: bv16, b: bv16): bv16 {
    Shift8(Xor(crc, b))
  }

  lemma AddIsAddBits(crc: bv16, b: bv16)
    ensures Add(CRC16, crc, b) == AddBits(crc, b)
  {
    hide Shift, Xor;
    EightShifts(Xor(crc, b));
  }

  lemma FeedTwo(crc: bv16, a: bv16, b: bv16)
    ensures Feed(CRC16, crc, [a, b]) == AddBits(AddBits(crc, a), b)
  {
    hide Shift, Xor, Shift8, AddBits, Add;
    AddIsAddBits(crc, a);
    AddIsAddBits(AddBits(crc, a), b);
    var s := [a, b];
    assert s[1..] == [b] && s[1..][1..] == [];
    assert Feed(CRC16, crc, s) == Feed(CRC16, AddBits(crc, a), s[1..]);
    assert Feed(CRC16, AddBits(crc, a), s[1..]) == Feed(CRC16, AddBits(AddBits(crc, a), b), s[1..][1..]);
  }

  lemma FeedThree(crc: bv16, a: bv16, b: bv16, c: bv16)
    ensures Feed(CRC16, crc, [a, b, c]) == AddBits(AddBits(AddBits(crc, a), b), c)
  {
    hide Shift, Xor, Shift8, AddBits, Add;
    AddIsAddBits(crc, a);
    var s := [a, b, c];
    assert s[1..] == [b, c];
    FeedTwo(AddBits(crc, a), b, c);
    assert Feed(CRC16, crc, s) == Feed(CRC16, AddBits(crc, a), s[1..]);
  }

  // The low r bits of a byte.
  function LowBits(r: nat): bv8
    requires r <= 8
  {
    match r
    case 0 => 0x00
    case 1 => 0x01
    case 2 => 0x03
    case 3 => 0x07
    case 4 => 0x0F
    case 5 => 0x1F
    case 6 => 0x3F
    case 7 => 0x7F
    case _ => 0xFF
  }

  /** An error pattern over three consecutive bytes that spans at most 16 consecutive bits, in
      transmission order: bits r.. of the first byte, the second byte, bits ..r of the third. */
  ghost predicate Burst(d0: bv8, d1: bv8, d2: bv8, r: nat)
    requires r <= 8
  {
    d0 & LowBits(r) == 0 && d2 & !LowBits(r) == 0
  }

  lemma BurstLeavesRegister(d0: bv8, d1: bv8, d2: bv8, r: nat)
    requires r <= 8 && Burst(d0, d1, d2, r)
    ensures AddBits(AddBits(AddBits(0, d0 as bv16), d1 as bv16), d2 as bv16) == 0
         ==> d0 == 0 && d1 == 0 && d2 == 0
  {
  }

  lemma TwoBytesLeaveRegister(d0: bv8, d1: bv8)
    ensures AddBits(AddBits(0, d0 as bv16), d1 as bv16) == 0 ==> d0 == 0 && d1 == 0
  {
    NoChange();
    hide AddBits;
    BurstLeavesRegister(d0, d1, 0, 0);
  }

  lemma NoChange()
    ensures AddBits(0, 0 as bv8 as bv16) == 0
    ensures forall d0: bv8, d1: bv8 :: Burst(d0, d1, 0, 0)
  {
  }

  // ---------------------------------------------------------------- error detection

  lemma WidenConcat(a: seq<bv8>, b: seq<bv8>)
    ensures Widen(a + b) == Widen(a) + Widen(b)
  {
  }

  // Two byte strings that agree outside one stretch collide exactly when that stretch's pattern does.
  lemma StretchDetectedIff(crc: bv16, before: seq<bv8>, a: seq<bv8>, b: seq<bv8>, after: seq<bv8>)
    requires |a| == |b|
    ensures Crc(crc, before + a + after) == Crc(crc, before + b + after)
       <==> Feed(CRC16, 0, Difference(CRC16, Widen(a), Widen(b))) == 0
  {
    CrcLaws();
    WidenConcat(before + a, after);
    WidenConcat(before + b, after);
    WidenConcat(before, a);
    WidenConcat(before, b);
    ChangeDetectedIff(CRC16, crc, Widen(before), Widen(a), Widen(b), Widen(after));
  }

  // The bits in which two bytes differ.
  function ByteXor(x: bv8, y: bv8): bv8 {
    x ^ y
  }

  lemma ByteXorExtends(x: bv8, y: bv8)
    ensures Xor(Extend(x), Extend(y)) == Extend(ByteXor(x, y))
    ensures ByteXor(x, y) == 0 <==> x == y
  {
  }

  lemma DifferenceOfThree(a: seq<bv8>, b: seq<bv8>)
    requires |a| == |b| == 3
    ensures Difference(CRC16, Widen(a), Widen(b))
         == [Extend(ByteXor(a[0], b[0])), Extend(ByteXor(a[1], b[1])), Extend(ByteXor(a[2], b[2]))]
  {
    hide Xor, ByteXor, Extend, Shift;
    ByteXorExtends(a[0], b[0]);
    ByteXorExtends(a[1], b[1]);
    ByteXorExtends(a[2], b[2]);
    var x, y := Widen(a), Widen(b);
    assert Difference(CRC16, x[1..][1..], y[1..][1..]) == [CRC16.xor(x[2], y[2])] + [];
    assert Difference(CRC16, x[1..], y[1..]) == [CRC16.xor(x[1], y[1])] + Difference(CRC16, x[1..][1..], y[1..][1..]);
  }

  lemma DifferenceOfTwo(a: seq<bv8>, b: seq<bv8>)
    requires |a| == |b| == 2
    ensures Difference(CRC16, Widen(a), Widen(b)) == [Extend(ByteXor(a[0], b[0])), Extend(ByteXor(a[1], b[1]))]
  {
    hide Xor, ByteXor, Extend, Shift;
    ByteXorExtends(a[0], b[0]);
    ByteXorExtends(a[1], b[1]);
    var x, y := Widen(a), Widen(b);
    assert Difference(CRC16, x[1..], y[1..]) == [CRC16.xor(x[1], y[1])] + [];
  }

  /** Burst detection at any length: two byte strings that differ only in a burst of at most
      16 bits, wherever it lies, have different checksums. */
  lemma BurstDetected(crc: bv16, before: seq<bv8>, a: seq<bv8>, b: seq<bv8>, after: seq<bv8>, r: nat)
    requires |a| == |b| == 3 && a != b && r <= 8
    requires Burst(ByteXor(a[0], b[0]), ByteXor(a[1], b[1]), ByteXor(a[2], b[2]), r)
    ensures Crc(crc, before + a + after) != Crc(crc, before + b + after)
  {
    hide Xor, ByteXor, Extend, Shift, Shift8, AddBits, Burst, LowBits;
    StretchDetectedIff(crc, before, a, b, after);
    var d0, d1, d2 := ByteXor(a[0], b[0]), ByteXor(a[1], b[1]), ByteXor(a[2], b[2]);
    DifferenceOfThree(a, b);
    FeedThree(0, Extend(d0), Extend(d1), Extend(d2));
    ByteXorExtends(a[0], b[0]);
    ByteXorExtends(a[1], b[1]);
    ByteXorExtends(a[2], b[2]);
    PatternLeavesRegister(d0, d1, d2, r);
  }

  lemma PatternLeavesRegister(d0: bv8, d1: bv8, d2: bv8, r: nat)
    requires r <= 8 && Burst(d0, d1, d2, r)
    ensures AddBits(AddBits(AddBits(0, Extend(d0)), Extend(d1)), Extend(d2)) == 0
         ==> d0 == 0 && d1 == 0 && d2 == 0
  {
    hide Xor, Shift, Shift8, AddBits, Burst, LowBits;
    BurstLeavesRegister(d0, d1, d2, r);
  }

  /** In particular, any change confined to two consecutive bytes is detected. */
  lemma TwoByteChangeDetected(crc: bv16, before: seq<bv8>, a: seq<bv8>, b: seq<bv8>, after: seq<bv8>)
    requires |a| == |b| == 2 && a != b
    ensures Crc(crc, before + a + after) != Crc(crc, before + b + after)
  {
    hide Xor, ByteXor, Shift, Shift8, AddBits;
    StretchDetectedIff(crc, before, a, b, after);
    var d0, d1 := ByteXor(a[0], b[0]), ByteXor(a[1], b[1]);
    DifferenceOfTwo(a, b);
    FeedTwo(0, Extend(d0), Extend(d1));
    ByteXorExtends(a[0], b[0]);
    ByteXorExtends(a[1], b[1]);
    TwoBytesLeaveRegister(d0, d1);
  }

  // ---------------------------------------------------------------- zero residue

  lemma LowByteCancels(crc: bv16)
    ensures AddBits(crc, LowByte(crc) as bv16) == crc >> 8
  {
  }

  lemma HighByteCancels(crc: bv16)
    ensures AddBits(crc >> 8, HighByte(crc) as bv16) == 0
  {
  }

  lemma OwnBytesCancel(crc: bv16)
    ensures AddBits(AddBits(crc, Extend(LowByte(crc))), Extend(HighByte(crc))) == 0
  {
    hide AddBits, LowByte, HighByte;
    LowByteCancels(crc);
    HighByteCancels(crc);
  }

  lemma ResidueOfOwnBytes(crc: bv16, payload: seq<bv8>)
    ensures Crc(crc, payload + [LowByte(Crc(crc, payload)), HighByte(Crc(crc, payload))]) == 0
  {
    hide AddBits, LowByte, HighByte, Extend, Xor, Shift;
    var c := Crc(crc, payload);
    var own := [LowByte(c), HighByte(c)];
    WidenConcat(payload, own);
    FeedConcat(CRC16, crc, Widen(payload), Widen(own));
    assert Widen(own) == [Extend(LowByte(c)), Extend(HighByte(c))];
    FeedTwo(c, Extend(LowByte(c)), Extend(HighByte(c)));
    OwnBytesCancel(c);
  }

  /** Two bytes complete a payload to residue zero exactly when they are its checksum, low byte first. */
  lemma ResidueIsZeroIff(crc: bv16, payload: seq<bv8>, lo: bv8, hi: bv8)
    ensures Crc(crc, payload + [lo, hi]) == 0
       <==> lo == LowByte(Crc(crc, payload)) && hi == HighByte(Crc(crc, payload))
  {
    hide LowByte, HighByte, Crc;
    var c := Crc(crc, payload);
    var own, given := [LowByte(c), HighByte(c)], [lo, hi];
    ResidueOfOwnBytes(crc, payload);
    if given != own {
      TwoByteChangeDetected(crc, payload, own, given, []);
      assert payload + own + [] == payload + own && payload + given + [] == payload + given;
    }
    assert given == own <==> given[0] == own[0] && given[1] == own[1];
  }

  // ---------------------------------------------------------------- odd numbers of bit errors

  // Number of one bits.
  function BitCount(x: bv8): nat {
    One(x & 1 != 0) + One(x & 2 != 0) + One(x & 4 != 0) + One(x & 8 != 0)
    + One(x & 16 != 0) + One(x & 32 != 0) + One(x & 64 != 0) + One(x & 128 != 0)
  }

  // Number of bit positions in which two byte strings differ.
  function BitErrors(a: seq<bv8>, b: seq<bv8>): nat
    requires |a| == |b|
    decreases a
  {
    if a == [] then 0 else BitCount(ByteXor(a[0], b[0])) + BitErrors(a[1..], b[1..])
  }

  function Down8(x: bv16): bv16 { x >> 8 }
  function Down4(x: bv16): bv16 { x >> 4 }
  function Down2(x: bv16): bv16 { x >> 2 }
  function Down1(x: bv16): bv16 { x >> 1 }

  function Fold8(x: bv16): bv16 { Xor(x, Down8(x)) }
  function Fold4(x: bv16): bv16 { Xor(x, Down4(x)) }
  function Fold2(x: bv16): bv16 { Xor(x, Down2(x)) }
  function Fold1(x: bv16): bv16 { Xor(x, Down1(x)) }
  function LowBit(x: bv16): bool { x & 1 == 1 }

  // Is the number of one bits of a register odd?
  function Odd(x: bv16): bool {
    LowBit(Fold1(Fold2(Fold4(Fold8(x)))))
  }

  lemma Fold8Linear(x: bv16, y: bv16)
    ensures Fold8(Xor(x, y)) == Xor(Fold8(x), Fold8(y))
  {
    Down8Linear(x, y);
    hide Xor, Down8;
    XorRegroups(x, y, Down8(x), Down8(y));
  }

  lemma Down8Linear(x: bv16, y: bv16)
    ensures Down8(Xor(x, y)) == Xor(Down8(x), Down8(y))
  {
  }

  lemma Fold4Linear(x: bv16, y: bv16)
    ensures Fold4(Xor(x, y)) == Xor(Fold4(x), Fold4(y))
  {
    Down4Linear(x, y);
    hide Xor, Down4;
    XorRegroups(x, y, Down4(x), Down4(y));
  }

  lemma Down4Linear(x: bv16, y: bv16)
    ensures Down4(Xor(x, y)) == Xor(Down4(x), Down4(y))
  {
  }

  lemma Fold2Linear(x: bv16, y: bv16)
    ensures Fold2(Xor(x, y)) == Xor(Fold2(x), Fold2(y))
  {
    Down2Linear(x, y);
    hide Xor, Down2;
    XorRegroups(x, y, Down2(x), Down2(y));
  }

  lemma Down2Linear(x: bv16, y: bv16)
    ensures Down2(Xor(x, y)) == Xor(Down2(x), Down2(y))
  {
  }

  lemma Fold1Linear(x: bv16, y: bv16)
    ensures Fold1(Xor(x, y)) == Xor(Fold1(x), Fold1(y))
  {
    Down1Linear(x, y);
    hide Xor, Down1;
    XorRegroups(x, y, Down1(x), Down1(y));
  }

  lemma Down1Linear(x: bv16, y: bv16)
    ensures Down1(Xor(x, y)) == Xor(Down1(x), Down1(y))
  {
  }

  lemma LowBitLinear(x: bv16, y: bv16)
    ensures LowBit(Xor(x, y)) == (LowBit(x) != LowBit(y))
  {
  }

  lemma OddLinear(x: bv16, y: bv16)
    ensures Odd(Xor(x, y)) == (Odd(x) != Odd(y))
  {
    hide Xor, Fold8, Fold4, Fold2, Fold1, LowBit;
    var x1, y1 := Fold8(x), Fold8(y);
    var x2, y2 := Fold4(x1), Fold4(y1);
    var x3, y3 := Fold2(x2), Fold2(y2);
    Fold8Linear(x, y);
    Fold4Linear(x1, y1);
    Fold2Linear(x2, y2);
    Fold1Linear(x3, y3);
    LowBitLinear(Fold1(x3), Fold1(y3));
  }

  // Shifting an even register moves its bits; the generator has an odd number of terms below the
  // bit that is shifted out, so an odd register keeps its parity too.
  lemma OddShift(x: bv16)
    ensures Odd(Shift(x)) == Odd(x)
  {
    hide Shift, Xor, Odd;
    var low := x & 1;
    var rest := x & 0xFFFE;
    SplitLowBit(x);
    ShiftLinear(rest, low);
    OddLinear(rest, low);
    OddLinear(Shift(rest), Shift(low));
    OddShiftEven(rest);
    OddShiftBit(low);
  }

  lemma SplitLowBit(x: bv16)
    ensures x == Xor(x & 0xFFFE, x & 1)
  {
  }

  lemma OddShiftBit(x: bv16)
    requires x <= 1
    ensures Odd(Shift(x)) == Odd(x)
  {
  }

  lemma OddShiftEven(x: bv16)
    requires x & 1 == 0
    ensures Odd(Shift(x)) == Odd(x)
  {
    hide Shift, Xor, Odd;
    var low, high := x & 0x00FE, x & 0xFF00;
    SplitBytes(x);
    ShiftLinear(high, low);
    OddLinear(high, low);
    OddLinear(Shift(high), Shift(low));
    OddShiftLow(low);
    OddShiftHigh(high);
  }

  lemma SplitBytes(x: bv16)
    requires x & 1 == 0
    ensures x == Xor(x & 0xFF00, x & 0x00FE)
  {
  }

  lemma OddShiftLow(x: bv16)
    requires x & 0x00FE == x
    ensures Odd(Shift(x)) == Odd(x)
  {
  }

  lemma OddShiftHigh(x: bv16)
    requires x & 0xFF00 == x
    ensures Odd(Shift(x)) == Odd(x)
  {
  }

  lemma OddOfByte(x: bv8)
    ensures Odd(Extend(x)) <==> BitCount(x) % 2 == 1
  {
    hide Odd;
    OddOfBits(x);
    CountParity(x & 1 != 0, x & 2 != 0, x & 4 != 0, x & 8 != 0, x & 16 != 0, x & 32 != 0, x & 64 != 0, x & 128 != 0);
  }

  lemma OddOfBits(x: bv8)
    ensures Odd(Extend(x)) == ((((((((x & 1 != 0) != (x & 2 != 0)) != (x & 4 != 0)) != (x & 8 != 0))
                               != (x & 16 != 0)) != (x & 32 != 0)) != (x & 64 != 0)) != (x & 128 != 0))
  {
  }

  lemma CountParity(a: bool, b: bool, c: bool, d: bool, e: bool, f: bool, g: bool, h: bool)
    ensures ((One(a) + One(b) + One(c) + One(d) + One(e) + One(f) + One(g) + One(h)) % 2 == 1)
         == (((((((a != b) != c) != d) != e) != f) != g) != h)
  {
  }

  lemma CrcParity()
    ensures IsParity(CRC16, Odd)
  {
    hide Shift, Xor, Odd;
    forall x: bv16, y: bv16
      ensures Odd(CRC16.xor(x, y)) == (Odd(x) != Odd(y))
    {
      OddLinear(x, y);
    }
    forall x: bv16
      ensures Odd(CRC16.shift(x)) == Odd(x)
    {
      OddShift(x);
    }
  }

  lemma {:induction false} ErrorsAreOdds(a: seq<bv8>, b: seq<bv8>)
    requires |a| == |b|
    ensures BitErrors(a, b) % 2 == Odds(Difference(CRC16, Widen(a), Widen(b)), Odd) % 2
    decreases a
  {
    hide Shift, Xor, Odd, BitCount, Extend, ByteXor;
    if a != [] {
      ErrorsAreOdds(a[1..], b[1..]);
      assert Widen(a)[1..] == Widen(a[1..]) && Widen(b)[1..] == Widen(b[1..]);
      var d := Difference(CRC16, Widen(a), Widen(b));
      assert d[1..] == Difference(CRC16, Widen(a[1..]), Widen(b[1..]));
      ByteXorExtends(a[0], b[0]);
      OddOfByte(ByteXor(a[0], b[0]));
    }
  }

  /** Any odd number of bit errors, spread over a frame of any length, is detected. */
  lemma OddErrorsDetected(crc: bv16, a: seq<bv8>, b: seq<bv8>)
    requires |a| == |b| && BitErrors(a, b) % 2 == 1
    ensures Crc(crc, a) != Crc(crc, b)
  {
    hide Shift, Xor, Odd;
    CrcLaws();
    CrcParity();
    ErrorsAreOdds(a, b);
    FeedLinear(CRC16, crc, crc, Widen(a), Widen(b));
    XorZeroIff(crc, crc);
    FeedParity(CRC16, Odd, 0, Difference(CRC16, Widen(a), Widen(b)));
    OddZero();
    XorZeroIff(Crc(crc, a), Crc(crc, b));
  }

  lemma OddZero()
    ensures !Odd(0)
  {
  }
}
