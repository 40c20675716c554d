/** The bytes on the wire, field by field, and worked examples: the read of section 6.3 of MODBUS
    Application Protocol V1.1b3 and the checksum of section 6.2.2 of MODBUS over Serial Line V1.02. */
module WireFormat {
  import opened DeviceModels
  import opened CoilBits
  import opened Octets
  import opened ModbusPdu
  import opened ModbusFrames
  import opened ModbusAscii
  import opened LinearRegister
  import opened Crc16
  import opened PcLink

  // The two bytes at `at` are the low sixteen bits of x, high byte first.
  predicate BigEndianAt(bytes: seq<bv8>, at: nat, x: int)
    requires at + 2 <= |bytes|
  {
    Value(bytes[at]) * 256 + Value(bytes[at + 1]) == x % 65536
  }

  /** Unit, function, address and quantity of every request. */
  lemma RequestLayout(unit: bv8, fc: bv8, address: int, quantity: int)
    ensures var h := Header(unit, fc, address, quantity);
            && |h| == 6 && h[0] == unit && h[1] == fc
            && BigEndianAt(h, 2, address) && BigEndianAt(h, 4, quantity)
  {
    hide Hi, Lo, Value;
    NumberReadsBack(address);
    NumberReadsBack(quantity);
  }

  /** Words go out in order, each with its high byte first. */
  lemma WordsLayout(before: seq<bv8>, values: seq<Word>, i: nat)
    requires i < |values|
    ensures BigEndianAt(before + WordBytes(values), |before| + 2 * i, values[i])
  {
    hide Hi, Lo, Value, WordBytes;
    WordBytesAt(values, i);
    NumberReadsBack(values[i]);
  }

  /** A write of registers carries their number twice: as quantity, and doubled as the byte count;
      then the words. */
  lemma WriteRegistersLayout(unit: bv8, address: int, values: seq<Word>)
    ensures var p := WriteRegistersPdu(unit, address, values);
            && |p| == 7 + 2 * |values| && p[0] == unit && p[1] == 0x10
            && BigEndianAt(p, 2, address) && BigEndianAt(p, 4, |values|) && Value(p[6]) == 2 * |values| % 256
            && forall i | 0 <= i < |values| :: BigEndianAt(p, 7 + 2 * i, values[i])
  {
    hide Hi, Lo, Value, WordBytes, BigEndianAt;
    var h := Header(unit, 0x10, address, |values|) + [Lo(|values| * 2)];
    RegisterHeader(unit, address, |values|);
    forall i | 0 <= i < |values|
      ensures BigEndianAt(h + WordBytes(values), 7 + 2 * i, values[i])
    {
      WordsLayout(h, values, i);
    }
    SamePlace(h, WordBytes(values), 2, address);
    SamePlace(h, WordBytes(values), 4, |values|);
  }

  lemma RegisterHeader(unit: bv8, address: int, count: nat)
    ensures var h := Header(unit, 0x10, address, count) + [Lo(count * 2)];
            && |h| == 7 && h[0] == unit && h[1] == 0x10
            && BigEndianAt(h, 2, address) && BigEndianAt(h, 4, count) && Value(h[6]) == 2 * count % 256
  {
    hide Hi, Lo, Value;
    RequestLayout(unit, 0x10, address, count);
    NumberReadsBack(count * 2);
  }

  lemma SamePlace(a: seq<bv8>, b: seq<bv8>, at: nat, x: int)
    requires at + 2 <= |a| && BigEndianAt(a, at, x)
    ensures BigEndianAt(a + b, at, x)
  {
    hide Value;
  }

  // Coil i is bit i % 8 of byte i / 8 behind `at`.
  predicate CoilAt(bytes: seq<bv8>, at: nat, i: nat, on: bool)
    requires at + i / 8 < |bytes|
  {
    BitOf(bytes[at + i / 8], i % 8) == on
  }

  // A coil is its bit, and the bits behind the last coil are zero.
  lemma CoilsLayout(before: seq<bv8>, values: seq<bool>, i: nat)
    requires i < 8 * |Packed(values)|
    ensures CoilAt(before + Packed(values), |before|, i, At(values, i))
  {
    hide Packed, BitOf;
    assert i / 8 < |Packed(values)|;
    if i < |values| {
      BitOfPacked(values, i);
    } else {
      BitOfPadding(values, i);
    }
  }

  /** A write of coils carries their number, the number of bytes they fill, and the coils from the low
      bit of the first byte on, filled up with zeros. */
  lemma WriteCoilsLayout(unit: bv8, address: int, values: seq<bool>)
    ensures var p := WriteCoilsPdu(unit, address, values);
            && |p| == 7 + (|values| + 7) / 8 && p[0] == unit && p[1] == 0x0F
            && BigEndianAt(p, 2, address) && BigEndianAt(p, 4, |values|) && Value(p[6]) == (|values| + 7) / 8 % 256
            && forall i | 0 <= i < 8 * ((|values| + 7) / 8) :: CoilAt(p, 7, i, At(values, i))
  {
    hide Hi, Lo, Value, Packed, BigEndianAt, CoilAt, At;
    var h := Header(unit, 0x0F, address, |values|) + [Lo(|Packed(values)|)];
    CoilHeader(unit, address, |values|, |Packed(values)|);
    forall i | 0 <= i < 8 * |Packed(values)|
      ensures CoilAt(h + Packed(values), 7, i, At(values, i))
    {
      CoilsLayout(h, values, i);
    }
    SamePlace(h, Packed(values), 2, address);
    SamePlace(h, Packed(values), 4, |values|);
  }

  lemma CoilHeader(unit: bv8, address: int, count: nat, bytes: nat)
    ensures var h := Header(unit, 0x0F, address, count) + [Lo(bytes)];
            && |h| == 7 && h[0] == unit && h[1] == 0x0F
            && BigEndianAt(h, 2, address) && BigEndianAt(h, 4, count) && Value(h[6]) == bytes % 256
  {
    hide Hi, Lo, Value;
    RequestLayout(unit, 0x0F, address, count);
    NumberReadsBack(bytes);
  }

  /** A single coil is written as FF00 or 0000 (hex). */
  lemma WriteCoilLayout(unit: bv8, address: int, value: bool)
    ensures var p := WriteCoilPdu(unit, address, value);
            && |p| == 6 && p[0] == unit && p[1] == 0x05 && BigEndianAt(p, 2, address)
            && p[4] == (if value then 0xFF else 0) && p[5] == 0
  {
    hide Hi, Lo, Value;
    NumberReadsBack(address);
  }

  /** The MBAP header: transaction, protocol 0, and the number of bytes that follow; then the pdu. */
  lemma TcpLayout(tid: nat, pdu: seq<bv8>)
    ensures var f := TcpFrame(tid, pdu);
            && |f| == 6 + |pdu| && BigEndianAt(f, 0, tid) && f[2] == f[3] == 0
            && BigEndianAt(f, 4, |pdu|) && f[6..] == pdu
  {
    hide Hi, Lo, Value;
    NumberReadsBack(tid);
    NumberReadsBack(|pdu|);
  }

  /** A PCLink frame: the body between a start mark and its sum, as two digits. */
  lemma PcLinkLayout(body: seq<bv8>)
    ensures var f, n := WrapFrame(body), |body|;
            && |f| == n + 5 && f[0] == 0x02 && f[1..n + 1] == body
            && f[n + 1] == HexChar(Sum(body) >> 4) && f[n + 2] == HexChar(Sum(body) & 0x0F)
            && f[n + 3] == 0x0D && f[n + 4] == 0x0A
  {
    hide Sum, HexChar;
    HexOfByte(Sum(body));
  }

  // ---------------------------------------------------------------- worked examples

  const REQUEST: seq<bv8> := [0x11, 0x03, 0x00, 0x6B, 0x00, 0x03]

  // Registers 108 to 110 of device 17.
  lemma RequestExample()
    ensures Header(0x11, 0x03, 0x6B, 3) == REQUEST
  {
    hide ByteOf;
    ByteExamples();
  }

  lemma ByteExamples()
    ensures ByteOf(0) == 0 && ByteOf(3) == 0x03 && ByteOf(0x6B) == 0x6B
  {
    hide Join, Half, Digit;
    JoinExamples();
    HalvesExample(0, 0, 0);
    HalvesExample(3, 1, 0);
    HalvesExample(0x6B, 0x35, 0x1A);
    HalvesExample(0x1A, 0x0D, 0x06);
    HalvesExample(0x06, 0x03, 0x01);
    HalvesExample(0x01, 0, 0);
  }

  lemma HalvesExample(x: nat, y: nat, z: nat)
    ensures y == x / 2 ==> Half(x) == y
    ensures z == y / 2 ==> Half(y) == z
    ensures Digit(x) == x % 2 && Digit(y) == y % 2
  {
  }

  lemma JoinExamples()
    ensures Join(0, 0, 0, 0, 0, 0, 0, 0) == 0 && Join(1, 1, 0, 0, 0, 0, 0, 0) == 0x03
    ensures Join(1, 1, 0, 1, 0, 1, 1, 0) == 0x6B
  {
  }

  lemma RequestLrc()
    ensures Lrc(REQUEST) == 0x7E
  {
    var r := REQUEST;
    assert r[..4] == [0x11, 0x03, 0x00] + [0x6B] && r == r[..4] + [0x00, 0x03];
    SumConcat([0x11, 0x03, 0x00], [0x6B]);
    SumConcat(r[..4], [0x00, 0x03]);
    assert [0x11, 0x03, 0x00][..2] == [0x11, 0x03] && [0x11, 0x03][..1] == [0x11] && [0x00, 0x03][..1] == [0x00];
    SumOfOne(0x11);
    SumOfOne(0x6B);
    SumOfOne(0x00);
  }

  // :1103006B00037E, carriage return, line feed
  lemma AsciiExample()
    ensures AsciiFrame(REQUEST)
         == [0x3A, 0x31, 0x31, 0x30, 0x33, 0x30, 0x30, 0x36, 0x42, 0x30, 0x30, 0x30, 0x33, 0x37, 0x45, 0x0D, 0x0A]
  {
    hide Lrc;
    RequestLrc();
    var r, hex := REQUEST, ToHex(REQUEST);
    ToHexAt(r, 0);
    ToHexAt(r, 1);
    ToHexAt(r, 2);
    ToHexAt(r, 3);
    ToHexAt(r, 4);
    ToHexAt(r, 5);
    ToHexAt([0x7E], 0);
    hide ToHex;
    assert |hex| == 12;
  }

  lemma CrcExample()
    ensures RtuFrame([0x02, 0x07]) == [0x02, 0x07, 0x41, 0x12]
  {
    hide AddBits;
    assert Widen([0x02, 0x07]) == [Extend(0x02), Extend(0x07)];
    FeedTwo(0xFFFF, 0x02, 0x07);
    CrcExampleBits();
  }

  lemma CrcExampleBits()
    ensures AddBits(AddBits(0xFFFF, 0x02), 0x07) == 0x1241
  {
  }
}
