/** Modbus requests and responses as the clients build and check them, without framing, and a
    conforming slave (sections 6.1, 6.3, 6.5, 6.6, 6.11, 6.12 of MODBUS Application Protocol V1.1b3).
    A pdu here starts with the unit id, as in the clients. */
module ModbusPdu {
  import opened DeviceModels
  import opened CoilBits
  import opened Octets
  import opened Wrappers

  // The low and the next byte of an integer, as the casts and shifts of the code give them.
  function Lo(x: int): bv8 {
    ByteOf(x)
  }

  function Hi(x: int): bv8 {
    ByteOf(x / 256)
  }

  function Number(hi: bv8, lo: bv8): (n: nat)
    ensures n < 65536
  {
    Value(hi) * 256 + Value(lo)
  }

  lemma TwoBytes(x: int)
    ensures x % 65536 == x / 256 % 256 * 256 + x % 256
  {
    var q := x / 256;
    var w := q / 256;
    assert x == 256 * q + x % 256 && q == 256 * w + q % 256;
    assert x == 65536 * w + (q % 256 * 256 + x % 256);
  }

  lemma NumberReadsBack(x: int)
    ensures Number(Hi(x), Lo(x)) == x % 65536
    ensures Value(Lo(x)) == x % 256
  {
    hide Value, ByteOf;
    ValueOfByte(x);
    ValueOfByte(x / 256);
    TwoBytes(x);
  }

  // ---------------------------------------------------------------- words in a pdu

  function WordBytes(values: seq<Word>): (b: seq<bv8>)
    ensures |b| == 2 * |values|
  {
    if values == [] then []
    else WordBytes(values[..|values| - 1]) + [Hi(values[|values| - 1]), Lo(values[|values| - 1])]
  }

  function BytesWords(data: seq<bv8>, count: nat): (w: seq<Word>)
    requires 2 * count <= |data|
    ensures |w| == count
  {
    seq<Word>(count, i requires 0 <= i < count => Number(data[2 * i], data[2 * i + 1]))
  }

  lemma {:induction false} WordBytesAt(values: seq<Word>, i: nat)
    requires i < |values|
    ensures WordBytes(values)[2 * i] == Hi(values[i]) && WordBytes(values)[2 * i + 1] == Lo(values[i])
    decreases |values|
  {
    hide Hi, Lo;
    if i < |values| - 1 {
      WordBytesAt(values[..|values| - 1], i);
    }
  }

  /** Words survive their bytes. */
  lemma WordsReadBack(values: seq<Word>)
    ensures BytesWords(WordBytes(values), |values|) == values
  {
    hide Hi, Lo, Number, WordBytes;
    forall i | 0 <= i < |values|
      ensures Number(WordBytes(values)[2 * i], WordBytes(values)[2 * i + 1]) == values[i]
    {
      WordBytesAt(values, i);
      NumberReadsBack(values[i]);
    }
  }

  method AppendWords(pdu: seq<bv8>, values: seq<Word>) returns (out: seq<bv8>)
    ensures out == pdu + WordBytes(values)
  {
    hide Hi, Lo;
    out := pdu;
    var i := 0;
    while i < |values|
      invariant 0 <= i <= |values|
      invariant out == pdu + WordBytes(values[..i])
    {
      assert values[..i + 1][..i] == values[..i];
      out := out + [Hi(values[i]), Lo(values[i])];
      i := i + 1;
    }
    assert values[..|values|] == values;
  }

  // The word loop of a response whose data starts at `from`.
  method DecodeWords(response: seq<bv8>, from: nat, count: nat) returns (out: seq<Word>)
    requires from + 2 * count <= |response|
    ensures out == BytesWords(response[from..], count)
  {
    hide Number;
    out := [];
    var i := 0;
    while i < count
      invariant 0 <= i <= count && |out| == i
      invariant forall k | 0 <= k < i :: out[k] == Number(response[from..][2 * k], response[from..][2 * k + 1])
    {
      out := out + [Number(response[from + i * 2], response[from + 1 + i * 2])];
      i := i + 1;
    }
  }

  // ---------------------------------------------------------------- requests

  function Header(unit: bv8, fc: bv8, address: int, quantity: int): seq<bv8> {
    [unit, fc, Hi(address), Lo(address), Hi(quantity), Lo(quantity)]
  }

  function WriteCoilPdu(unit: bv8, address: int, value: bool): seq<bv8> {
    [unit, 0x05, Hi(address), Lo(address), if value then 0xFF else 0x00, 0x00]
  }

  function WriteCoilsPdu(unit: bv8, address: int, values: seq<bool>): seq<bv8> {
    Header(unit, 0x0F, address, |values|) + [Lo(|Packed(values)|)] + Packed(values)
  }

  function WriteRegistersPdu(unit: bv8, address: int, values: seq<Word>): seq<bv8> {
    Header(unit, 0x10, address, |values|) + [Lo(|values| * 2)] + WordBytes(values)
  }

  // ---------------------------------------------------------------- a conforming slave

  datatype Slave = Slave(unit: bv8, coils: seq<bool>, regs: seq<Word>)

  ghost predicate SlaveOk(s: Slave) {
    |s.coils| <= 65536 && |s.regs| <= 65536
  }

  function Exception(unit: bv8, fc: bv8, code: bv8): seq<bv8> {
    [unit, fc | 0x80, code]
  }

  function Overwrite<T>(memory: seq<T>, at: nat, values: seq<T>): (r: seq<T>)
    requires at + |values| <= |memory|
    ensures |r| == |memory|
    ensures r[at..at + |values|] == values
    ensures r[..at] == memory[..at] && r[at + |values|..] == memory[at + |values|..]
  {
    memory[..at] + values + memory[at + |values|..]
  }

  // Start address, quantity or value of a request.
  function Field1(pdu: seq<bv8>): nat
    requires |pdu| >= 6
  {
    Number(pdu[2], pdu[3])
  }

  function Field2(pdu: seq<bv8>): nat
    requires |pdu| >= 6
  {
    Number(pdu[4], pdu[5])
  }

  /** Answers one request addressed to this slave. A request of the wrong length is discarded. */
  function Serve(s: Slave, pdu: seq<bv8>): (Slave, Option<seq<bv8>>) {
    if |pdu| < 6 || pdu[0] != s.unit then (s, None)
    else if pdu[1] == 0x01 then ServeReadCoils(s, pdu)
    else if pdu[1] == 0x03 then ServeReadRegisters(s, pdu)
    else if pdu[1] == 0x05 then ServeWriteCoil(s, pdu)
    else if pdu[1] == 0x06 then ServeWriteRegister(s, pdu)
    else if pdu[1] == 0x0F then ServeWriteCoils(s, pdu)
    else if pdu[1] == 0x10 then ServeWriteRegisters(s, pdu)
    else (s, Some(Exception(s.unit, pdu[1], 0x01)))
  }

  function ServeReadCoils(s: Slave, pdu: seq<bv8>): (Slave, Option<seq<bv8>>)
    requires |pdu| >= 6
  {
    var a, q := Field1(pdu), Field2(pdu);
    if |pdu| != 6 then (s, None)
    else if q < 1 || q > 2000 then (s, Some(Exception(s.unit, 0x01, 0x03)))
    else if a + q > |s.coils| then (s, Some(Exception(s.unit, 0x01, 0x02)))
    else (s, Some([s.unit, 0x01, Lo((q + 7) / 8)] + Packed(s.coils[a..a + q])))
  }

  function ServeReadRegisters(s: Slave, pdu: seq<bv8>): (Slave, Option<seq<bv8>>)
    requires |pdu| >= 6
  {
    var a, q := Field1(pdu), Field2(pdu);
    if |pdu| != 6 then (s, None)
    else if q < 1 || q > 125 then (s, Some(Exception(s.unit, 0x03, 0x03)))
    else if a + q > |s.regs| then (s, Some(Exception(s.unit, 0x03, 0x02)))
    else (s, Some([s.unit, 0x03, Lo(q * 2)] + WordBytes(s.regs[a..a + q])))
  }

  function ServeWriteCoil(s: Slave, pdu: seq<bv8>): (Slave, Option<seq<bv8>>)
    requires |pdu| >= 6
  {
    var a := Field1(pdu);
    if |pdu| != 6 then (s, None)
    else if pdu[5] != 0x00 || (pdu[4] != 0x00 && pdu[4] != 0xFF) then (s, Some(Exception(s.unit, 0x05, 0x03)))
    else if a >= |s.coils| then (s, Some(Exception(s.unit, 0x05, 0x02)))
    else (s.(coils := s.coils[a := pdu[4] == 0xFF]), Some(pdu))
  }

  function ServeWriteRegister(s: Slave, pdu: seq<bv8>): (Slave, Option<seq<bv8>>)
    requires |pdu| >= 6
  {
    var a := Field1(pdu);
    if |pdu| != 6 then (s, None)
    else if a >= |s.regs| then (s, Some(Exception(s.unit, 0x06, 0x02)))
    else (s.(regs := s.regs[a := Field2(pdu)]), Some(pdu))
  }

  function ServeWriteCoils(s: Slave, pdu: seq<bv8>): (Slave, Option<seq<bv8>>)
    requires |pdu| >= 6
  {
    var a, q := Field1(pdu), Field2(pdu);
    if |pdu| < 7 || |pdu| != 7 + Value(pdu[6]) then (s, None)
    else if q < 1 || q > 1968 || Value(pdu[6]) != (q + 7) / 8 then (s, Some(Exception(s.unit, 0x0F, 0x03)))
    else if a + q > |s.coils| then (s, Some(Exception(s.unit, 0x0F, 0x02)))
    else (s.(coils := Overwrite(s.coils, a, Unpacked(pdu[7..], q))), Some(pdu[..6]))
  }

  function ServeWriteRegisters(s: Slave, pdu: seq<bv8>): (Slave, Option<seq<bv8>>)
    requires |pdu| >= 6
  {
    var a, q := Field1(pdu), Field2(pdu);
    if |pdu| < 7 || |pdu| != 7 + Value(pdu[6]) then (s, None)
    else if q < 1 || q > 123 || Value(pdu[6]) != q * 2 then (s, Some(Exception(s.unit, 0x10, 0x03)))
    else if a + q > |s.regs| then (s, Some(Exception(s.unit, 0x10, 0x02)))
    else (s.(regs := Overwrite(s.regs, a, BytesWords(pdu[7..], q))), Some(pdu[..6]))
  }

  // ---------------------------------------------------------------- checking a response

  datatype Verdict =
    | Accepted
    | TooShort
    | ChecksumMismatch
    | UnitMismatch
    | SlaveException(code: bv8)
    | FunctionMismatch
    | ByteCountMismatch
    | BufferTooShort
    | LengthMismatch

  // The checks the three clients share, on unit id, function code and data.
  function VerifyPdu(unit: bv8, pdu: seq<bv8>, fc: bv8, expectedDataBytes: int): Verdict {
    if |pdu| < 3 then TooShort
    else if pdu[0] != unit then UnitMismatch
    else if pdu[1] == fc | 0x80 then SlaveException(pdu[2])
    else if pdu[1] != fc then FunctionMismatch
    else if fc == 0x01 || fc == 0x03 then
      if Value(pdu[2]) != expectedDataBytes then ByteCountMismatch
      else if |pdu| < 3 + expectedDataBytes then BufferTooShort
      else Accepted
    else if expectedDataBytes >= 0 && |pdu| - 2 != expectedDataBytes then LengthMismatch
    else Accepted
  }

  // Truncating division by 8 as the C++ expression (count + 7) / 8 computes it.
  function CoilBytes(count: int): int {
    if count + 7 >= 0 then (count + 7) / 8 else -((-(count + 7)) / 8)
  }

  /** What an accepted read response guarantees about any bytes at all: the data is there. */
  lemma AcceptedReadIsLongEnough(unit: bv8, pdu: seq<bv8>, fc: bv8, expectedDataBytes: int)
    requires fc == 0x01 || fc == 0x03
    requires VerifyPdu(unit, pdu, fc, expectedDataBytes) == Accepted
    ensures 0 <= expectedDataBytes < 256 && |pdu| >= 3 + expectedDataBytes
  {
  }

  /** When a response is accepted: from the unit asked, of the function asked, and with the data asked. */
  lemma AcceptedIffAsked(unit: bv8, pdu: seq<bv8>, fc: bv8, expectedDataBytes: int)
    requires fc < 0x80
    ensures VerifyPdu(unit, pdu, fc, expectedDataBytes) == Accepted
       <==> && |pdu| >= 3 && pdu[0] == unit && pdu[1] == fc
            && (if fc == 0x01 || fc == 0x03
                then Value(pdu[2]) == expectedDataBytes && |pdu| >= 3 + expectedDataBytes
                else expectedDataBytes < 0 || |pdu| == 2 + expectedDataBytes)
    ensures VerifyPdu(unit, pdu, fc, expectedDataBytes).SlaveException?
       <==> |pdu| >= 3 && pdu[0] == unit && pdu[1] == fc | 0x80
  {
    assert fc != fc | 0x80;
    hide Value;
  }

  lemma ExceptionIsRejected(unit: bv8, fc: bv8, code: bv8, expectedDataBytes: int)
    ensures VerifyPdu(unit, Exception(unit, fc, code), fc, expectedDataBytes) == SlaveException(code)
  {
  }
}
