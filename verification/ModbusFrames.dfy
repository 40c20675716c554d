/** The three framings of a pdu: RTU (checksum), ASCII (hex digits and LRC), TCP (MBAP header). */
module ModbusFrames {
  import opened ModbusPdu
  import opened Wrappers
  import opened Crc16
  import CrcDistance

  // ---------------------------------------------------------------- RTU

  function RtuFrame(pdu: seq<bv8>): seq<bv8> {
    pdu + [LowByte(Crc(0xFFFF, pdu)), HighByte(Crc(0xFFFF, pdu))]
  }

  function JoinBytes(lo: bv8, hi: bv8): bv16 {
    (lo as bv16) | ((hi as bv16) << 8)
  }

  // The checksum a received frame carries, low byte first.
  function ReceivedCrc(frame: seq<bv8>): bv16
    requires |frame| >= 2
  {
    JoinBytes(frame[|frame| - 2], frame[|frame| - 1])
  }

  function Payload(frame: seq<bv8>): seq<bv8>
    requires |frame| >= 2
  {
    frame[..|frame| - 2]
  }

  predicate CrcOk(frame: seq<bv8>)
    requires |frame| >= 2
  {
    Crc(0xFFFF, Payload(frame)) == ReceivedCrc(frame)
  }

  function VerifyRtu(unit: bv8, frame: seq<bv8>, fc: bv8, expectedDataBytes: int): Verdict {
    if |frame| < 5 then TooShort
    else if !CrcOk(frame) then ChecksumMismatch
    else VerifyPdu(unit, Payload(frame), fc, expectedDataBytes)
  }

  lemma BytesOfJoined(lo: bv8, hi: bv8)
    ensures LowByte(JoinBytes(lo, hi)) == lo && HighByte(JoinBytes(lo, hi)) == hi
  {
  }

  lemma JoinedBytes(c: bv16)
    ensures JoinBytes(LowByte(c), HighByte(c)) == c
  {
  }

  /** The checksum test is the zero residue of the whole frame, checksum bytes included. */
  lemma CrcOkIsZeroResidue(frame: seq<bv8>)
    requires |frame| >= 2
    ensures CrcOk(frame) <==> Crc(0xFFFF, frame) == 0
  {
    hide Crc, LowByte, HighByte, JoinBytes;
    var lo, hi := frame[|frame| - 2], frame[|frame| - 1];
    assert frame == Payload(frame) + [lo, hi];
    ResidueIsZeroIff(0xFFFF, Payload(frame), lo, hi);
    BytesOfJoined(lo, hi);
    JoinedBytes(Crc(0xFFFF, Payload(frame)));
  }

  /** After an accepted frame, no version of it damaged by a burst of at most 16 bits,
      anywhere in payload or checksum, passes the checksum test. */
  lemma DamagedFrameRejected(unit: bv8, before: seq<bv8>, a: seq<bv8>, b: seq<bv8>, after: seq<bv8>, r: nat,
                             fc: bv8, expectedDataBytes: int)
    requires |a| == |b| == 3 && a != b && r <= 8 && |before + a + after| >= 5
    requires Burst(ByteXor(a[0], b[0]), ByteXor(a[1], b[1]), ByteXor(a[2], b[2]), r)
    requires VerifyRtu(unit, before + a + after, fc, expectedDataBytes) != ChecksumMismatch
    ensures VerifyRtu(unit, before + b + after, fc, expectedDataBytes) == ChecksumMismatch
  {
    hide Crc, Burst, ByteXor;
    CrcOkIsZeroResidue(before + a + after);
    CrcOkIsZeroResidue(before + b + after);
    BurstDetected(0xFFFF, before, a, b, after, r);
    hide VerifyPdu;
    NeverChecksumMismatch(unit, Payload(before + a + after), fc, expectedDataBytes);
  }

  lemma NeverChecksumMismatch(unit: bv8, pdu: seq<bv8>, fc: bv8, expectedDataBytes: int)
    ensures VerifyPdu(unit, pdu, fc, expectedDataBytes) != ChecksumMismatch
  {
  }

  /** Nor any version of it with an odd number of flipped bits. */
  lemma OddlyDamagedFrameRejected(unit: bv8, frame: seq<bv8>, damaged: seq<bv8>, fc: bv8, expectedDataBytes: int)
    requires |frame| == |damaged| >= 5 && BitErrors(frame, damaged) % 2 == 1
    requires VerifyRtu(unit, frame, fc, expectedDataBytes) != ChecksumMismatch
    ensures VerifyRtu(unit, damaged, fc, expectedDataBytes) == ChecksumMismatch
  {
    hide Crc, BitErrors, VerifyPdu;
    CrcOkIsZeroResidue(frame);
    CrcOkIsZeroResidue(damaged);
    OddErrorsDetected(0xFFFF, frame, damaged);
    NeverChecksumMismatch(unit, Payload(frame), fc, expectedDataBytes);
  }

  /** Nor any version of it with one, two or three flipped bits, whatever lies between them: frames
      have at most 256 bytes (section 2.5.1 of MODBUS over Serial Line V1.02). */
  lemma SlightlyDamagedFrameRejected(unit: bv8, frame: seq<bv8>, damaged: seq<bv8>, fc: bv8, expectedDataBytes: int)
    requires 5 <= |frame| == |damaged| <= 4095 && 1 <= BitErrors(frame, damaged) <= 3
    requires VerifyRtu(unit, frame, fc, expectedDataBytes) != ChecksumMismatch
    ensures VerifyRtu(unit, damaged, fc, expectedDataBytes) == ChecksumMismatch
  {
    hide Crc, BitErrors, VerifyPdu;
    CrcOkIsZeroResidue(frame);
    CrcOkIsZeroResidue(damaged);
    CrcDistance.FewBitErrorsDetected(0xFFFF, frame, damaged);
    NeverChecksumMismatch(unit, Payload(frame), fc, expectedDataBytes);
  }

  // A conforming RTU node drops frames with a nonzero residue.
  function RtuReceive(frame: seq<bv8>): Option<seq<bv8>> {
    if |frame| >= 4 && Crc(0xFFFF, frame) == 0 then Some(frame[..|frame| - 2]) else None
  }

  lemma RtuRoundTrip(pdu: seq<bv8>)
    ensures Payload(RtuFrame(pdu)) == pdu && CrcOk(RtuFrame(pdu))
    ensures |pdu| >= 2 ==> RtuReceive(RtuFrame(pdu)) == Some(pdu)
  {
    hide Crc, LowByte, HighByte, JoinBytes;
    var frame := RtuFrame(pdu);
    var c := Crc(0xFFFF, pdu);
    assert Payload(frame) == pdu;
    JoinedBytes(c);
    CrcOkIsZeroResidue(frame);
  }

  // ---------------------------------------------------------------- TCP

  function TcpFrame(tid: nat, pdu: seq<bv8>): seq<bv8> {
    [Hi(tid), Lo(tid), 0, 0, Hi(|pdu|), Lo(|pdu|)] + pdu
  }

  function VerifyTcp(unit: bv8, frame: seq<bv8>, fc: bv8, expectedDataBytes: int): Verdict {
    if |frame| < 9 then TooShort
    else VerifyPdu(unit, frame[6..], fc, expectedDataBytes)
  }

  // A conforming TCP node checks the protocol id and the length field.
  function TcpReceive(frame: seq<bv8>): Option<seq<bv8>> {
    if |frame| >= 8 && frame[2] == 0 && frame[3] == 0 && Number(frame[4], frame[5]) == |frame| - 6
    then Some(frame[6..]) else None
  }

  lemma TcpRoundTrip(tid: nat, pdu: seq<bv8>)
    ensures TcpFrame(tid, pdu)[6..] == pdu
    ensures 2 <= |pdu| < 65536 ==> TcpReceive(TcpFrame(tid, pdu)) == Some(pdu)
  {
    hide Hi, Lo, Number;
    NumberReadsBack(|pdu|);
  }
}
