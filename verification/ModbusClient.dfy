/** The three Modbus clients end to end: build and frame a request, exchange it over a link with a
    conforming slave, check the response and decode it. What the clients answer is stated on the
    slave's memory alone, the same for the three framings. */
module ModbusClient {
  import opened DeviceModels
  import opened CoilBits
  import opened Octets
  import opened ModbusPdu
  import opened Wrappers
  import opened ModbusExchange
  import opened ModbusFrames
  import opened ModbusAscii

  datatype Framing = Rtu | Ascii | Tcp

  // ---------------------------------------------------------------- frames, whatever the framing

  function Frame(framing: Framing, tid: nat, pdu: seq<bv8>): seq<bv8> {
    match framing
    case Rtu => RtuFrame(pdu)
    case Ascii => AsciiFrame(pdu)
    case Tcp => TcpFrame(tid, pdu)
  }

  // What a conforming node takes from a frame.
  function Receive(framing: Framing, frame: seq<bv8>): Option<seq<bv8>> {
    match framing
    case Rtu => RtuReceive(frame)
    case Ascii =>
      var r := ParseAscii(frame);
      if r.Parsed? then Some(r.pdu) else None
    case Tcp => TcpReceive(frame)
  }

  // The bytes the client checks and indexes: the frame itself, or the parsed pdu.
  function Buffer(framing: Framing, frame: seq<bv8>): seq<bv8> {
    if framing == Ascii then
      var r := ParseAscii(frame);
      if r.Parsed? then r.pdu else []
    else frame
  }

  function Verify(framing: Framing, unit: bv8, frame: seq<bv8>, fc: bv8, expectedDataBytes: int): Verdict {
    match framing
    case Rtu => VerifyRtu(unit, frame, fc, expectedDataBytes)
    case Ascii => VerifyPdu(unit, Buffer(Ascii, frame), fc, expectedDataBytes)
    case Tcp => VerifyTcp(unit, frame, fc, expectedDataBytes)
  }

  // Where the data of a read response starts in the buffer.
  function DataStart(framing: Framing): nat {
    if framing == Tcp then 9 else 3
  }

  // The length field of the MBAP header has sixteen bits.
  predicate Deliverable(framing: Framing, pdu: seq<bv8>) {
    |pdu| >= 2 && (framing == Tcp ==> |pdu| < 65536)
  }

  lemma FrameReceived(framing: Framing, tid: nat, pdu: seq<bv8>)
    requires |pdu| >= 2
    ensures Receive(framing, Frame(framing, tid, pdu)) == if Deliverable(framing, pdu) then Some(pdu) else None
  {
    hide Lrc, Hi, Lo, Number, ToHex, FromHex, IndexOf, IndexOfCrLf, Crc16.Crc;
    match framing
    case Rtu =>
      RtuRoundTrip(pdu);
    case Ascii =>
      assert [] + AsciiFrame(pdu) + [] == AsciiFrame(pdu);
      hide ParseAscii, AsciiFrame;
      AsciiRoundTrip([], pdu, []);
    case Tcp =>
      TcpRoundTrip(tid, pdu);
      NumberReadsBack(|pdu|);
  }

  /** Framing is transparent to the checks: a framed response is judged by its pdu. */
  lemma FrameVerified(framing: Framing, tid: nat, unit: bv8, pdu: seq<bv8>, fc: bv8, expectedDataBytes: int)
    requires |pdu| >= 2
    ensures Verify(framing, unit, Frame(framing, tid, pdu), fc, expectedDataBytes)
         == VerifyPdu(unit, pdu, fc, expectedDataBytes)
  {
    hide VerifyPdu, VerifyRtu, VerifyTcp, RtuFrame, AsciiFrame, TcpFrame, Buffer;
    match framing
    case Rtu => RtuVerified(unit, pdu, fc, expectedDataBytes);
    case Ascii => AsciiBuffered(pdu);
    case Tcp => TcpVerified(tid, unit, pdu, fc, expectedDataBytes);
  }

  // The pdu lies in the buffer, where the clients look for it.
  predicate HoldsPdu(framing: Framing, frame: seq<bv8>, pdu: seq<bv8>) {
    var b, at := Buffer(framing, frame), DataStart(framing) - 3;
    at + |pdu| <= |b| && b[at..at + |pdu|] == pdu
  }

  /** And its pdu is where the clients read the data. */
  lemma FrameBuffered(framing: Framing, tid: nat, pdu: seq<bv8>)
    requires |pdu| >= 2
    ensures HoldsPdu(framing, Frame(framing, tid, pdu), pdu)
  {
    hide HoldsPdu, RtuFrame, AsciiFrame, TcpFrame;
    match framing
    case Rtu => RtuBuffered(pdu);
    case Ascii => AsciiBuffered(pdu);
    case Tcp => TcpBuffered(tid, pdu);
  }

  lemma RtuVerified(unit: bv8, pdu: seq<bv8>, fc: bv8, expectedDataBytes: int)
    ensures VerifyRtu(unit, RtuFrame(pdu), fc, expectedDataBytes) == VerifyPdu(unit, pdu, fc, expectedDataBytes)
  {
    hide VerifyPdu, Crc16.Crc, Crc16.LowByte, Crc16.HighByte, CrcOk;
    TwoBytesAreTooShort(unit, pdu, fc, expectedDataBytes);
    RtuRoundTrip(pdu);
  }

  lemma RtuBuffered(pdu: seq<bv8>)
    ensures HoldsPdu(Rtu, RtuFrame(pdu), pdu)
  {
    hide Crc16.Crc, Crc16.LowByte, Crc16.HighByte;
  }

  lemma AsciiBuffered(pdu: seq<bv8>)
    requires |pdu| >= 2
    ensures Buffer(Ascii, AsciiFrame(pdu)) == pdu
    ensures HoldsPdu(Ascii, AsciiFrame(pdu), pdu)
  {
    hide AsciiFrame, ParseAscii;
    assert [] + AsciiFrame(pdu) + [] == AsciiFrame(pdu);
    AsciiRoundTrip([], pdu, []);
  }

  lemma TcpVerified(tid: nat, unit: bv8, pdu: seq<bv8>, fc: bv8, expectedDataBytes: int)
    ensures VerifyTcp(unit, TcpFrame(tid, pdu), fc, expectedDataBytes) == VerifyPdu(unit, pdu, fc, expectedDataBytes)
  {
    hide VerifyPdu, Hi, Lo;
    TwoBytesAreTooShort(unit, pdu, fc, expectedDataBytes);
    TcpRoundTrip(tid, pdu);
  }

  lemma TcpBuffered(tid: nat, pdu: seq<bv8>)
    ensures HoldsPdu(Tcp, TcpFrame(tid, pdu), pdu)
  {
    hide Hi, Lo;
  }

  lemma TwoBytesAreTooShort(unit: bv8, pdu: seq<bv8>, fc: bv8, expectedDataBytes: int)
    ensures |pdu| < 3 ==> VerifyPdu(unit, pdu, fc, expectedDataBytes) == TooShort
  {
  }

  /** No accepted read response, whoever sent it, is indexed out of range. */
  lemma AcceptedResponseHoldsItsData(framing: Framing, unit: bv8, frame: seq<bv8>, fc: bv8, expectedDataBytes: int)
    requires fc == 0x01 || fc == 0x03
    requires Verify(framing, unit, frame, fc, expectedDataBytes) == Accepted
    ensures 0 <= expectedDataBytes < 256
    ensures DataStart(framing) + expectedDataBytes <= |Buffer(framing, frame)|
  {
    hide Value, CrcOk, ParseAscii;
    match framing
    case Rtu => AcceptedReadIsLongEnough(unit, Payload(frame), fc, expectedDataBytes);
    case Ascii => AcceptedReadIsLongEnough(unit, Buffer(Ascii, frame), fc, expectedDataBytes);
    case Tcp => AcceptedReadIsLongEnough(unit, frame[6..], fc, expectedDataBytes);
  }

  // ---------------------------------------------------------------- the exchange

  // What goes back over the link, and the slave afterwards. No answer is a timeout.
  function Answer(framing: Framing, s: Slave, echo: nat, request: seq<bv8>): (Slave, Option<seq<bv8>>) {
    var pdu := Receive(framing, request);
    if pdu.None? then (s, None)
    else
      var (s', r) := Serve(s, pdu.value);
      (s', if r.None? then None else Some(Frame(framing, echo, r.value)))
  }

  lemma AnswersAreLongEnough(s: Slave, pdu: seq<bv8>)
    ensures var (_, r) := Serve(s, pdu); r.Some? ==> |r.value| >= 2
    ensures |pdu| < 2 || pdu[0] != s.unit ==> Serve(s, pdu) == (s, None)
  {
    hide Value, Number, Hi, Lo, Packed, Unpacked, WordBytes, BytesWords, Overwrite;
  }

  predicate AnswerAccepted(framing: Framing, unit: bv8, answer: Option<seq<bv8>>, fc: bv8, expectedDataBytes: int) {
    answer.Some? && Verify(framing, unit, answer.value, fc, expectedDataBytes) == Accepted
  }

  /** Through any framing the exchange comes out as if client and slave had passed the pdus
      themselves. */
  lemma ExchangeIsTransparent(framing: Framing, s: Slave, tid: nat, echo: nat, unit: bv8, pdu: seq<bv8>,
                              fc: bv8, expectedDataBytes: int)
    requires |pdu| >= 2
    ensures var (s1, r1) := Serve(s, pdu);
            var (s2, r2) := Answer(framing, s, echo, Frame(framing, tid, pdu));
            if Deliverable(framing, pdu) then
              && s2 == s1
              && (AnswerAccepted(framing, unit, r2, fc, expectedDataBytes)
                  <==> Success(unit, r1, fc, expectedDataBytes))
              && (Success(unit, r1, fc, expectedDataBytes) ==>
                    HoldsPdu(framing, r2.value, r1.value))
            else s2 == s && r2 == None
  {
    hide Serve, Receive, Frame, Verify, VerifyPdu, Buffer;
    FrameReceived(framing, tid, pdu);
    AnswersAreLongEnough(s, pdu);
    var (s1, r1) := Serve(s, pdu);
    if Deliverable(framing, pdu) && r1.Some? {
      FrameVerified(framing, echo, unit, r1.value, fc, expectedDataBytes);
      FrameBuffered(framing, echo, r1.value);
    }
  }

  lemma WordsOfPrefix(data: seq<bv8>, buffer: seq<bv8>, at: nat, count: nat)
    requires 2 * count <= |data| && at + |data| <= |buffer| && buffer[at..at + |data|] == data
    ensures BytesWords(buffer[at..], count) == BytesWords(data, count)
  {
    hide Number;
    forall i | 0 <= i < |data|
      ensures buffer[at..][i] == data[i]
    {
      assert buffer[at..at + |data|][i] == data[i];
    }
  }

  lemma CoilsOfPrefix(data: seq<bv8>, buffer: seq<bv8>, at: nat, count: nat)
    requires (count + 7) / 8 <= |data| && at + |data| <= |buffer| && buffer[at..at + |data|] == data
    ensures Unpacked(buffer[at..], count) == Unpacked(data, count)
  {
    hide BitOf;
    forall i | 0 <= i < |data|
      ensures buffer[at..][i] == data[i]
    {
      assert buffer[at..at + |data|][i] == data[i];
    }
  }

  // How far an exchange gets.
  datatype Line =
    | Down     // not connected, and connecting fails
    | Silent   // the request does not arrive
    | Lossy    // it arrives and is served, but the answer is lost
    | Live

  /** The line to one slave. */
  class Link {
    const framing: Framing
    var slave: Slave
    var line: Line

    constructor (framing: Framing, slave: Slave, line: Line)
      ensures this.framing == framing && this.slave == slave && this.line == line
    {
      this.framing := framing;
      this.slave := slave;
      this.line := line;
    }

    predicate Delivers()
      reads this
    {
      line.Lossy? || line.Live?
    }

    method Exchange(request: seq<bv8>, echo: nat) returns (response: Option<seq<bv8>>)
      modifies this`slave
      ensures var (s, r) := Answer(framing, old(slave), echo, request);
              && slave == (if Delivers() then s else old(slave))
              && response == if line.Live? then r else None
    {
      if !Delivers() {
        return None;
      }
      var (s, r) := Answer(framing, slave, echo, request);
      slave := s;
      response := if line.Live? then r else None;
    }
  }

  // ---------------------------------------------------------------- the clients

  class Client {
    const link: Link
    const slaveId: int
    var transactionId: nat

    constructor (link: Link, slaveId: int)
      ensures this.link == link && this.slaveId == slaveId && transactionId == 1
    {
      this.link := link;
      this.slaveId := slaveId;
      transactionId := 1;
    }

    function Unit(): bv8 {
      ByteOf(slaveId)
    }

    // The addressed slave is at the other end of the line and answers.
    predicate Reaches()
      reads link
    {
      link.line.Live? && link.slave.unit == Unit()
    }

    // The addressed slave gets the requests.
    predicate Heard()
      reads link
    {
      link.Delivers() && link.slave.unit == Unit()
    }

    // Frames a pdu; only TCP frames carry and use up a transaction id.
    method BuildFrame(pdu: seq<bv8>) returns (frame: seq<bv8>)
      modifies this`transactionId
      ensures frame == Frame(link.framing, old(transactionId), pdu)
      ensures transactionId == if link.framing == Tcp then (old(transactionId) + 1) % 65536 else old(transactionId)
    {
      hide Lrc, ToHex, Crc16.Crc, Hi, Lo, Crc16.LowByte, Crc16.HighByte;
      match link.framing
      case Rtu =>
        var crc := Crc16.Compute(pdu);
        frame := pdu + [Crc16.LowByte(crc), Crc16.HighByte(crc)];
      case Ascii =>
        var lrc := ComputeLrc(pdu);
        frame := [COLON] + ToHex(pdu) + ToHex([lrc]) + [CR, LF];
      case Tcp =>
        frame := [Hi(transactionId), Lo(transactionId), 0, 0, Hi(|pdu|), Lo(|pdu|)] + pdu;
        transactionId := (transactionId + 1) % 65536;
    }

    // Sends one request and checks the response, which is left in the buffer on success.
    method Transact(pdu: seq<bv8>, fc: bv8, expectedDataBytes: int) returns (ok: bool, buffer: seq<bv8>)
      requires |pdu| >= 6 && pdu[0] == Unit()
      modifies this`transactionId, link`slave
      ensures var (s, r) := Serve(old(link.slave), pdu);
              && link.slave == (if link.Delivers() && Deliverable(link.framing, pdu) then s else old(link.slave))
              && (ok <==> link.line.Live? && Deliverable(link.framing, pdu)
                          && Success(Unit(), r, fc, expectedDataBytes))
              && (ok ==> var at := DataStart(link.framing) - 3;
                         at + |r.value| <= |buffer| && buffer[at..at + |r.value|] == r.value)
      ensures ok && (fc == 0x01 || fc == 0x03) ==>
                0 <= expectedDataBytes && DataStart(link.framing) + expectedDataBytes <= |buffer|
      ensures link.slave.unit == old(link.slave.unit)
    {
      hide Serve, Frame, Receive, Verify, VerifyPdu, Buffer;
      ghost var s0, tid := link.slave, transactionId;
      buffer := [];
      var request := BuildFrame(pdu);
      var response := link.Exchange(request, 0);
      ExchangeIsTransparent(link.framing, s0, tid, 0, Unit(), pdu, fc, expectedDataBytes);
      UnitIsKept(s0, pdu);
      ok := response.Some? && Verify(link.framing, Unit(), response.value, fc, expectedDataBytes) == Accepted;
      if ok {
        buffer := Buffer(link.framing, response.value);
        if fc == 0x01 || fc == 0x03 {
          AcceptedResponseHoldsItsData(link.framing, Unit(), response.value, fc, expectedDataBytes);
        }
      }
    }

    /** Function 03. */
    method ReadWords(address: int, count: int) returns (ok: bool, out: seq<Word>)
      modifies this`transactionId, link`slave
      ensures link.slave == old(link.slave)
      ensures ok <==> Reaches() && 1 <= count <= 125 && Wire(address) + count <= |link.slave.regs|
      ensures out == if ok then link.slave.regs[Wire(address)..Wire(address) + count] else []
    {
      hide Serve, VerifyPdu, Hi, Lo, Number, WordBytes, BytesWords;
      out := [];
      ghost var s := link.slave;
      var pdu := Header(Unit(), 0x03, address, count);
      ReadRegistersServed(s, address, count);
      AnswersAreLongEnough(s, pdu);
      var buffer: seq<bv8>;
      ok, buffer := Transact(pdu, 0x03, count * 2);
      if ok {
        var from := DataStart(link.framing);
        out := DecodeWords(buffer, from, count);
        ghost var (_, r) := Serve(s, pdu);
        ghost var data := r.value[3..];
        assert buffer[from..from + |data|] == buffer[from - 3..from - 3 + |r.value|][3..];
        WordsOfPrefix(data, buffer, from, count);
      }
    }

    /** Function 01. */
    method ReadBits(address: int, count: int) returns (ok: bool, out: seq<bool>)
      modifies this`transactionId, link`slave
      ensures link.slave == old(link.slave)
      ensures ok <==> Reaches() && 1 <= count <= 2000 && Wire(address) + count <= |link.slave.coils|
      ensures out == if ok then link.slave.coils[Wire(address)..Wire(address) + count] else []
    {
      hide Serve, VerifyPdu, Hi, Lo, Number, Packed, Unpacked;
      out := [];
      ghost var s := link.slave;
      var pdu := Header(Unit(), 0x01, address, count);
      ReadCoilsServed(s, address, count);
      AnswersAreLongEnough(s, pdu);
      var buffer: seq<bv8>;
      ok, buffer := Transact(pdu, 0x01, CoilBytes(count));
      if ok {
        var from := DataStart(link.framing);
        out := UnpackCoils(buffer, from, count);
        ghost var (_, r) := Serve(s, pdu);
        ghost var data := r.value[3..];
        assert buffer[from..from + |data|] == buffer[from - 3..from - 3 + |r.value|][3..];
        CoilsOfPrefix(data, buffer, from, count);
      }
    }

    /** Function 06 for one value, function 10 (hex) otherwise. */
    method WriteWords(address: int, values: seq<Word>) returns (ok: bool)
      modifies this`transactionId, link`slave
      ensures ok <==> Reaches() && 1 <= |values| <= 123 && Wire(address) + |values| <= |old(link.slave).regs|
      ensures link.slave ==
                if Heard() && 1 <= |values| <= 123 && Wire(address) + |values| <= |old(link.slave).regs|
                then old(link.slave).(regs := Overwrite(old(link.slave).regs, Wire(address), values))
                else old(link.slave)
    {
      hide Serve, VerifyPdu, Hi, Lo, Number, WordBytes;
      ghost var s := link.slave;
      var buffer: seq<bv8>;
      if |values| == 1 {
        var pdu := Header(Unit(), 0x06, address, values[0]);
        WriteRegisterServed(s, address, values[0]);
        AnswersAreLongEnough(s, pdu);
        ok, buffer := Transact(pdu, 0x06, 4);
        SingleOverwrite(s.regs, Wire(address), values);
      } else {
        var words := AppendWords([], values);
        var pdu := Header(Unit(), 0x10, address, |values|) + [Lo(|values| * 2)] + words;
        assert pdu == WriteRegistersPdu(Unit(), address, values);
        WriteRegistersServed(s, address, values);
        AnswersAreLongEnough(s, pdu);
        ok, buffer := Transact(pdu, 0x10, 4);
      }
    }

    /** Function 05 for one value, function 0F (hex) otherwise. */
    method WriteBits(address: int, values: seq<bool>) returns (ok: bool)
      modifies this`transactionId, link`slave
      ensures ok <==> Reaches() && 1 <= |values| <= 1968 && Wire(address) + |values| <= |old(link.slave).coils|
      ensures link.slave ==
                if Heard() && 1 <= |values| <= 1968 && Wire(address) + |values| <= |old(link.slave).coils|
                then old(link.slave).(coils := Overwrite(old(link.slave).coils, Wire(address), values))
                else old(link.slave)
    {
      hide Serve, VerifyPdu, Hi, Lo, Number, Packed;
      ghost var s := link.slave;
      var buffer: seq<bv8>;
      if |values| == 1 {
        var pdu := WriteCoilPdu(Unit(), address, values[0]);
        WriteCoilServed(s, address, values[0]);
        AnswersAreLongEnough(s, pdu);
        ok, buffer := Transact(pdu, 0x05, 4);
        SingleOverwrite(s.coils, Wire(address), values);
      } else {
        var packed := PackCoils(values);
        var pdu := Header(Unit(), 0x0F, address, |values|) + [Lo(|packed|)] + packed;
        assert pdu == WriteCoilsPdu(Unit(), address, values);
        WriteCoilsServed(s, address, values);
        AnswersAreLongEnough(s, pdu);
        ok, buffer := Transact(pdu, 0x0F, 4);
      }
    }
  }

  lemma UnitIsKept(s: Slave, pdu: seq<bv8>)
    ensures Serve(s, pdu).0.unit == s.unit
  {
    hide Value, Number, Hi, Lo, Packed, Unpacked, WordBytes, BytesWords, Overwrite;
  }

  lemma SingleOverwrite<T>(memory: seq<T>, at: nat, values: seq<T>)
    requires |values| == 1
    ensures at < |memory| ==> Overwrite(memory, at, values) == memory[at := values[0]]
  {
  }
}
