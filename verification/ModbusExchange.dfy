/** What a conforming slave answers to each request the clients build, and what the clients'
    checks make of the answer, for every address and every quantity, legal or not. */
module ModbusExchange {
  import opened DeviceModels
  import opened CoilBits
  import opened Octets
  import opened ModbusPdu
  import opened Wrappers

  // The address a request carries: sixteen bits of the configured one.
  function Wire(address: int): (a: nat)
    ensures a < 65536
  {
    address % 65536
  }

  lemma HeaderFields(unit: bv8, fc: bv8, address: int, quantity: int, tail: seq<bv8>)
    ensures var pdu := Header(unit, fc, address, quantity) + tail;
            && |pdu| == 6 + |tail|
            && pdu[0] == unit && pdu[1] == fc
            && Field1(pdu) == Wire(address) && Field2(pdu) == Wire(quantity)
            && pdu[..6] == Header(unit, fc, address, quantity)
            && pdu[6..] == tail
  {
    hide Hi, Lo, Number;
    NumberReadsBack(address);
    NumberReadsBack(quantity);
  }

  // Did the exchange end with an accepted response?
  predicate Success(unit: bv8, response: Option<seq<bv8>>, fc: bv8, expectedDataBytes: int) {
    response.Some? && VerifyPdu(unit, response.value, fc, expectedDataBytes) == Accepted
  }

  lemma RegistersAnswered(s: Slave, address: int, count: int)
    ensures var a, q := Wire(address), Wire(count);
            Serve(s, Header(s.unit, 0x03, address, count)) == (s, Some(
              if q < 1 || q > 125 then Exception(s.unit, 0x03, 0x03)
              else if a + q > |s.regs| then Exception(s.unit, 0x03, 0x02)
              else [s.unit, 0x03, Lo(q * 2)] + WordBytes(s.regs[a..a + q])))
  {
    hide Hi, Lo, Number, Exception, WordBytes;
    var pdu := Header(s.unit, 0x03, address, count);
    HeaderFields(s.unit, 0x03, address, count, []);
    assert pdu + [] == pdu;
  }

  /** FC03: accepted exactly for a quantity the protocol allows inside the slave's memory. */
  lemma ReadRegistersServed(s: Slave, address: int, count: int)
    ensures var (s', r) := Serve(s, Header(s.unit, 0x03, address, count));
            var a := Wire(address);
            && s' == s
            && (Success(s.unit, r, 0x03, count * 2) <==> 1 <= count <= 125 && a + count <= |s.regs|)
            && (Success(s.unit, r, 0x03, count * 2) ==>
                  |r.value| == 3 + 2 * count && BytesWords(r.value[3..], count) == s.regs[a..a + count])
  {
    hide Serve, Header, VerifyPdu, Exception, Value, Hi, Lo, Number, WordBytes, BytesWords, Wire;
    WordsOnTheWire(count);
    var a, q := Wire(address), Wire(count);
    RegistersAnswered(s, address, count);
    if 1 <= q <= 125 && a + q <= |s.regs| {
      NumberReadsBack(q * 2);
      var data := WordBytes(s.regs[a..a + q]);
      var resp := [s.unit, 0x03, Lo(q * 2)] + data;
      assert resp[3..] == data;
      DataIsAccepted(s.unit, 0x03, Lo(q * 2), data, count * 2);
      WordsReadBack(s.regs[a..a + q]);
    } else {
      ExceptionIsRejected(s.unit, 0x03, 0x03, count * 2);
      ExceptionIsRejected(s.unit, 0x03, 0x02, count * 2);
    }
  }

  // A quantity that the wire cuts short is not the one the client expects.
  lemma WordsOnTheWire(count: int)
    ensures 1 <= count <= 125 ==> Wire(count) == count
    ensures 1 <= Wire(count) <= 125 && count * 2 == Wire(count) * 2 ==> count == Wire(count)
  {
  }

  lemma CoilsOnTheWire(count: int)
    ensures 1 <= count <= 2000 ==> Wire(count) == count && CoilBytes(count) == (count + 7) / 8
    ensures 1 <= Wire(count) <= 2000 && CoilBytes(count) == (Wire(count) + 7) / 8 ==> count == Wire(count)
  {
    if count >= 0 {
      assert count >= 65536 || count == Wire(count);
    } else {
      assert CoilBytes(count) <= 0 || count > -7;
    }
  }

  lemma CoilsAnswered(s: Slave, address: int, count: int)
    ensures var a, q := Wire(address), Wire(count);
            Serve(s, Header(s.unit, 0x01, address, count)) == (s, Some(
              if q < 1 || q > 2000 then Exception(s.unit, 0x01, 0x03)
              else if a + q > |s.coils| then Exception(s.unit, 0x01, 0x02)
              else [s.unit, 0x01, Lo((q + 7) / 8)] + Packed(s.coils[a..a + q])))
  {
    hide Hi, Lo, Number, Exception, Packed;
    var pdu := Header(s.unit, 0x01, address, count);
    HeaderFields(s.unit, 0x01, address, count, []);
    assert pdu + [] == pdu;
  }

  /** FC01: the same for coils. */
  lemma ReadCoilsServed(s: Slave, address: int, count: int)
    ensures var (s', r) := Serve(s, Header(s.unit, 0x01, address, count));
            var a := Wire(address);
            && s' == s
            && (Success(s.unit, r, 0x01, CoilBytes(count)) <==> 1 <= count <= 2000 && a + count <= |s.coils|)
            && (Success(s.unit, r, 0x01, CoilBytes(count)) ==>
                  |r.value| == 3 + (count + 7) / 8 && Unpacked(r.value[3..], count) == s.coils[a..a + count])
  {
    hide Serve, Header, VerifyPdu, Exception, Value, Hi, Lo, Number, Packed, Unpacked, CoilBytes, Wire;
    var a, q := Wire(address), Wire(count);
    CoilsOnTheWire(count);
    CoilsAnswered(s, address, count);
    if 1 <= q <= 2000 && a + q <= |s.coils| {
      NumberReadsBack((q + 7) / 8);
      var data := Packed(s.coils[a..a + q]);
      var resp := [s.unit, 0x01, Lo((q + 7) / 8)] + data;
      assert resp[3..] == data;
      DataIsAccepted(s.unit, 0x01, Lo((q + 7) / 8), data, CoilBytes(count));
      UnpackedPacked(s.coils[a..a + q]);
    } else {
      ExceptionIsRejected(s.unit, 0x01, 0x03, CoilBytes(count));
      ExceptionIsRejected(s.unit, 0x01, 0x02, CoilBytes(count));
    }
  }

  /** FC06 writes one register of the slave's memory or changes nothing. */
  lemma WriteRegisterServed(s: Slave, address: int, value: Word)
    ensures var (s', r) := Serve(s, Header(s.unit, 0x06, address, value));
            var a := Wire(address);
            && (Success(s.unit, r, 0x06, 4) <==> a < |s.regs|)
            && s' == if a < |s.regs| then s.(regs := s.regs[a := value]) else s
  {
    hide Hi, Lo, Number, Value, Packed, Unpacked, WordBytes, BytesWords, Overwrite;
    var pdu := Header(s.unit, 0x06, address, value);
    HeaderFields(s.unit, 0x06, address, value, []);
    assert pdu + [] == pdu;
  }

  /** FC05 writes one coil or changes nothing. */
  lemma WriteCoilServed(s: Slave, address: int, value: bool)
    ensures var (s', r) := Serve(s, WriteCoilPdu(s.unit, address, value));
            var a := Wire(address);
            && (Success(s.unit, r, 0x05, 4) <==> a < |s.coils|)
            && s' == if a < |s.coils| then s.(coils := s.coils[a := value]) else s
  {
    hide Hi, Lo, Number, Value, Packed, Unpacked, WordBytes, BytesWords, Overwrite;
    NumberReadsBack(address);
  }

  // A read response is accepted when it announces the expected bytes and holds them.
  lemma DataIsAccepted(unit: bv8, fc: bv8, n: bv8, data: seq<bv8>, expectedDataBytes: int)
    requires (fc == 0x01 || fc == 0x03) && |data| == Value(n)
    ensures VerifyPdu(unit, [unit, fc, n] + data, fc, expectedDataBytes) == Accepted <==> expectedDataBytes == |data|
  {
    hide Value;
    var resp := [unit, fc, n] + data;
    assert resp[0] == unit && resp[1] == fc && resp[2] == n;
  }

  // A response that repeats the first six bytes of a write request is accepted.
  lemma EchoIsAccepted(unit: bv8, fc: bv8, echo: seq<bv8>)
    requires |echo| == 6 && echo[0] == unit && echo[1] == fc
    requires fc == 0x0F || fc == 0x10
    ensures VerifyPdu(unit, echo, fc, 4) == Accepted
  {
  }

  lemma WriteRegistersFields(unit: bv8, address: int, values: seq<Word>)
    ensures var pdu, n := WriteRegistersPdu(unit, address, values), |values|;
            && |pdu| == 7 + n * 2 && pdu[0] == unit && pdu[1] == 0x10 && pdu[..6] == Header(unit, 0x10, address, n)
            && Field1(pdu) == Wire(address) && Field2(pdu) == Wire(n)
            && pdu[6] == Lo(n * 2) && pdu[7..] == WordBytes(values)
  {
    hide Hi, Lo, Number, Field1, Field2, Header, Wire, WordBytes;
    var n := |values|;
    var tail := [Lo(n * 2)] + WordBytes(values);
    var pdu := WriteRegistersPdu(unit, address, values);
    assert pdu == Header(unit, 0x10, address, n) + tail;
    HeaderFields(unit, 0x10, address, n, tail);
    assert pdu[6] == tail[0] && pdu[7..] == tail[1..] == WordBytes(values);
  }

  // More than 255 bytes of data do not fit the byte count, and the request is dropped.
  lemma RegistersWritten(s: Slave, address: int, values: seq<Word>)
    ensures var pdu, n, a := WriteRegistersPdu(s.unit, address, values), |values|, Wire(address);
            |pdu| >= 6 && pdu[0] == s.unit && pdu[1] == 0x10
            && Serve(s, pdu) ==
               if n * 2 >= 256 then (s, None)
               else if n < 1 || n > 123 then (s, Some(Exception(s.unit, 0x10, 0x03)))
               else if a + n > |s.regs| then (s, Some(Exception(s.unit, 0x10, 0x02)))
               else (s.(regs := Overwrite(s.regs, a, values)), Some(pdu[..6]))
  {
    hide Hi, Lo, Number, Value, BytesWords, WordBytes, Overwrite, Exception, WriteRegistersPdu, Header, Field1, Field2;
    var pdu, n := WriteRegistersPdu(s.unit, address, values), |values|;
    WriteRegistersFields(s.unit, address, values);
    assert Serve(s, pdu) == ServeWriteRegisters(s, pdu);
    NumberReadsBack(n * 2);
    WordsReadBack(values);
    if n * 2 >= 256 {
      assert |pdu| != 7 + Value(pdu[6]);
    } else {
      assert n % 65536 == n;
    }
  }

  /** FC10 writes all the registers or changes nothing; more than 123 are never accepted. */
  lemma WriteRegistersServed(s: Slave, address: int, values: seq<Word>)
    ensures var (s', r) := Serve(s, WriteRegistersPdu(s.unit, address, values));
            var a := Wire(address);
            var legal := 1 <= |values| <= 123 && a + |values| <= |s.regs|;
            && (Success(s.unit, r, 0x10, 4) <==> legal)
            && s' == if legal then s.(regs := Overwrite(s.regs, a, values)) else s
  {
    hide Serve, WriteRegistersPdu, Header, VerifyPdu, Exception, BytesWords, WordBytes, Overwrite;
    RegistersWritten(s, address, values);
    EchoIsAccepted(s.unit, 0x10, WriteRegistersPdu(s.unit, address, values)[..6]);
    ExceptionIsRejected(s.unit, 0x10, 0x03, 4);
    ExceptionIsRejected(s.unit, 0x10, 0x02, 4);
  }

  lemma WriteCoilsFields(unit: bv8, address: int, values: seq<bool>)
    ensures var pdu, n := WriteCoilsPdu(unit, address, values), |values|;
            && |pdu| == 7 + (n + 7) / 8 && pdu[0] == unit && pdu[1] == 0x0F
            && pdu[..6] == Header(unit, 0x0F, address, n)
            && Field1(pdu) == Wire(address) && Field2(pdu) == Wire(n)
            && pdu[6] == Lo((n + 7) / 8) && pdu[7..] == Packed(values)
  {
    hide Hi, Lo, Number, Field1, Field2, Header, Wire, Packed;
    var n := |values|;
    var tail := [Lo((n + 7) / 8)] + Packed(values);
    var pdu := WriteCoilsPdu(unit, address, values);
    assert pdu == Header(unit, 0x0F, address, n) + tail;
    HeaderFields(unit, 0x0F, address, n, tail);
    assert pdu[6] == tail[0] && pdu[7..] == tail[1..] == Packed(values);
  }

  // More than 255 bytes of data do not fit the byte count, and the request is dropped.
  lemma CoilsWritten(s: Slave, address: int, values: seq<bool>)
    ensures var pdu, n, a := WriteCoilsPdu(s.unit, address, values), |values|, Wire(address);
            |pdu| >= 6 && pdu[0] == s.unit && pdu[1] == 0x0F
            && Serve(s, pdu) ==
               if (n + 7) / 8 >= 256 then (s, None)
               else if n < 1 || n > 1968 then (s, Some(Exception(s.unit, 0x0F, 0x03)))
               else if a + n > |s.coils| then (s, Some(Exception(s.unit, 0x0F, 0x02)))
               else (s.(coils := Overwrite(s.coils, a, values)), Some(pdu[..6]))
  {
    hide Hi, Lo, Number, Value, Unpacked, Packed, Overwrite, Exception, WriteCoilsPdu, Header, Field1, Field2;
    var pdu, n := WriteCoilsPdu(s.unit, address, values), |values|;
    WriteCoilsFields(s.unit, address, values);
    assert Serve(s, pdu) == ServeWriteCoils(s, pdu);
    NumberReadsBack((n + 7) / 8);
    UnpackedPacked(values);
    if (n + 7) / 8 >= 256 {
      assert |pdu| != 7 + Value(pdu[6]);
    } else {
      assert n % 65536 == n;
    }
  }

  /** FC0F writes all the coils or changes nothing; more than 1968 are never accepted. */
  lemma WriteCoilsServed(s: Slave, address: int, values: seq<bool>)
    ensures var (s', r) := Serve(s, WriteCoilsPdu(s.unit, address, values));
            var a := Wire(address);
            var legal := 1 <= |values| <= 1968 && a + |values| <= |s.coils|;
            && (Success(s.unit, r, 0x0F, 4) <==> legal)
            && s' == if legal then s.(coils := Overwrite(s.coils, a, values)) else s
  {
    hide Serve, WriteCoilsPdu, Header, VerifyPdu, Exception, Unpacked, Packed, Overwrite;
    CoilsWritten(s, address, values);
    EchoIsAccepted(s.unit, 0x0F, WriteCoilsPdu(s.unit, address, values)[..6]);
    ExceptionIsRejected(s.unit, 0x0F, 0x03, 4);
    ExceptionIsRejected(s.unit, 0x0F, 0x02, 4);
  }
}
