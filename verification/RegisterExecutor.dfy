/** Reading, writing and batch-reading configured registers through a client: which memory of the
    slave a register is, in which word order, and which requests are refused before any is sent. */
module RegisterExecutor {
  import opened DeviceModels
  import opened ModbusPdu
  import opened ModbusExchange
  import opened ModbusClient

  // The addressed stretch lies inside the memory.
  predicate Fits<T>(memory: seq<T>, address: int, count: int) {
    1 <= count && Wire(address) + count <= |memory|
  }

  function Stretch<T>(memory: seq<T>, address: int, count: int): seq<T>
    requires Fits(memory, address, count)
  {
    memory[Wire(address)..Wire(address) + count]
  }

  /** The values of a register in terms of the slave's memory: bits in address order; words in address
      order when the field, or the device for a field without an order of its own, is big endian, and
      last word first otherwise. */
  ghost predicate ReadFrom(s: Slave, config: RegisterConfig, deviceOrder: ByteOrder,
                           words: seq<Word>, bits: seq<bool>)
  {
    var at, n := config.localAddress % 65536, config.length;
    if IsBitType(config.regType) then
      && words == [] && |bits| == n && at + n <= |s.coils|
      && forall i | 0 <= i < n :: bits[i] == s.coils[at + i]
    else
      var order := if config.byteOrder == Default then deviceOrder else config.byteOrder;
      && bits == [] && |words| == n && at + n <= |s.regs|
      && forall i | 0 <= i < n :: words[i] == s.regs[at + if order == BigEndian then i else n - 1 - i]
  }

  /** What a write that is carried out leaves: the register's stretch holds the values in that order,
      and every other cell what it held. */
  ghost predicate WrittenTo(before: Slave, after: Slave, config: RegisterConfig, deviceOrder: ByteOrder,
                            words: seq<Word>, bits: seq<bool>)
  {
    var at, n := config.localAddress % 65536, config.length;
    var order := if config.byteOrder == Default then deviceOrder else config.byteOrder;
    && after.unit == before.unit && |after.coils| == |before.coils| && |after.regs| == |before.regs|
    && (config.regType.Coil? ==>
          && |bits| == n && after.regs == before.regs
          && forall a | 0 <= a < |after.coils| ::
               after.coils[a] == if at <= a < at + n then bits[a - at] else before.coils[a])
    && (config.regType.HoldingRegister? ==>
          && |words| == n && after.coils == before.coils
          && forall a | 0 <= a < |after.regs| ::
               after.regs[a] == if !(at <= a < at + n) then before.regs[a]
                                else if order == BigEndian then words[a - at]
                                else words[n - 1 - (a - at)])
  }

  lemma StretchIsRead(s: Slave, config: RegisterConfig, deviceOrder: ByteOrder)
    requires if IsBitType(config.regType) then Fits(s.coils, config.localAddress, config.length)
             else Fits(s.regs, config.localAddress, config.length)
    ensures var order := EffectiveByteOrder(config.byteOrder, deviceOrder);
            if IsBitType(config.regType)
            then ReadFrom(s, config, deviceOrder, [], Stretch(s.coils, config.localAddress, config.length))
            else ReadFrom(s, config, deviceOrder,
                          Ordered(Stretch(s.regs, config.localAddress, config.length), order), [])
  {
    hide Ordered, EffectiveByteOrder;
    if !IsBitType(config.regType) {
      OrderedByField(Stretch(s.regs, config.localAddress, config.length), config.byteOrder, deviceOrder);
    }
  }

  lemma CoilsOverwritten(s: Slave, config: RegisterConfig, deviceOrder: ByteOrder, words: seq<Word>, bits: seq<bool>)
    requires config.regType.Coil? && |bits| == config.length && Fits(s.coils, config.localAddress, config.length)
    ensures WrittenTo(s, s.(coils := Overwrite(s.coils, Wire(config.localAddress), bits)),
                      config, deviceOrder, words, bits)
  {
  }

  lemma WordsOverwritten(s: Slave, config: RegisterConfig, deviceOrder: ByteOrder, words: seq<Word>, bits: seq<bool>)
    requires config.regType.HoldingRegister? && |words| == config.length
    requires Fits(s.regs, config.localAddress, config.length)
    ensures var ordered := Ordered(words, EffectiveByteOrder(config.byteOrder, deviceOrder));
            WrittenTo(s, s.(regs := Overwrite(s.regs, Wire(config.localAddress), ordered)),
                      config, deviceOrder, words, bits)
  {
    hide Ordered, EffectiveByteOrder;
    OrderedByField(words, config.byteOrder, deviceOrder);
  }

  class Executor {
    const client: Client?
    const defaultByteOrder: ByteOrder

    constructor (client: Client?, defaultByteOrder: ByteOrder)
      ensures this.client == client && this.defaultByteOrder == defaultByteOrder
    {
      this.client := client;
      this.defaultByteOrder := defaultByteOrder;
    }

    function OrderOf(config: RegisterConfig): ByteOrder {
      EffectiveByteOrder(config.byteOrder, defaultByteOrder)
    }

    predicate Reaches()
      reads if client == null then {} else {client.link}
    {
      client != null && client.Reaches()
    }

    function State(): set<object> {
      if client == null then {} else {client, client.link}
    }

    // A read of this register is answered with its values.
    predicate Readable(config: RegisterConfig)
      reads if client == null then {} else {client.link}
    {
      && Reaches()
      && match config.regType
         case Coil | DiscreteInput =>
           config.length <= 2000 && Fits(client.link.slave.coils, config.localAddress, config.length)
         case HoldingRegister | InputRegister =>
           config.length <= 125 && Fits(client.link.slave.regs, config.localAddress, config.length)
         case Unknown => false
    }

    method ReadField(config: RegisterConfig) returns (ok: bool, words: seq<Word>, bits: seq<bool>)
      modifies State()
      ensures client != null ==>
                client.link.slave == old(client.link.slave) && client.link.line == old(client.link.line)
      ensures ok <==> Readable(config)
      ensures words ==
                if ok && !IsBitType(config.regType)
                then Ordered(Stretch(client.link.slave.regs, config.localAddress, config.length), OrderOf(config))
                else []
      ensures bits == if ok && IsBitType(config.regType)
                      then Stretch(client.link.slave.coils, config.localAddress, config.length) else []
      ensures ok ==> ReadFrom(client.link.slave, config, defaultByteOrder, words, bits)
    {
      hide Ordered, EffectiveByteOrder, ReadFrom;
      words, bits := [], [];
      if client == null {
        return false, words, bits;
      }
      ghost var readable := Readable(config);
      if readable {
        StretchIsRead(client.link.slave, config, defaultByteOrder);
      }
      match config.regType
      case Coil | DiscreteInput =>
        ok, bits := client.ReadBits(config.localAddress, config.length);
      case HoldingRegister | InputRegister =>
        ok, words := client.ReadWords(config.localAddress, config.length);
        if ok {
          words := ApplyByteOrder(words, OrderOf(config));
        }
      case Unknown =>
        ok := false;
    }

    // A write of this register with these values is answered.
    predicate Writable(config: RegisterConfig, words: seq<Word>, bits: seq<bool>)
      reads if client == null then {} else {client.link}
    {
      Reaches() && CarriedOut(config, words, bits)
    }

    // It is carried out, answered or not.
    predicate CarriedOut(config: RegisterConfig, words: seq<Word>, bits: seq<bool>)
      reads if client == null then {} else {client.link}
    {
      && client != null && client.Heard() && !config.readOnly
      && match config.regType
         case Coil =>
           |bits| == config.length <= 1968 && Fits(client.link.slave.coils, config.localAddress, config.length)
         case HoldingRegister =>
           |words| == config.length <= 123 && Fits(client.link.slave.regs, config.localAddress, config.length)
         case _ => false
    }

    method WriteField(config: RegisterConfig, words: seq<Word>, bits: seq<bool>) returns (ok: bool)
      modifies State()
      ensures client != null ==> client.link.line == old(client.link.line)
      ensures ok <==> old(Writable(config, words, bits))
      ensures client != null && !old(CarriedOut(config, words, bits)) ==> client.link.slave == old(client.link.slave)
      ensures old(CarriedOut(config, words, bits)) && config.regType.Coil? ==>
                client.link.slave == old(client.link.slave).(
                  coils := Overwrite(old(client.link.slave).coils, Wire(config.localAddress), bits))
      ensures old(CarriedOut(config, words, bits)) && config.regType.HoldingRegister? ==>
                client.link.slave == old(client.link.slave).(
                  regs := Overwrite(old(client.link.slave).regs, Wire(config.localAddress),
                                    Ordered(words, OrderOf(config))))
      ensures old(CarriedOut(config, words, bits)) ==>
                WrittenTo(old(client.link.slave), client.link.slave, config, defaultByteOrder, words, bits)
    {
      hide Ordered, EffectiveByteOrder, Overwrite, WrittenTo;
      ghost var carriedOut := CarriedOut(config, words, bits);
      if carriedOut {
        if config.regType.Coil? {
          CoilsOverwritten(client.link.slave, config, defaultByteOrder, words, bits);
        } else {
          WordsOverwritten(client.link.slave, config, defaultByteOrder, words, bits);
        }
      }
      if client == null || config.readOnly {
        return false;
      }
      match config.regType
      case Coil =>
        if |bits| != config.length {
          return false;
        }
        ok := client.WriteBits(config.localAddress, bits);
      case HoldingRegister =>
        if |words| != config.length {
          return false;
        }
        var ordered := ApplyByteOrder(words, OrderOf(config));
        ok := client.WriteWords(config.localAddress, ordered);
      case _ =>
        ok := false;
    }

    method ReadBatch(startAddress: int, totalLength: int, regType: RegisterType)
      returns (ok: bool, words: seq<Word>, bits: seq<bool>)
      modifies State()
      ensures client != null ==>
                client.link.slave == old(client.link.slave) && client.link.line == old(client.link.line)
      ensures regType.Unknown? ==> !ok
      ensures IsBitType(regType) ==>
                && (ok <==> Reaches() && totalLength <= 2000
                            && Fits(client.link.slave.coils, startAddress, totalLength))
                && bits == (if ok then Stretch(client.link.slave.coils, startAddress, totalLength) else [])
                && words == []
      ensures !IsBitType(regType) && !regType.Unknown? ==>
                && (ok <==> Reaches() && totalLength <= 125 && Fits(client.link.slave.regs, startAddress, totalLength))
                && words == (if ok then Stretch(client.link.slave.regs, startAddress, totalLength) else [])
                && bits == []
    {
      words, bits := [], [];
      if client == null {
        return false, words, bits;
      }
      match regType
      case Coil | DiscreteInput =>
        ok, bits := client.ReadBits(startAddress, totalLength);
      case HoldingRegister | InputRegister =>
        ok, words := client.ReadWords(startAddress, totalLength);
      case Unknown =>
        ok := false;
    }

    /** What an accepted write stored is what the next read returns, for every writable register,
        every legal quantity, either word order and all three framings. */
    method WriteThenRead(config: RegisterConfig, words: seq<Word>, bits: seq<bool>)
      returns (wrote: bool, read: bool, gotWords: seq<Word>, gotBits: seq<bool>)
      modifies State()
      ensures wrote <==> old(Writable(config, words, bits))
      ensures wrote ==> read
      ensures wrote && config.regType.HoldingRegister? ==> gotWords == words
      ensures wrote && config.regType.Coil? ==> gotBits == bits
    {
      hide Ordered, Overwrite, ReadFrom, WrittenTo;
      wrote := WriteField(config, words, bits);
      read, gotWords, gotBits := ReadField(config);
      if wrote {
        OrderedTwice(words, OrderOf(config));
      }
    }

    /** And a register of the other memory, or one that shares no address with it, reads as before. */
    method WriteThenReadOther(config: RegisterConfig, words: seq<Word>, bits: seq<bool>, other: RegisterConfig)
      returns (before: bool, after: bool, wordsBefore: seq<Word>, wordsAfter: seq<Word>,
               bitsBefore: seq<bool>, bitsAfter: seq<bool>)
      requires IsBitType(other.regType) == IsBitType(config.regType) ==>
                 || Wire(other.localAddress) + other.length <= Wire(config.localAddress)
                 || Wire(config.localAddress) + config.length <= Wire(other.localAddress)
      modifies State()
      ensures before == after && wordsBefore == wordsAfter && bitsBefore == bitsAfter
    {
      hide Ordered, Overwrite, ReadFrom, WrittenTo;
      before, wordsBefore, bitsBefore := ReadField(other);
      ghost var s := if client == null then Slave(0, [], []) else client.link.slave;
      var wrote := WriteField(config, words, bits);
      after, wordsAfter, bitsAfter := ReadField(other);
      if wrote && before {
        if config.regType.Coil? {
          OverwriteElsewhere(s.coils, Wire(config.localAddress), bits, Wire(other.localAddress), other.length);
        } else {
          OverwriteElsewhere(s.regs, Wire(config.localAddress), Ordered(words, OrderOf(config)),
                             Wire(other.localAddress), other.length);
        }
      }
    }
  }

  lemma OverwriteElsewhere<T>(memory: seq<T>, at: nat, values: seq<T>, from: nat, count: nat)
    requires at + |values| <= |memory|
    ensures from + count <= |memory| && (from + count <= at || at + |values| <= from) ==>
              Overwrite(memory, at, values)[from..from + count] == memory[from..from + count]
  {
  }
}
