/** Batched polling over the wire: which batches a conforming slave answers, and what each register
    then gets, compared with reading it alone through the same client. */
module WirePolling {
  import opened Wrappers
  import opened DeviceModels
  import opened ModbusPdu
  import opened ModbusExchange
  import opened RegisterExecutor
  import DC = DataCollector

  // The slave answers a read of this stretch.
  predicate Answers(s: Slave, regType: RegisterType, address: int, count: int) {
    match regType
    case Coil | DiscreteInput => count <= 2000 && Fits(s.coils, address, count)
    case HoldingRegister | InputRegister => count <= 125 && Fits(s.regs, address, count)
    case Unknown => false
  }

  // What reading one register alone gives when it is answered.
  function Alone(s: Slave, config: RegisterConfig, order: ByteOrder): DC.FieldResult
    requires Answers(s, config.regType, config.localAddress, config.length)
  {
    if IsBitType(config.regType) then DC.FieldOk([], Stretch(s.coils, config.localAddress, config.length))
    else DC.FieldOk(Ordered(Stretch(s.regs, config.localAddress, config.length),
                            EffectiveByteOrder(config.byteOrder, order)), [])
  }

  // One slice of the answer to a whole batch.
  function Sliced(s: Slave, b: DC.RegisterBatch, slice: DC.FieldSlice, config: RegisterConfig,
                  order: ByteOrder): DC.FieldResult
    requires Answers(s, b.regType, b.startAddress, b.totalLength)
    requires 0 <= slice.offset && 0 <= slice.length && slice.offset + slice.length <= b.totalLength
  {
    if IsBitType(b.regType) then
      DC.FieldOk([], Stretch(s.coils, b.startAddress, b.totalLength)[slice.offset..slice.offset + slice.length])
    else
      DC.FieldOk(Ordered(Stretch(s.regs, b.startAddress, b.totalLength)[slice.offset..slice.offset + slice.length],
                         EffectiveByteOrder(config.byteOrder, order)), [])
  }

  // Addresses on the wire have sixteen bits: the batch does not run past the last one.
  predicate NoWrap(b: DC.RegisterBatch) {
    Wire(b.startAddress) + b.totalLength <= 65536
  }

  lemma WireOffset(address: int, offset: nat)
    ensures Wire(address) + offset < 65536 ==> Wire(address + offset) == Wire(address) + offset
  {
  }

  /** Inside an answered batch every register is what it would be alone. */
  lemma SliceIsAlone(s: Slave, b: DC.RegisterBatch, slice: DC.FieldSlice, config: RegisterConfig, order: ByteOrder)
    requires SlaveOk(s) && Answers(s, b.regType, b.startAddress, b.totalLength)
    requires 0 <= slice.offset && 1 <= slice.length && slice.offset + slice.length <= b.totalLength
    requires b.regType == config.regType && slice.length == config.length
    requires b.startAddress + slice.offset == config.localAddress
    ensures Answers(s, config.regType, config.localAddress, config.length)
    ensures Sliced(s, b, slice, config, order) == Alone(s, config, order)
  {
    hide Ordered;
    WireOffset(b.startAddress, slice.offset);
    var a, from, to := Wire(b.startAddress), slice.offset, slice.offset + slice.length;
    if IsBitType(b.regType) {
      SliceOfSlice(s.coils, a, a + b.totalLength, from, to);
    } else {
      SliceOfSlice(s.regs, a, a + b.totalLength, from, to);
    }
  }

  ghost predicate Answered(c: DC.Collector, s: Slave, j: nat)
    requires j < |c.batches|
  {
    Answers(s, c.batches[j].regType, c.batches[j].startAddress, c.batches[j].totalLength)
  }

  ghost predicate AnsweredAlone(c: DC.Collector, s: Slave, i: nat)
    requires i < |c.registers|
  {
    Answers(s, c.registers[i].regType, c.registers[i].localAddress, c.registers[i].length)
  }

  lemma SlicesBelong(c: DC.Collector, j: nat, k: nat)
    requires c.Valid() && j < |c.batches| && k < |c.batches[j].slices|
    ensures c.batches[j].slices[k].fieldIndex < |c.registers|
    ensures c.ReadBy(c.batches[j].slices[k].fieldIndex, j)
    ensures c.batches[j].slices[k].length >= 1
  {
    c.SliceInRange(j, k);
    assert DC.SliceOf(c.batches, j, k, c.batches[j].slices[k].fieldIndex);
    assert c.registers[c.batches[j].slices[k].fieldIndex].length >= 1;
  }

  // A batch ends where its last field ends, and is short unless it is one field.
  lemma LastSlice(c: DC.Collector, j: nat)
    requires c.Valid() && j < |c.batches|
    ensures |c.batches[j].slices| > 0
    ensures var b := c.batches[j];
            var last := b.slices[|b.slices| - 1];
            last.offset + last.length == b.totalLength && (|b.slices| == 1 || b.totalLength <= 64)
  {
    var regs := DC.InOrder(c.registers, c.order);
    var lo, hi := DC.Start(c.ends, j), c.ends[j];
    assert DC.BatchAt(regs, c.order, c.batches, c.ends, j);
    DC.SliceAt(regs, c.order, c.batches, c.ends, j, hi - 1 - lo);
    assert DC.TotalLength(regs, lo, hi) == DC.TotalLength(regs, lo, hi - 1) + regs[hi - 1].length;
  }

  /** A batch is answered exactly when each of its registers would be answered alone and the batch
      does not run past the last address: one register outside the slave's memory costs its whole
      batch, and nothing else does. */
  lemma AnsweredIff(c: DC.Collector, s: Slave, j: nat)
    requires c.Valid() && SlaveOk(s) && j < |c.batches|
    ensures Answered(c, s, j) <==>
              NoWrap(c.batches[j]) && forall i: nat | i < |c.registers| && c.ReadBy(i, j) :: AnsweredAlone(c, s, i)
  {
    var b := c.batches[j];
    if Answered(c, s, j) {
      forall i: nat | i < |c.registers| && c.ReadBy(i, j)
        ensures AnsweredAlone(c, s, i)
      {
        var k: nat :| DC.SliceOf(c.batches, j, k, i);
        c.SliceInRange(j, k);
        SlicesBelong(c, j, k);
        SliceIsAlone(s, b, b.slices[k], c.registers[i], c.defaultByteOrder);
      }
    }
    if NoWrap(b) && forall i: nat | i < |c.registers| && c.ReadBy(i, j) :: AnsweredAlone(c, s, i) {
      LastSlice(c, j);
      var k := |b.slices| - 1;
      c.SliceInRange(j, k);
      SlicesBelong(c, j, k);
      assert AnsweredAlone(c, s, b.slices[k].fieldIndex);
      FirstAndLast(s, b, b.slices[k], c.registers[b.slices[k].fieldIndex]);
      if |b.slices| == 1 {
        SingleStartsAtZero(c, j);
      }
    }
  }

  lemma SingleStartsAtZero(c: DC.Collector, j: nat)
    requires c.Valid() && j < |c.batches| && |c.batches[j].slices| == 1
    ensures c.batches[j].slices[0].offset == 0
  {
    var regs := DC.InOrder(c.registers, c.order);
    assert DC.BatchAt(regs, c.order, c.batches, c.ends, j);
    DC.SliceAt(regs, c.order, c.batches, c.ends, j, 0);
    assert DC.TotalLength(regs, DC.Start(c.ends, j), DC.Start(c.ends, j)) == 0;
  }

  // If the last field fits, so does the whole batch, up to the limit on the count.
  lemma FirstAndLast(s: Slave, b: DC.RegisterBatch, last: DC.FieldSlice, config: RegisterConfig)
    requires NoWrap(b) && last.offset >= 0 && last.length >= 1 && last.offset + last.length == b.totalLength
    requires b.regType == config.regType && last.length == config.length
    requires b.startAddress + last.offset == config.localAddress
    requires Answers(s, config.regType, config.localAddress, config.length)
    ensures b.totalLength <= 64 || last.offset == 0 ==> Answers(s, b.regType, b.startAddress, b.totalLength)
  {
    WireOffset(b.startAddress, last.offset);
  }

  // What register i gets when it is read by batch j.
  ghost predicate Outcome(c: DC.Collector, s: Slave, reached: bool, i: nat, j: nat, r: DC.FieldResult)
    requires i < |c.registers| && j < |c.batches|
  {
    if reached && Answered(c, s, j)
    then
      && AnsweredAlone(c, s, i) && r == Alone(s, c.registers[i], c.defaultByteOrder)
      && r.FieldOk? && ReadFrom(s, c.registers[i], c.defaultByteOrder, r.registerValues, r.coilValues)
    else r.FieldFailed?
  }

  lemma AloneIsRead(s: Slave, config: RegisterConfig, order: ByteOrder)
    requires Answers(s, config.regType, config.localAddress, config.length)
    ensures var r := Alone(s, config, order);
            r.FieldOk? && ReadFrom(s, config, order, r.registerValues, r.coilValues)
  {
    hide Ordered, EffectiveByteOrder, ReadFrom;
    StretchIsRead(s, config, order);
  }

  /** Polls every batch through the client and slices the answers. Register i gets what reading it
      alone would give when the batch that contains it is answered, and fails otherwise. */
  method CollectAllFields(c: DC.Collector, executor: Executor) returns (results: seq<DC.FieldResult>)
    requires c.Valid() && c.defaultByteOrder == executor.defaultByteOrder
    requires executor.client != null && SlaveOk(executor.client.link.slave)
    modifies executor.State()
    ensures executor.client.link.slave == old(executor.client.link.slave)
    ensures |results| == |c.registers|
    ensures forall i: nat, j: nat | i < |c.registers| && c.ReadBy(i, j) ::
              Outcome(c, old(executor.client.link.slave), old(executor.Reaches()), i, j, results[i])
  {
    ghost var s := executor.client.link.slave;
    ghost var reached := executor.Reaches();
    results := seq(|c.registers|, _ => DC.FieldFailed(DC.NotRead));
    var j := 0;
    while j < |c.batches|
      invariant 0 <= j <= |c.batches| && |results| == |c.registers|
      invariant executor.client.link.slave == s && executor.Reaches() == reached
      invariant forall i: nat, b: nat | i < |c.registers| && b < j && c.ReadBy(i, b)
                  :: Outcome(c, s, reached, i, b, results[i])
    {
      ghost var before := results;
      results := CollectBatch(c, executor, j, results);
      forall i: nat, b: nat | i < |c.registers| && b < j + 1 && c.ReadBy(i, b)
        ensures Outcome(c, s, reached, i, b, results[i])
      {
        if c.ReadBy(i, j) {
          c.OneReader(i, b, j);
        } else {
          assert Outcome(c, s, reached, i, b, before[i]);
        }
      }
      j := j + 1;
    }
  }

  // One batch: one request, its slices get their part, all other results stay.
  method CollectBatch(c: DC.Collector, executor: Executor, j: nat, before: seq<DC.FieldResult>)
    returns (results: seq<DC.FieldResult>)
    requires c.Valid() && j < |c.batches| && |before| == |c.registers|
    requires c.defaultByteOrder == executor.defaultByteOrder
    requires executor.client != null && SlaveOk(executor.client.link.slave)
    modifies executor.State()
    ensures executor.client.link.slave == old(executor.client.link.slave)
    ensures executor.client.link.line == old(executor.client.link.line)
    ensures |results| == |c.registers|
    ensures forall i: nat | i < |c.registers| ::
              if c.ReadBy(i, j)
              then Outcome(c, old(executor.client.link.slave), old(executor.Reaches()), i, j, results[i])
              else results[i] == before[i]
  {
    hide Outcome, Ordered;
    ghost var s := executor.client.link.slave;
    ghost var reached := executor.Reaches();
    var batch := c.batches[j];
    results := before;
    var ok, rawWords, rawBits := executor.ReadBatch(batch.startAddress, batch.totalLength, batch.regType);
    assert ok <==> reached && Answered(c, s, j);
    assert ok ==> RawFrom(s, batch, rawWords, rawBits);
    hide Answered, RawFrom;
    var k := 0;
    while k < |batch.slices|
      invariant 0 <= k <= |batch.slices| && |results| == |c.registers|
      invariant executor.client.link.slave == s && executor.client.link.line == old(executor.client.link.line)
      invariant forall i: nat | i < |c.registers| ::
                  if SlicedBefore(c, j, k, i) then Outcome(c, s, reached, i, j, results[i]) else results[i] == before[i]
    {
      var slice := batch.slices[k];
      SlicesBelong(c, j, k);
      var r := CutSlice(c, j, k, s, reached, ok, rawWords, rawBits);
      ghost var was := results;
      results := results[slice.fieldIndex := r];
      forall i: nat | i < |c.registers|
        ensures if SlicedBefore(c, j, k + 1, i) then Outcome(c, s, reached, i, j, results[i])
                else results[i] == before[i]
      {
        SlicedOneMore(c, j, k, i);
        assert i != slice.fieldIndex ==> results[i] == was[i];
      }
      k := k + 1;
    }
    forall i: nat | i < |c.registers|
      ensures SlicedBefore(c, j, k, i) <==> c.ReadBy(i, j)
    {
      AllSliced(c, j, i);
    }
  }

  // Register i was cut from batch j before slice k.
  ghost predicate SlicedBefore(c: DC.Collector, j: nat, k: nat, i: nat) {
    exists q: nat | q < k :: DC.SliceOf(c.batches, j, q, i)
  }

  lemma SlicedOneMore(c: DC.Collector, j: nat, k: nat, i: nat)
    requires j < |c.batches| && k < |c.batches[j].slices|
    ensures SlicedBefore(c, j, k + 1, i) <==> SlicedBefore(c, j, k, i) || i == c.batches[j].slices[k].fieldIndex
  {
    if i == c.batches[j].slices[k].fieldIndex {
      assert DC.SliceOf(c.batches, j, k, i);
    }
    if SlicedBefore(c, j, k, i) {
      var q: nat :| q < k && DC.SliceOf(c.batches, j, q, i);
    }
  }

  lemma AllSliced(c: DC.Collector, j: nat, i: nat)
    requires j < |c.batches|
    ensures SlicedBefore(c, j, |c.batches[j].slices|, i) <==> c.ReadBy(i, j)
  {
  }

  // What an answered batch read leaves in the two buffers.
  ghost predicate RawFrom(s: Slave, b: DC.RegisterBatch, rawWords: seq<Word>, rawBits: seq<bool>) {
    && Answers(s, b.regType, b.startAddress, b.totalLength)
    && (IsBitType(b.regType) ==> rawBits == Stretch(s.coils, b.startAddress, b.totalLength))
    && (!IsBitType(b.regType) ==> rawWords == Stretch(s.regs, b.startAddress, b.totalLength))
  }

  // One slice of a batch response.
  method CutSlice(c: DC.Collector, j: nat, k: nat, ghost s: Slave, ghost reached: bool,
                  ok: bool, rawWords: seq<Word>, rawBits: seq<bool>) returns (r: DC.FieldResult)
    requires c.Valid() && SlaveOk(s) && j < |c.batches| && k < |c.batches[j].slices|
    requires ok <==> reached && Answered(c, s, j)
    requires ok ==> RawFrom(s, c.batches[j], rawWords, rawBits)
    ensures c.batches[j].slices[k].fieldIndex < |c.registers|
    ensures Outcome(c, s, reached, c.batches[j].slices[k].fieldIndex, j, r)
  {
    hide Ordered, EffectiveByteOrder, ReadFrom;
    var batch := c.batches[j];
    var slice := batch.slices[k];
    c.SliceInRange(j, k);
    SlicesBelong(c, j, k);
    if !ok {
      return DC.FieldFailed(DC.ReadFailed);
    }
    var config := c.registers[slice.fieldIndex];
    SliceIsAlone(s, batch, slice, config, c.defaultByteOrder);
    AloneIsRead(s, config, c.defaultByteOrder);
    if IsBitType(batch.regType) {
      return DC.FieldOk([], rawBits[slice.offset..slice.offset + slice.length]);
    }
    var ordered := ApplyByteOrder(rawWords[slice.offset..slice.offset + slice.length],
                                  EffectiveByteOrder(config.byteOrder, c.defaultByteOrder));
    return DC.FieldOk(ordered, []);
  }
}
