/** Where pending writes come from and where they go: a multi-register write of the Modbus server
    turned into queued requests, and one pass of the polling thread over the queue of a device. */
module WriteFlush {
  import opened Wrappers
  import opened DeviceModels
  import opened ModbusPdu
  import opened ModbusExchange
  import opened RegisterExecutor
  import opened DeviceTables
  import opened DeviceCache
  import WriteQueue
  import opened ModbusClient

  // ---------------------------------------------------------------- one pass

  // The slave after one request, or None when the request is not carried out.
  function Applied(s: Slave, order: ByteOrder, req: WriteRequest): Option<Slave> {
    var c := req.config;
    if c.readOnly then None
    else if c.regType.Coil? then
      if |req.coilValues| == c.length <= 1968 && Fits(s.coils, c.localAddress, c.length)
      then Some(s.(coils := Overwrite(s.coils, Wire(c.localAddress), req.coilValues))) else None
    else if c.regType.HoldingRegister? then
      if |req.rawValues| == c.length <= 123 && Fits(s.regs, c.localAddress, c.length)
      then Some(s.(regs := Overwrite(s.regs, Wire(c.localAddress),
                                     Ordered(req.rawValues, EffectiveByteOrder(c.byteOrder, order))))) else None
    else None
  }

  // What one request of a pass meets: its line, and requests other threads enqueue meanwhile.
  datatype Moment = Moment(line: Line, arrivals: seq<WriteRequest>)

  datatype PassResult = PassResult(
    slave: Slave,
    queued: seq<WriteRequest>,
    written: seq<WriteRequest>,
    dropped: seq<WriteRequest>)

  // One request of a pass; `addressed` says whether the slave has the unit of the executor. The
  // answer may be lost, and then the request is carried out and counts as failed.
  function Tried(before: PassResult, order: ByteOrder, addressed: bool, req: WriteRequest, m: Moment): PassResult {
    var done := if addressed && (m.line.Lossy? || m.line.Live?) then Applied(before.slave, order, req) else None;
    var r := before.(queued := before.queued + m.arrivals, slave := if done.Some? then done.value else before.slave);
    if done.Some? && m.line.Live? then r.(written := r.written + [req])
    else if m.line.Down? || req.retryCount <= 0 then r.(dropped := r.dropped + [req])
    else r.(queued := r.queued + [req.(retryCount := req.retryCount - 1)])
  }

  // What a pass does with the requests it took.
  function Pass(s: Slave, order: ByteOrder, addressed: bool, reqs: seq<WriteRequest>, moments: seq<Moment>): PassResult
    requires |moments| == |reqs|
  {
    if reqs == [] then PassResult(s, [], [], [])
    else
      var n := |reqs| - 1;
      Tried(Pass(s, order, addressed, reqs[..n], moments[..n]), order, addressed, reqs[n], moments[n])
  }

  function Arrivals(moments: seq<Moment>): seq<WriteRequest> {
    if moments == [] then [] else Arrivals(moments[..|moments| - 1]) + moments[|moments| - 1].arrivals
  }

  function Items(reqs: seq<WriteRequest>): (items: seq<WriteQueue.Item>)
    ensures |items| == |reqs|
  {
    seq(|reqs|, i requires 0 <= i < |reqs| => WriteQueue.Item(0, reqs[i].retryCount))
  }

  // How many attempts these requests still allow.
  function Load(reqs: seq<WriteRequest>): nat {
    WriteQueue.Weight(Items(reqs))
  }

  lemma LoadSplits(a: seq<WriteRequest>, b: seq<WriteRequest>)
    ensures Load(a + b) == Load(a) + Load(b)
  {
    assert Items(a + b) == Items(a) + Items(b);
    WriteQueue.WeightSplits(Items(a), Items(b));
  }

  lemma LoadOfOne(req: WriteRequest)
    ensures Load([req]) == WriteQueue.AtLeastZero(req.retryCount) + 1
  {
    assert Items([req]) == [WriteQueue.Item(0, req.retryCount)];
    WriteQueue.WeightOfOne(WriteQueue.Item(0, req.retryCount));
  }

  /** A pass loses no request, its own or one that arrives meanwhile, and each request it takes makes
      what waits lighter by one. */
  lemma {:induction false} PassConserves(s: Slave, order: ByteOrder, addressed: bool, reqs: seq<WriteRequest>,
                                         moments: seq<Moment>)
    requires |moments| == |reqs|
    ensures var r := Pass(s, order, addressed, reqs, moments);
            && |r.queued| + |r.written| + |r.dropped| == |reqs| + |Arrivals(moments)|
            && Load(r.queued) + |reqs| <= Load(reqs) + Load(Arrivals(moments))
    decreases |reqs|
  {
    hide Applied, Load;
    if reqs != [] {
      var n := |reqs| - 1;
      var req, m := reqs[n], moments[n];
      PassConserves(s, order, addressed, reqs[..n], moments[..n]);
      var before := Pass(s, order, addressed, reqs[..n], moments[..n]);
      LoadSplits(before.queued, m.arrivals);
      LoadSplits(Arrivals(moments[..n]), m.arrivals);
      LoadSplits(before.queued + m.arrivals, [req.(retryCount := req.retryCount - 1)]);
      LoadOfOne(req.(retryCount := req.retryCount - 1));
      assert reqs == reqs[..n] + [req];
      LoadSplits(reqs[..n], [req]);
      LoadOfOne(req);
    }
  }

  // What a request writes, whatever its remaining retries.
  function Writes(reqs: seq<WriteRequest>): multiset<WriteRequest> {
    if reqs == [] then multiset{}
    else Writes(reqs[..|reqs| - 1]) + multiset{reqs[|reqs| - 1].(retryCount := 0)}
  }

  lemma WritesOneMore(reqs: seq<WriteRequest>, req: WriteRequest)
    ensures Writes(reqs + [req]) == Writes(reqs) + multiset{req.(retryCount := 0)}
  {
    assert (reqs + [req])[..|reqs|] == reqs;
  }

  lemma {:induction false} WritesSplit(a: seq<WriteRequest>, b: seq<WriteRequest>)
    ensures Writes(a + b) == Writes(a) + Writes(b)
    decreases |b|
  {
    hide Writes;
    if b == [] {
      assert a + b == a;
      NothingToWrite();
    } else {
      var init, last := b[..|b| - 1], b[|b| - 1];
      WritesSplit(a, init);
      assert b == init + [last];
      assert a + b == (a + init) + [last];
      WritesOneMore(a + init, last);
      WritesOneMore(init, last);
    }
  }

  lemma NothingToWrite()
    ensures Writes([]) == multiset{}
  {
  }

  lemma WritesOfOne(req: WriteRequest)
    ensures Writes([req]) == multiset{req.(retryCount := 0)}
  {
    NothingToWrite();
    WritesOneMore([], req);
    assert [] + [req] == [req];
  }

  /** No request is altered: what is queued, written and dropped in the end writes what was taken and
      what arrived, register, values and all. */
  lemma {:induction false} PassKeepsWrites(s: Slave, order: ByteOrder, addressed: bool, reqs: seq<WriteRequest>,
                                           moments: seq<Moment>)
    requires |moments| == |reqs|
    ensures var r := Pass(s, order, addressed, reqs, moments);
            Writes(r.queued) + Writes(r.written) + Writes(r.dropped) == Writes(reqs) + Writes(Arrivals(moments))
    decreases |reqs|
  {
    hide Applied, Writes;
    if reqs == [] {
      NothingToWrite();
    } else {
      var n := |reqs| - 1;
      var req, m := reqs[n], moments[n];
      var before := Pass(s, order, addressed, reqs[..n], moments[..n]);
      PassKeepsWrites(s, order, addressed, reqs[..n], moments[..n]);
      WritesSplit(Arrivals(moments[..n]), m.arrivals);
      assert reqs == reqs[..n] + [req];
      WritesSplit(reqs[..n], [req]);
      TriedKeepsWrites(before, order, addressed, req, m);
    }
  }

  lemma TriedKeepsWrites(before: PassResult, order: ByteOrder, addressed: bool, req: WriteRequest, m: Moment)
    ensures var r := Tried(before, order, addressed, req, m);
            Writes(r.queued) + Writes(r.written) + Writes(r.dropped)
            == Writes(before.queued) + Writes(before.written) + Writes(before.dropped)
               + Writes(m.arrivals) + Writes([req])
  {
    hide Applied, Writes;
    var again := req.(retryCount := req.retryCount - 1);
    WritesOfOne(req);
    WritesOfOne(again);
    WritesSplit(before.queued, m.arrivals);
    WritesSplit(before.queued + m.arrivals, [again]);
    WritesSplit(before.written, [req]);
    WritesSplit(before.dropped, [req]);
  }

  // The connection cannot be made when it is the turn of a request that still has retries.
  predicate CutOff(reqs: seq<WriteRequest>, moments: seq<Moment>, i: nat)
    requires i < |reqs| == |moments|
  {
    moments[i].line.Down? && reqs[i].retryCount > 0
  }

  function WithRetries(reqs: seq<WriteRequest>): seq<WriteRequest> {
    if reqs == [] then []
    else
      var req := reqs[|reqs| - 1];
      WithRetries(reqs[..|reqs| - 1]) + if req.retryCount > 0 then [req] else []
  }

  function CutOffs(reqs: seq<WriteRequest>, moments: seq<Moment>): seq<WriteRequest>
    requires |moments| == |reqs|
  {
    if reqs == [] then []
    else
      var n := |reqs| - 1;
      CutOffs(reqs[..n], moments[..n]) + if CutOff(reqs, moments, n) then [reqs[n]] else []
  }

  lemma WithRetriesAppends(reqs: seq<WriteRequest>, req: WriteRequest)
    ensures WithRetries(reqs + [req]) == WithRetries(reqs) + if req.retryCount > 0 then [req] else []
  {
    assert (reqs + [req])[..|reqs|] == reqs;
  }

  /** Of the requests a pass drops, those with retries left are exactly the cut off ones, in order. */
  lemma {:induction false} DroppedWithRetries(s: Slave, order: ByteOrder, addressed: bool, reqs: seq<WriteRequest>,
                                              moments: seq<Moment>)
    requires |moments| == |reqs|
    ensures WithRetries(Pass(s, order, addressed, reqs, moments).dropped) == CutOffs(reqs, moments)
    decreases |reqs|
  {
    hide Applied;
    if reqs != [] {
      var n := |reqs| - 1;
      DroppedWithRetries(s, order, addressed, reqs[..n], moments[..n]);
      WithRetriesAppends(Pass(s, order, addressed, reqs[..n], moments[..n]).dropped, reqs[n]);
    }
  }

  lemma {:induction false} NoRetriesIff(reqs: seq<WriteRequest>)
    ensures WithRetries(reqs) == [] <==> forall d | d in reqs :: d.retryCount <= 0
    decreases |reqs|
  {
    if reqs != [] {
      NoRetriesIff(reqs[..|reqs| - 1]);
      assert reqs == reqs[..|reqs| - 1] + [reqs[|reqs| - 1]];
    }
  }

  lemma {:induction false} NoneCutOffIff(reqs: seq<WriteRequest>, moments: seq<Moment>)
    requires |moments| == |reqs|
    ensures CutOffs(reqs, moments) == [] <==> forall i: nat | i < |reqs| :: !CutOff(reqs, moments, i)
    decreases |reqs|
  {
    if reqs != [] {
      var n := |reqs| - 1;
      NoneCutOffIff(reqs[..n], moments[..n]);
      assert forall i: nat | i < n :: CutOff(reqs, moments, i) == CutOff(reqs[..n], moments[..n], i);
    }
  }

  /** A pass drops only requests that have no retries left exactly when the connection fails at none
      that has some. */
  lemma DropsOnlySpentIff(s: Slave, order: ByteOrder, addressed: bool, reqs: seq<WriteRequest>, moments: seq<Moment>)
    requires |moments| == |reqs|
    ensures (forall d | d in Pass(s, order, addressed, reqs, moments).dropped :: d.retryCount <= 0)
       <==> (forall i: nat | i < |reqs| :: !CutOff(reqs, moments, i))
  {
    DroppedWithRetries(s, order, addressed, reqs, moments);
    NoRetriesIff(Pass(s, order, addressed, reqs, moments).dropped);
    NoneCutOffIff(reqs, moments);
  }

  /** Without a connection a pass drops every request, retries or not, and keeps those that arrive. */
  lemma {:induction false} DownDropsAll(s: Slave, order: ByteOrder, addressed: bool, reqs: seq<WriteRequest>,
                                        moments: seq<Moment>)
    requires |moments| == |reqs|
    requires forall i | 0 <= i < |moments| :: moments[i].line.Down?
    ensures Pass(s, order, addressed, reqs, moments) == PassResult(s, Arrivals(moments), [], reqs)
    decreases |reqs|
  {
    hide Tried;
    if reqs != [] {
      var n := |reqs| - 1;
      DownDropsAll(s, order, addressed, reqs[..n], moments[..n]);
      DownDrops(PassResult(s, Arrivals(moments[..n]), [], reqs[..n]), order, addressed, reqs[n], moments[n]);
      assert reqs == reqs[..n] + [reqs[n]];
    }
  }

  lemma DownDrops(before: PassResult, order: ByteOrder, addressed: bool, req: WriteRequest, m: Moment)
    requires m.line.Down?
    ensures Tried(before, order, addressed, req, m)
         == before.(queued := before.queued + m.arrivals, dropped := before.dropped + [req])
  {
  }

  /** A request that is not written leaves the memory as it was, or as its write makes it; and then
      only because the answer was lost. */
  lemma UnwrittenMemory(before: PassResult, order: ByteOrder, addressed: bool, req: WriteRequest, m: Moment)
    ensures var r := Tried(before, order, addressed, req, m);
            && (r.slave == before.slave || Some(r.slave) == Applied(before.slave, order, req))
            && (r.written == before.written && r.slave != before.slave ==> m.line.Lossy?)
  {
    hide Applied;
  }

  /** Carrying a write out again changes nothing: a request whose answer was lost and whose retry is
      written ends in the memory of a single write. */
  lemma WriteAgain(s: Slave, order: ByteOrder, req: WriteRequest, retries: int)
    requires Applied(s, order, req).Some?
    ensures var s' := Applied(s, order, req).value;
            Applied(s', order, req.(retryCount := retries)) == Some(s')
  {
    hide Ordered, EffectiveByteOrder;
    var c := req.config;
    if c.regType.Coil? {
      OverwriteAgain(s.coils, Wire(c.localAddress), req.coilValues);
    } else {
      OverwriteAgain(s.regs, Wire(c.localAddress), Ordered(req.rawValues, EffectiveByteOrder(c.byteOrder, order)));
    }
  }

  lemma OverwriteAgain<T>(memory: seq<T>, at: nat, values: seq<T>)
    requires at + |values| <= |memory|
    ensures Overwrite(Overwrite(memory, at, values), at, values) == Overwrite(memory, at, values)
  {
  }

  /** Lost and retried, or written at once: the same memory, and the request is written. */
  lemma RetryEndsTheSame(s: Slave, order: ByteOrder, req: WriteRequest)
    requires req.retryCount > 0
    ensures var lost := Pass(s, order, true, [req], [Moment(Lossy, [])]);
            var atOnce := Pass(s, order, true, [req], [Moment(Live, [])]);
            atOnce.written == [req] ==>
              && lost.written == [] && |lost.queued| == 1
              && var retried := Pass(lost.slave, order, true, lost.queued, [Moment(Live, [])]);
                 retried.written == lost.queued && retried.slave == atOnce.slave == lost.slave
  {
    hide Applied;
    var again := req.(retryCount := req.retryCount - 1);
    OnePass(s, order, req, Moment(Lossy, []));
    OnePass(s, order, req, Moment(Live, []));
    if Applied(s, order, req).Some? {
      WriteAgain(s, order, req, again.retryCount);
      OnePass(Applied(s, order, req).value, order, again, Moment(Live, []));
    }
  }

  lemma OnePass(s: Slave, order: ByteOrder, req: WriteRequest, m: Moment)
    ensures Pass(s, order, true, [req], [m]) == Tried(PassResult(s, [], [], []), order, true, req, m)
  {
    hide Applied;
    assert [req][..0] == [] && [m][..0] == [];
  }

  // A device whose client could not be built never connects.
  function Met(moments: seq<Moment>, hasClient: bool): (met: seq<Moment>)
    ensures |met| == |moments|
  {
    if hasClient then moments
    else seq(|moments|, i requires 0 <= i < |moments| => moments[i].(line := Down))
  }

  function SlaveOf(executor: Executor): Slave
    reads if executor.client == null then {} else {executor.client.link}
  {
    if executor.client == null then Slave(0, [], []) else executor.client.link.slave
  }

  predicate Addressed(executor: Executor)
    reads if executor.client == null then {} else {executor.client.link}
  {
    executor.client != null && executor.client.link.slave.unit == executor.client.Unit()
  }

  // Other threads enqueue these while a pass is under way.
  method Arrive(list: DeviceList, device: int, arrivals: seq<WriteRequest>)
    modifies list`writes
    ensures list.Pending(device) == old(list.Pending(device)) + arrivals
    ensures forall other | other != device :: list.Pending(other) == old(list.Pending(other))
  {
    var i := 0;
    while i < |arrivals|
      invariant 0 <= i <= |arrivals|
      invariant list.Pending(device) == old(list.Pending(device)) + arrivals[..i]
      invariant forall other | other != device :: list.Pending(other) == old(list.Pending(other))
    {
      list.EnqueueWrite(device, arrivals[i]);
      i := i + 1;
    }
  }

  // One of three: written, tried in vain with a retry left, or dropped; requests that arrived stay queued.
  predicate Turned(before: PassResult, after: PassResult, req: WriteRequest, arrivals: seq<WriteRequest>,
                   connected: bool)
  {
    var waiting := before.queued + arrivals;
    || (connected && after.written == before.written + [req] && after.dropped == before.dropped
        && after.queued == waiting)
    || (connected && req.retryCount > 0 && after.written == before.written && after.dropped == before.dropped
        && after.queued == waiting + [req.(retryCount := req.retryCount - 1)])
    || ((!connected || req.retryCount <= 0) && after.written == before.written
        && after.dropped == before.dropped + [req] && after.queued == waiting)
  }

  // One turn of the loop of a pass.
  method FlushOne(list: DeviceList, device: int, executor: Executor, req: WriteRequest, m: Moment,
                  ghost before: PassResult)
    returns (ghost after: PassResult)
    requires before.slave == SlaveOf(executor) && before.queued == list.Pending(device)
    modifies list`writes, executor.State()
    ensures after == Tried(before, executor.defaultByteOrder, old(Addressed(executor)), req,
                           if executor.client == null then m.(line := Down) else m)
    ensures after.slave == SlaveOf(executor) && after.queued == list.Pending(device)
    ensures Turned(before, after, req, m.arrivals, executor.client != null && !m.line.Down?)
    ensures Addressed(executor) == old(Addressed(executor))
    ensures forall other | other != device :: list.Pending(other) == old(list.Pending(other))
  {
    hide Applied, Tried;
    ghost var addressed, s := Addressed(executor), SlaveOf(executor);
    TriedIs(before, executor.defaultByteOrder, addressed, req, if executor.client == null then m.(line := Down) else m);
    Arrive(list, device, m.arrivals);
    after := before.(queued := list.Pending(device));
    var connected := executor.client != null && m.line != Down;
    if !connected {
      after := after.(dropped := before.dropped + [req]);
      return;
    }
    executor.client.link.line := m.line;
    CarriedOutIffApplied(executor, req);
    var ok := executor.WriteField(req.config, req.rawValues, req.coilValues);
    WrittenAsApplied(s, executor.defaultByteOrder, req);
    after := after.(slave := SlaveOf(executor));
    if !ok {
      if req.retryCount > 0 {
        list.EnqueueWrite(device, req.(retryCount := req.retryCount - 1));
        after := after.(queued := list.Pending(device));
      } else {
        after := after.(dropped := before.dropped + [req]);
      }
    } else {
      after := after.(written := before.written + [req]);
    }
  }

  /** A pass over the queue of one device: the connection is tested for each request, and other
      threads enqueue while the pass is under way. */
  method FlushWrites(list: DeviceList, device: int, executor: Executor, moments: seq<Moment>)
    returns (ghost written: seq<WriteRequest>, ghost dropped: seq<WriteRequest>)
    requires |moments| == |list.Pending(device)|
    modifies list`writes, executor.State()
    ensures forall other | other != device :: list.Pending(other) == old(list.Pending(other))
    ensures var r := Pass(old(SlaveOf(executor)), executor.defaultByteOrder, old(Addressed(executor)),
                          old(list.Pending(device)), Met(moments, executor.client != null));
            && list.Pending(device) == r.queued && written == r.written && dropped == r.dropped
            && SlaveOf(executor) == r.slave
  {
    hide Pass, Tried;
    ghost var slave, addressed, order := SlaveOf(executor), Addressed(executor), executor.defaultByteOrder;
    ghost var met := Met(moments, executor.client != null);
    var requests := list.TakeWrites(device);
    ghost var r := PassResult(slave, [], [], []);
    var i := 0;
    PassOfNone(slave, order, addressed, requests, met);
    while i < |requests|
      invariant 0 <= i <= |requests|
      invariant Addressed(executor) == addressed
      invariant forall other | other != device :: list.Pending(other) == old(list.Pending(other))
      invariant r == Pass(slave, order, addressed, requests[..i], met[..i])
      invariant r.slave == SlaveOf(executor) && r.queued == list.Pending(device)
    {
      PassOfOneMore(slave, order, addressed, requests, met, i);
      r := FlushOne(list, device, executor, requests[i], moments[i], r);
      i := i + 1;
    }
    assert requests[..i] == requests && met[..i] == met;
    written, dropped := r.written, r.dropped;
  }

  lemma PassOfNone(s: Slave, order: ByteOrder, addressed: bool, reqs: seq<WriteRequest>, moments: seq<Moment>)
    requires |moments| == |reqs|
    ensures Pass(s, order, addressed, reqs[..0], moments[..0]) == PassResult(s, [], [], [])
  {
  }

  lemma PassOfOneMore(s: Slave, order: ByteOrder, addressed: bool, reqs: seq<WriteRequest>,
                      moments: seq<Moment>, i: nat)
    requires |moments| == |reqs| && i < |reqs|
    ensures Pass(s, order, addressed, reqs[..i + 1], moments[..i + 1])
         == Tried(Pass(s, order, addressed, reqs[..i], moments[..i]), order, addressed, reqs[i], moments[i])
  {
    hide Tried;
    assert reqs[..i + 1][..i] == reqs[..i] && moments[..i + 1][..i] == moments[..i];
  }

  // The ways one request can go, as the loop takes them.
  lemma TriedIs(before: PassResult, order: ByteOrder, addressed: bool, req: WriteRequest, m: Moment)
    ensures var done := if addressed && (m.line.Lossy? || m.line.Live?)
                        then Applied(before.slave, order, req) else None;
            var slave := if done.Some? then done.value else before.slave;
            var r := before.(queued := before.queued + m.arrivals, slave := slave);
            Tried(before, order, addressed, req, m) ==
            if m.line.Down? then r.(dropped := r.dropped + [req])
            else if done.Some? && m.line.Live? then r.(written := r.written + [req])
            else if req.retryCount > 0 then r.(queued := r.queued + [req.(retryCount := req.retryCount - 1)])
            else r.(dropped := r.dropped + [req])
  {
    hide Applied;
  }

  lemma CarriedOutIffApplied(executor: Executor, req: WriteRequest)
    requires executor.client != null
    ensures executor.CarriedOut(req.config, req.rawValues, req.coilValues)
       <==> executor.client.Heard() && Applied(executor.client.link.slave, executor.defaultByteOrder, req).Some?
  {
    hide Overwrite, Ordered;
  }

  lemma WrittenAsApplied(s: Slave, order: ByteOrder, req: WriteRequest)
    ensures Applied(s, order, req).Some? ==>
              && (req.config.regType.Coil? || req.config.regType.HoldingRegister?)
              && Applied(s, order, req).value.unit == s.unit
    ensures Applied(s, order, req).Some? && req.config.regType.Coil? ==>
              && Wire(req.config.localAddress) + |req.coilValues| <= |s.coils|
              && Applied(s, order, req).value
                 == s.(coils := Overwrite(s.coils, Wire(req.config.localAddress), req.coilValues))
    ensures Applied(s, order, req).Some? && req.config.regType.HoldingRegister? ==>
              && Wire(req.config.localAddress) + |req.rawValues| <= |s.regs|
              && Applied(s, order, req).value
                 == s.(regs := Overwrite(s.regs, Wire(req.config.localAddress),
                                         Ordered(req.rawValues, EffectiveByteOrder(req.config.byteOrder, order))))
  {
    hide Overwrite, Ordered;
  }

  // ---------------------------------------------------------------- forwarding a write

  // The register the address is mapped to.
  ghost predicate MappedTo(devices: DeviceCache.Devices, address: int, config: RegisterConfig) {
    config.unifiedAddress == address && exists d, i :: Holds(devices, d, i) && devices[d].registers[i] == config
  }

  ghost predicate Mapped(devices: DeviceCache.Devices, address: int) {
    exists config :: MappedTo(devices, address, config)
  }

  /** No address is mapped to two registers. */
  ghost predicate Unambiguous(devices: DeviceCache.Devices) {
    forall address, a, b | address >= 0 && MappedTo(devices, address, a) && MappedTo(devices, address, b) :: a == b
  }

  lemma ReflectedIsUnambiguous(db: Database, devices: DeviceCache.Devices)
    requires Constraints(db) && Reflects(db, devices)
    ensures Unambiguous(devices)
  {
    forall address, a, b | address >= 0 && MappedTo(devices, address, a) && MappedTo(devices, address, b)
      ensures a == b
    {
      var d, i :| Holds(devices, d, i) && devices[d].registers[i] == a;
      var e, j :| Holds(devices, e, j) && devices[e].registers[j] == b;
      LookupIsUnambiguous(db, devices, d, i, e, j);
    }
  }

  // No register the address is mapped to is read-only or on a device that is listed as disabled.
  ghost predicate WritableAt(devices: DeviceCache.Devices, address: int) {
    forall config | MappedTo(devices, address, config) ::
      !config.readOnly && (config.deviceId in devices ==> devices[config.deviceId].row.enabled)
  }

  function RequestFor(config: RegisterConfig, value: Word): WriteRequest {
    WriteRequest(config, [value], [], 3)
  }

  // The requests for one device, in the order of the addresses.
  ghost function Forwarded(devices: DeviceCache.Devices, start: int, values: seq<Word>,
                           device: int): seq<WriteRequest> {
    if values == [] then []
    else
      var n := |values| - 1;
      var before := Forwarded(devices, start, values[..n], device);
      if Mapped(devices, start + n) then
        var config :| MappedTo(devices, start + n, config);
        if config.deviceId == device then before + [RequestFor(config, values[n])] else before
      else before
  }

  // Address `start + k` is mapped to a register of this device.
  ghost predicate Targets(devices: DeviceCache.Devices, start: int, k: nat, device: int) {
    exists config :: MappedTo(devices, start + k, config) && config.deviceId == device
  }

  // The write of this value to the mapped register: one word, no coils, three retries.
  ghost predicate CarriesValue(devices: DeviceCache.Devices, address: int, value: Word, device: int,
                               req: WriteRequest)
  {
    && MappedTo(devices, address, req.config) && req.config.deviceId == device
    && req.rawValues == [value] && req.coilValues == [] && req.retryCount == 3
  }

  /** Request i is the write of value ks[i], where ks are, in order, all values whose address is mapped
      to the device. */
  ghost predicate WritesOf(devices: DeviceCache.Devices, start: int, values: seq<Word>, device: int, ks: seq<nat>,
                           reqs: seq<WriteRequest>)
  {
    && |reqs| == |ks|
    && (forall i, j | 0 <= i < j < |ks| :: ks[i] < ks[j])
    && (forall k: nat :: k in ks <==> k < |values| && Targets(devices, start, k, device))
    && (forall i | 0 <= i < |ks| ::
          ks[i] < |values| && CarriesValue(devices, start + ks[i], values[ks[i]], device, reqs[i]))
  }

  // What the queue of the device has grown by.
  ghost predicate GrownBy(devices: DeviceCache.Devices, start: int, values: seq<Word>, device: int,
                          was: seq<WriteRequest>, now: seq<WriteRequest>)
  {
    exists ks: seq<nat> ::
      |now| == |was| + |ks| && now[..|was|] == was && WritesOf(devices, start, values, device, ks, now[|was|..])
  }

  lemma {:induction false} ForwardedIsWrites(devices: DeviceCache.Devices, start: int, values: seq<Word>, device: int)
    returns (ks: seq<nat>)
    requires Unambiguous(devices) && start >= 0
    ensures WritesOf(devices, start, values, device, ks, Forwarded(devices, start, values, device))
    decreases |values|
  {
    hide MappedTo, Targets, CarriesValue, WritesOf;
    if values == [] {
      ks := [];
      NoWrites(devices, start, device);
    } else {
      var n := |values| - 1;
      ks := ForwardedIsWrites(devices, start, values[..n], device);
      var before := Forwarded(devices, start, values[..n], device);
      OneRequest(devices, start, values, device);
      if Targets(devices, start, n, device) {
        WriteAdded(devices, start, values, device, ks, before, Forwarded(devices, start, values, device)[|before|]);
        ks := ks + [n];
      } else {
        WriteSkipped(devices, start, values, device, ks, before);
      }
    }
  }

  lemma NoWrites(devices: DeviceCache.Devices, start: int, device: int)
    ensures WritesOf(devices, start, [], device, [], [])
  {
  }

  // The last value gives its request, or none.
  lemma OneRequest(devices: DeviceCache.Devices, start: int, values: seq<Word>, device: int)
    requires Unambiguous(devices) && start >= 0 && values != []
    ensures var n := |values| - 1;
            var before := Forwarded(devices, start, values[..n], device);
            var after := Forwarded(devices, start, values, device);
            if Targets(devices, start, n, device) then
              && |after| == |before| + 1 && after == before + [after[|before|]]
              && CarriesValue(devices, start + n, values[n], device, after[|before|])
            else after == before
  {
    hide MappedTo;
    var n := |values| - 1;
    if Targets(devices, start, n, device) {
      assert Mapped(devices, start + n);
    }
  }

  lemma WriteSkipped(devices: DeviceCache.Devices, start: int, values: seq<Word>, device: int, ks: seq<nat>,
                     reqs: seq<WriteRequest>)
    requires values != [] && WritesOf(devices, start, values[..|values| - 1], device, ks, reqs)
    requires !Targets(devices, start, |values| - 1, device)
    ensures WritesOf(devices, start, values, device, ks, reqs)
  {
    hide Targets, CarriesValue;
    forall i | 0 <= i < |ks|
      ensures ks[i] < |values| && CarriesValue(devices, start + ks[i], values[ks[i]], device, reqs[i])
    {
      assert values[..|values| - 1][ks[i]] == values[ks[i]];
    }
  }

  lemma WriteAdded(devices: DeviceCache.Devices, start: int, values: seq<Word>, device: int, ks: seq<nat>,
                   reqs: seq<WriteRequest>, req: WriteRequest)
    requires values != [] && WritesOf(devices, start, values[..|values| - 1], device, ks, reqs)
    requires Targets(devices, start, |values| - 1, device)
    requires CarriesValue(devices, start + |values| - 1, values[|values| - 1], device, req)
    ensures WritesOf(devices, start, values, device, ks + [|values| - 1], reqs + [req])
  {
    hide Targets, CarriesValue;
    var n := |values| - 1;
    var more: seq<nat>, all := ks + [n], reqs + [req];
    forall i | 0 <= i < |more|
      ensures more[i] < |values| && CarriesValue(devices, start + more[i], values[more[i]], device, all[i])
    {
      if i < |ks| {
        assert values[..n][ks[i]] == values[ks[i]];
      }
    }
    forall i, j | 0 <= i < j < |more|
      ensures more[i] < more[j]
    {
      assert ks[i] in ks;
    }
    forall k: nat
      ensures k in more <==> k < |values| && Targets(devices, start, k, device)
    {
      assert k in more <==> k in ks || k == n;
    }
  }

  lemma ForwardedStep(devices: DeviceCache.Devices, start: int, values: seq<Word>, n: nat, device: int,
                      config: Option<RegisterConfig>)
    requires Unambiguous(devices) && start >= 0 && n < |values| && FoundAt(devices, start, n, config)
    ensures Forwarded(devices, start, values[..n + 1], device)
         == if config.Some? && config.value.deviceId == device
            then Forwarded(devices, start, values[..n], device) + [RequestFor(config.value, values[n])]
            else Forwarded(devices, start, values[..n], device)
  {
    hide MappedTo;
    assert values[..n + 1][..n] == values[..n];
  }

  // The k-th addressed register may be written, or there is none.
  ghost predicate MayWrite(devices: DeviceCache.Devices, start: int, k: nat) {
    WritableAt(devices, start + k)
  }

  // What the first pass found at the k-th address.
  ghost predicate FoundAt(devices: DeviceCache.Devices, start: int, k: nat, config: Option<RegisterConfig>) {
    if config.Some? then MappedTo(devices, start + k, config.value) else !Mapped(devices, start + k)
  }

  // First pass: look every address up, stop at the first that must not be written.
  method CheckTargets(list: DeviceList, start: int, count: nat) returns (ok: bool, configs: seq<Option<RegisterConfig>>)
    requires start >= 0 && Unambiguous(list.devices)
    ensures ok <==> forall k | 0 <= k < count :: MayWrite(list.devices, start, k)
    ensures ok ==> |configs| == count && forall k | 0 <= k < count :: FoundAt(list.devices, start, k, configs[k])
  {
    hide Holds, Unambiguous;
    configs := [];
    var i := 0;
    while i < count
      invariant 0 <= i <= count && |configs| == i
      invariant forall k | 0 <= k < i :: MayWrite(list.devices, start, k)
      invariant forall k | 0 <= k < i :: FoundAt(list.devices, start, k, configs[k])
    {
      var found, config := list.FindByUnifiedAddress(start + i);
      if found {
        assert MappedTo(list.devices, start + i, config);
        if config.readOnly || !list.IsEnabled(config.deviceId) {
          assert !MayWrite(list.devices, start, i);
          return false, configs;
        }
        OnlyOne(list.devices, start + i, config);
        assert FoundAt(list.devices, start, i, Some(config));
        configs := configs + [Some(config)];
      } else {
        NoneThere(list.devices, start + i);
        assert FoundAt(list.devices, start, i, None);
        configs := configs + [None];
      }
      assert MayWrite(list.devices, start, i);
      i := i + 1;
    }
    ok := true;
  }

  lemma NoneThere(devices: DeviceCache.Devices, address: int)
    requires forall d, i | Holds(devices, d, i) :: devices[d].registers[i].unifiedAddress != address
    ensures !Mapped(devices, address) && WritableAt(devices, address)
  {
  }

  // The queue of a device holds what it held before and the requests of the first n addresses.
  ghost predicate Queued(devices: DeviceCache.Devices, was: Writes, writes: Writes, start: int, values: seq<Word>,
                         n: nat, device: int)
    requires n <= |values|
  {
    PendingIn(writes, device) == PendingIn(was, device) + Forwarded(devices, start, values[..n], device)
  }

  /** All or nothing: if any addressed register is read-only or on a disabled device nothing is
      queued; otherwise one request for each mapped address, in order, each on its device's queue.
      Addresses that are not mapped are ignored. */
  method ForwardWrite(list: DeviceList, start: int, values: seq<Word>) returns (ok: bool)
    requires start >= 0 && Unambiguous(list.devices)
    modifies list`writes
    ensures ok <==> forall k | 0 <= k < |values| :: MayWrite(list.devices, start, k)
    ensures !ok ==> list.writes == old(list.writes)
    ensures ok ==> forall device ::
              list.Pending(device) == old(list.Pending(device)) + Forwarded(list.devices, start, values, device)
    ensures ok ==> forall device ::
              GrownBy(list.devices, start, values, device, old(list.Pending(device)), list.Pending(device))
  {
    hide Forwarded, Unambiguous, FoundAt, GrownBy, MayWrite;
    var configs: seq<Option<RegisterConfig>>;
    ok, configs := CheckTargets(list, start, |values|);
    if !ok {
      return;
    }
    ghost var was := list.writes;
    var i := 0;
    assert values[..0] == [];
    forall device
      ensures Queued(list.devices, was, list.writes, start, values, 0, device)
    {
      NothingForwarded(list.devices, start, device);
    }
    while i < |values|
      invariant 0 <= i <= |values|
      invariant forall device :: Queued(list.devices, was, list.writes, start, values, i, device)
    {
      ghost var before := list.writes;
      if configs[i].Some? {
        list.EnqueueWrite(configs[i].value.deviceId, RequestFor(configs[i].value, values[i]));
      }
      i := i + 1;
      forall device
        ensures Queued(list.devices, was, list.writes, start, values, i, device)
      {
        assert Queued(list.devices, was, before, start, values, i - 1, device);
        assert list.Pending(device) == PendingIn(list.writes, device);
        ForwardedStep(list.devices, start, values, i - 1, device, configs[i - 1]);
      }
    }
    AllQueued(list.devices, was, list.writes, start, values);
  }

  lemma AllQueued(devices: DeviceCache.Devices, was: Writes, now: Writes, start: int, values: seq<Word>)
    requires Unambiguous(devices) && start >= 0
    requires forall device :: Queued(devices, was, now, start, values, |values|, device)
    ensures forall device ::
              PendingIn(now, device) == PendingIn(was, device) + Forwarded(devices, start, values, device)
    ensures forall device ::
              GrownBy(devices, start, values, device, PendingIn(was, device), PendingIn(now, device))
  {
    hide Forwarded, Unambiguous, GrownBy;
    assert values[..|values|] == values;
    forall device
      ensures PendingIn(now, device) == PendingIn(was, device) + Forwarded(devices, start, values, device)
      ensures GrownBy(devices, start, values, device, PendingIn(was, device), PendingIn(now, device))
    {
      assert Queued(devices, was, now, start, values, |values|, device);
      QueueGrown(devices, start, values, device, PendingIn(was, device));
    }
  }

  lemma QueueGrown(devices: DeviceCache.Devices, start: int, values: seq<Word>, device: int, was: seq<WriteRequest>)
    requires Unambiguous(devices) && start >= 0
    ensures GrownBy(devices, start, values, device, was, was + Forwarded(devices, start, values, device))
  {
    hide WritesOf, Forwarded, Unambiguous;
    var ks := ForwardedIsWrites(devices, start, values, device);
    var reqs := Forwarded(devices, start, values, device);
    SameLength(devices, start, values, device, ks, reqs);
    assert (was + reqs)[..|was|] == was && (was + reqs)[|was|..] == reqs;
  }

  lemma SameLength(devices: DeviceCache.Devices, start: int, values: seq<Word>, device: int, ks: seq<nat>,
                   reqs: seq<WriteRequest>)
    requires WritesOf(devices, start, values, device, ks, reqs)
    ensures |ks| == |reqs|
  {
  }

  lemma OnlyOne(devices: DeviceCache.Devices, address: int, config: RegisterConfig)
    requires Unambiguous(devices) && address >= 0 && MappedTo(devices, address, config)
    requires !config.readOnly && (config.deviceId in devices ==> devices[config.deviceId].row.enabled)
    ensures WritableAt(devices, address)
  {
  }

  lemma NothingForwarded(devices: DeviceCache.Devices, start: int, device: int)
    ensures Forwarded(devices, start, [], device) == []
  {
  }
}
