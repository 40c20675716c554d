/** A pass of the polling thread over real requests is a run of the queue: what holds for every
    interleaving of the queue holds for the passes that are made. */
module WriteRefinement {
  import opened DeviceModels
  import opened ModbusPdu
  import opened DeviceCache
  import opened WriteQueue
  import opened WriteFlush
  import opened ModbusClient

  // Requests with their tickets, as the queue sees them.
  function Tagged(reqs: seq<WriteRequest>, tickets: seq<nat>): (items: seq<Item>)
    requires |tickets| == |reqs|
    ensures |items| == |reqs|
  {
    seq(|reqs|, i requires 0 <= i < |reqs| => Item(tickets[i], reqs[i].retryCount))
  }

  // The next n tickets.
  function Fresh(next: nat, n: nat): (tickets: seq<nat>)
    ensures |tickets| == n
  {
    seq(n, i requires 0 <= i => next + i)
  }

  // What one request comes to when it is its turn.
  function TurnOutcome(before: PassResult, order: ByteOrder, addressed: bool, req: WriteRequest, m: Moment): Outcome {
    if addressed && m.line.Live? && Applied(before.slave, order, req).Some? then Outcome.Accepted
    else if m.line.Down? then Outcome.NotConnected
    else Outcome.Refused
  }

  function Enqueues(reqs: seq<WriteRequest>): (events: seq<Event>) {
    if reqs == [] then [] else Enqueues(reqs[..|reqs| - 1]) + [Enqueue(reqs[|reqs| - 1].retryCount)]
  }

  // The events of a pass over the first requests: before each attempt, what other threads enqueue.
  function PassEvents(s: Slave, order: ByteOrder, addressed: bool, reqs: seq<WriteRequest>,
                      moments: seq<Moment>): seq<Event>
    requires |moments| == |reqs|
  {
    if reqs == [] then []
    else
      var n := |reqs| - 1;
      PassEvents(s, order, addressed, reqs[..n], moments[..n])
      + Enqueues(moments[n].arrivals)
      + [Attempt(TurnOutcome(Pass(s, order, addressed, reqs[..n], moments[..n]),
                             order, addressed, reqs[n], moments[n]))]
  }

  datatype Fates = Fates(queued: seq<nat>, written: seq<nat>, dropped: seq<nat>, next: nat)

  // Where the ticket of one request, and of what arrives before it, ends up.
  function FateOf(before: Fates, outcome: Outcome, req: WriteRequest, ticket: nat, arrived: nat): Fates {
    var f := before.(queued := before.queued + Fresh(before.next, arrived), next := before.next + arrived);
    match outcome
    case Accepted => f.(written := f.written + [ticket])
    case NotConnected => f.(dropped := f.dropped + [ticket])
    case Refused =>
      if req.retryCount > 0 then f.(queued := f.queued + [ticket]) else f.(dropped := f.dropped + [ticket])
  }

  function FatesOf(s: Slave, order: ByteOrder, addressed: bool, reqs: seq<WriteRequest>, moments: seq<Moment>,
                   tickets: seq<nat>, next: nat): (f: Fates)
    requires |tickets| == |reqs| == |moments|
    ensures var r := Pass(s, order, addressed, reqs, moments);
            |f.queued| == |r.queued| && |f.written| == |r.written| && |f.dropped| == |r.dropped|
  {
    if reqs == [] then Fates([], [], [], next)
    else
      var n := |reqs| - 1;
      var before := Pass(s, order, addressed, reqs[..n], moments[..n]);
      FateOf(FatesOf(s, order, addressed, reqs[..n], moments[..n], tickets[..n], next),
             TurnOutcome(before, order, addressed, reqs[n], moments[n]), reqs[n], tickets[n], |moments[n].arrivals|)
  }

  lemma {:induction false} AfterAllSplits(q: Queue, a: seq<Event>, b: seq<Event>)
    ensures AfterAll(q, a + b) == AfterAll(AfterAll(q, a), b)
    decreases |b|
  {
    hide After;
    if b == [] {
      assert a + b == a;
    } else {
      AfterAllSplits(q, a, b[..|b| - 1]);
      AfterAllAppends(q, a + b[..|b| - 1], b[|b| - 1]);
      assert a + b == a + b[..|b| - 1] + [b[|b| - 1]];
    }
  }

  lemma TaggedJoins(a: seq<WriteRequest>, s: seq<nat>, b: seq<WriteRequest>, t: seq<nat>)
    requires |s| == |a| && |t| == |b|
    ensures Tagged(a + b, s + t) == Tagged(a, s) + Tagged(b, t)
  {
  }

  lemma {:induction false} AllEnqueued(q: Queue, reqs: seq<WriteRequest>)
    ensures var q' := AfterAll(q, Enqueues(reqs));
            && q'.next == q.next + |reqs| && q'.queued == q.queued + Tagged(reqs, Fresh(q.next, |reqs|))
            && q'.taken == q.taken && q'.written == q.written && q'.dropped == q.dropped
    decreases |reqs|
  {
    if reqs != [] {
      var n := |reqs| - 1;
      AllEnqueued(q, reqs[..n]);
      AfterAllAppends(q, Enqueues(reqs[..n]), Enqueue(reqs[n].retryCount));
      assert Tagged(reqs, Fresh(q.next, n + 1))
          == Tagged(reqs[..n], Fresh(q.next, n)) + [Item(q.next + n, reqs[n].retryCount)];
    }
  }

  lemma QueuedJoins(front: seq<Item>, a: seq<WriteRequest>, s: seq<nat>, b: seq<WriteRequest>, t: seq<nat>)
    requires |s| == |a| && |t| == |b|
    ensures front + Tagged(a + b, s + t) == front + Tagged(a, s) + Tagged(b, t)
  {
    hide Tagged;
    TaggedJoins(a, s, b, t);
  }

  // The queue when the pass has got so far, with these requests still to come.
  predicate Follows(q: Queue, q': Queue, r: PassResult, f: Fates, reqs: seq<WriteRequest>, tickets: seq<nat>)
    requires |tickets| == |reqs|
  {
    && |f.queued| == |r.queued|
    && q'.taken == Tagged(reqs, tickets)
    && q'.queued == q.queued + Tagged(r.queued, f.queued)
    && q'.written == q.written + f.written
    && q'.dropped == q.dropped + f.dropped
    && q'.next == f.next
  }

  lemma TurnArrives(q: Queue, q': Queue, r: PassResult, f: Fates, reqs: seq<WriteRequest>, tickets: seq<nat>,
                    arrivals: seq<WriteRequest>)
    requires |tickets| == |reqs| && Follows(q, q', r, f, reqs, tickets)
    ensures Follows(q, AfterAll(q', Enqueues(arrivals)), r.(queued := r.queued + arrivals),
                    f.(queued := f.queued + Fresh(f.next, |arrivals|), next := f.next + |arrivals|), reqs, tickets)
  {
    hide Tagged, Fresh, AfterAll, Enqueues;
    AllEnqueued(q', arrivals);
    QueuedJoins(q.queued, r.queued, f.queued, arrivals, Fresh(f.next, |arrivals|));
  }

  lemma AttemptFollows(q: Queue, q': Queue, r: PassResult, f: Fates, reqs: seq<WriteRequest>, tickets: seq<nat>,
                       order: ByteOrder, addressed: bool, line: Line)
    requires |tickets| == |reqs| && reqs != [] && Follows(q, q', r, f, reqs, tickets)
    ensures var m := Moment(line, []);
            var o := TurnOutcome(r, order, addressed, reqs[0], m);
            Follows(q, After(q', Attempt(o)), Tried(r, order, addressed, reqs[0], m),
                    FateOf(f, o, reqs[0], tickets[0], 0), reqs[1..], tickets[1..])
  {
    hide Applied, Tagged;
    HeadOfTagged(reqs, tickets);
    var again := reqs[0].(retryCount := reqs[0].retryCount - 1);
    TaggedJoins(r.queued, f.queued, [again], [tickets[0]]);
    TaggedOne(again, tickets[0]);
    assert r.queued + [] == r.queued && f.queued + Fresh(f.next, 0) == f.queued;
  }

  // A turn is what arrives and then the attempt.
  lemma TurnInTwo(r: PassResult, f: Fates, order: ByteOrder, addressed: bool, req: WriteRequest, ticket: nat, m: Moment)
    ensures var r' := r.(queued := r.queued + m.arrivals);
            var f' := f.(queued := f.queued + Fresh(f.next, |m.arrivals|), next := f.next + |m.arrivals|);
            var o := TurnOutcome(r, order, addressed, req, m);
            && o == TurnOutcome(r', order, addressed, req, Moment(m.line, []))
            && Tried(r', order, addressed, req, Moment(m.line, [])) == Tried(r, order, addressed, req, m)
            && FateOf(f', o, req, ticket, 0) == FateOf(f, o, req, ticket, |m.arrivals|)
  {
    hide Applied;
    var f' := f.(queued := f.queued + Fresh(f.next, |m.arrivals|), next := f.next + |m.arrivals|);
    assert r.queued + m.arrivals + [] == r.queued + m.arrivals && f'.queued + Fresh(f'.next, 0) == f'.queued;
  }

  lemma TurnFollows(q: Queue, q': Queue, r: PassResult, f: Fates, reqs: seq<WriteRequest>, tickets: seq<nat>,
                    order: ByteOrder, addressed: bool, m: Moment)
    requires |tickets| == |reqs| && reqs != [] && Follows(q, q', r, f, reqs, tickets)
    ensures var o := TurnOutcome(r, order, addressed, reqs[0], m);
            Follows(q, After(AfterAll(q', Enqueues(m.arrivals)), Attempt(o)), Tried(r, order, addressed, reqs[0], m),
                    FateOf(f, o, reqs[0], tickets[0], |m.arrivals|), reqs[1..], tickets[1..])
  {
    hide Applied, Tagged, Fresh, Follows, FateOf, Tried, TurnOutcome, After, AfterAll;
    TurnArrives(q, q', r, f, reqs, tickets, m.arrivals);
    TurnInTwo(r, f, order, addressed, reqs[0], tickets[0], m);
    AttemptFollows(q, AfterAll(q', Enqueues(m.arrivals)), r.(queued := r.queued + m.arrivals),
                   f.(queued := f.queued + Fresh(f.next, |m.arrivals|), next := f.next + |m.arrivals|),
                   reqs, tickets, order, addressed, m.line);
  }

  lemma TaggedOne(req: WriteRequest, ticket: nat)
    ensures Tagged([req], [ticket]) == [Item(ticket, req.retryCount)]
  {
  }

  lemma HeadOfTagged(reqs: seq<WriteRequest>, tickets: seq<nat>)
    requires |tickets| == |reqs| && reqs != []
    ensures Tagged(reqs, tickets) != []
    ensures Tagged(reqs, tickets)[0] == Item(tickets[0], reqs[0].retryCount)
    ensures Tagged(reqs, tickets)[1..] == Tagged(reqs[1..], tickets[1..])
  {
  }

  lemma {:induction false} PrefixIsRun(q: Queue, s: Slave, order: ByteOrder, addressed: bool,
                                       reqs: seq<WriteRequest>, moments: seq<Moment>, tickets: seq<nat>, k: nat)
    requires |tickets| == |reqs| == |moments| && k <= |reqs| && q.taken == Tagged(reqs, tickets)
    ensures Follows(q, AfterAll(q, PassEvents(s, order, addressed, reqs[..k], moments[..k])),
                    Pass(s, order, addressed, reqs[..k], moments[..k]),
                    FatesOf(s, order, addressed, reqs[..k], moments[..k], tickets[..k], q.next),
                    reqs[k..], tickets[k..])
    decreases k
  {
    if k == 0 {
      assert reqs[0..] == reqs && tickets[0..] == tickets;
    } else {
      hide Follows, Tagged, Tried, After, AfterAll, Enqueues, TurnOutcome, FateOf;
      var n := k - 1;
      PrefixIsRun(q, s, order, addressed, reqs, moments, tickets, n);
      assert reqs[..k][..n] == reqs[..n] && moments[..k][..n] == moments[..n] && tickets[..k][..n] == tickets[..n];
      assert reqs[n..][1..] == reqs[k..] && tickets[n..][1..] == tickets[k..];
      var before := Pass(s, order, addressed, reqs[..n], moments[..n]);
      var done := AfterAll(q, PassEvents(s, order, addressed, reqs[..n], moments[..n]));
      TurnFollows(q, done, before, FatesOf(s, order, addressed, reqs[..n], moments[..n], tickets[..n], q.next),
                  reqs[n..], tickets[n..], order, addressed, moments[n]);
      AfterAllSplits(q, PassEvents(s, order, addressed, reqs[..n], moments[..n]), Enqueues(moments[n].arrivals));
      AfterAllAppends(q, PassEvents(s, order, addressed, reqs[..n], moments[..n]) + Enqueues(moments[n].arrivals),
                      Attempt(TurnOutcome(before, order, addressed, reqs[n], moments[n])));
    }
  }

  /** Taking the queue and making a pass, connected or not at each request and with others enqueuing
      meanwhile, leaves the queue with exactly the requests that wait, in order, and the written and
      dropped ones on record. */
  lemma PassIsRun(q: Queue, s: Slave, order: ByteOrder, addressed: bool, reqs: seq<WriteRequest>,
                  moments: seq<Moment>, tickets: seq<nat>)
    requires |tickets| == |reqs| == |moments| && q.taken == [] && q.queued == Tagged(reqs, tickets)
    ensures var q' := AfterAll(After(q, Take), PassEvents(s, order, addressed, reqs, moments));
            var r, f := Pass(s, order, addressed, reqs, moments),
                        FatesOf(s, order, addressed, reqs, moments, tickets, q.next);
            && q'.taken == [] && q'.queued == Tagged(r.queued, f.queued)
            && q'.written == q.written + f.written && q'.dropped == q.dropped + f.dropped
            && q'.next == q.next + |Arrivals(moments)|
  {
    PrefixIsRun(After(q, Take), s, order, addressed, reqs, moments, tickets, |reqs|);
    assert reqs[..|reqs|] == reqs && tickets[..|tickets|] == tickets && moments[..|moments|] == moments;
    assert q.queued + [] == q.queued;
    NextAfterPass(s, order, addressed, reqs, moments, tickets, q.next);
  }

  lemma {:induction false} NextAfterPass(s: Slave, order: ByteOrder, addressed: bool, reqs: seq<WriteRequest>,
                                         moments: seq<Moment>, tickets: seq<nat>, next: nat)
    requires |tickets| == |reqs| == |moments|
    ensures FatesOf(s, order, addressed, reqs, moments, tickets, next).next == next + |Arrivals(moments)|
    decreases |reqs|
  {
    if reqs != [] {
      NextAfterPass(s, order, addressed, reqs[..|reqs| - 1], moments[..|reqs| - 1], tickets[..|reqs| - 1], next);
    }
  }
}
