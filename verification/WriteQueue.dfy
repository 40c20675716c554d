/** The write queue of one device: requests enqueued by other threads at any moment, passes of the
    polling thread that take the whole queue and try each request, bounded retries. */
module WriteQueue {

  // A request, told apart by a ticket; `retries` is what is left.
  datatype Item = Item(ticket: nat, retries: int)

  datatype Outcome =
    | NotConnected   // the device cannot be reached: the request is dropped without an attempt
    | Refused        // the write was tried and failed
    | Accepted

  datatype Queue = Queue(
    next: nat,                    // tickets handed out so far
    allowed: map<nat, int>,       // the retry count each request came with
    attempts: map<nat, nat>,      // how often it has been tried
    queued: seq<Item>,
    taken: seq<Item>,             // the rest of the current pass
    written: seq<nat>,            // in the order they were carried out
    dropped: seq<nat>)

  datatype Event =
    | Enqueue(retries: int)
    | Take
    | Attempt(outcome: Outcome)
    | Clear                       // the list of devices is loaded anew

  function Tickets(items: seq<Item>): (t: seq<nat>)
    ensures |t| == |items|
    ensures forall i | 0 <= i < |items| :: t[i] == items[i].ticket
  {
    if items == [] then [] else Tickets(items[..|items| - 1]) + [items[|items| - 1].ticket]
  }

  // One request tried: what becomes of it.
  function Attempted(q: Queue, outcome: Outcome): Queue
    requires q.taken != []
  {
    var item := q.taken[0];
    var rest := q.(taken := q.taken[1..]);
    var tries := if item.ticket in q.attempts then q.attempts[item.ticket] + 1 else 1;
    match outcome
    case NotConnected => rest.(dropped := q.dropped + [item.ticket])
    case Accepted => rest.(written := q.written + [item.ticket], attempts := q.attempts[item.ticket := tries])
    case Refused =>
      if item.retries > 0 then
        rest.(queued := q.queued + [Item(item.ticket, item.retries - 1)], attempts := q.attempts[item.ticket := tries])
      else
        rest.(dropped := q.dropped + [item.ticket], attempts := q.attempts[item.ticket := tries])
  }

  // A pass starts only when the previous one is over; an attempt needs something taken.
  function After(q: Queue, e: Event): Queue {
    match e
    case Enqueue(retries) =>
      q.(next := q.next + 1, allowed := q.allowed[q.next := retries], attempts := q.attempts[q.next := 0],
         queued := q.queued + [Item(q.next, retries)])
    case Take => if q.taken != [] then q else q.(taken := q.queued, queued := [])
    case Attempt(outcome) => if q.taken == [] then q else Attempted(q, outcome)
    case Clear => q.(queued := [], dropped := q.dropped + Tickets(q.queued))
  }

  function AfterAll(q: Queue, events: seq<Event>): Queue {
    if events == [] then q else After(AfterAll(q, events[..|events| - 1]), events[|events| - 1])
  }

  const EMPTY: Queue := Queue(0, map[], map[], [], [], [], [])

  lemma AfterAllAppends(q: Queue, events: seq<Event>, e: Event)
    ensures AfterAll(q, events + [e]) == After(AfterAll(q, events), e)
  {
    assert (events + [e])[..|events|] == events;
  }

  // ---------------------------------------------------------------- conservation

  function Count(s: seq<nat>, t: nat): nat {
    if s == [] then 0 else Count(s[..|s| - 1], t) + if s[|s| - 1] == t then 1 else 0
  }

  // In how many places a request is, with repetition.
  function Places(q: Queue, t: nat): nat {
    Count(Tickets(q.queued), t) + Count(Tickets(q.taken), t) + Count(q.written, t) + Count(q.dropped, t)
  }

  /** Each accepted request is in exactly one place: queued, in the current pass, written or
      dropped; and nothing else is anywhere. */
  ghost predicate Conserved(q: Queue) {
    forall t: nat :: Places(q, t) == if t < q.next then 1 else 0
  }

  lemma {:induction false} CountConcat(a: seq<nat>, b: seq<nat>, t: nat)
    ensures Count(a + b, t) == Count(a, t) + Count(b, t)
    decreases |b|
  {
    if b == [] {
      assert a + b == a;
    } else {
      CountConcat(a, b[..|b| - 1], t);
      assert (a + b)[..|a + b| - 1] == a + b[..|b| - 1];
    }
  }

  lemma CountAppend(a: seq<nat>, x: nat, t: nat)
    ensures Count(a + [x], t) == Count(a, t) + if x == t then 1 else 0
  {
    assert (a + [x])[..|a|] == a;
  }

  lemma TicketsAppend(a: seq<Item>, item: Item)
    ensures Tickets(a + [item]) == Tickets(a) + [item.ticket]
  {
    assert (a + [item])[..|a|] == a;
  }

  lemma CountHead(a: seq<Item>, t: nat)
    requires a != []
    ensures Count(Tickets(a), t) == Count(Tickets(a[1..]), t) + if a[0].ticket == t then 1 else 0
  {
    assert Tickets(a) == [a[0].ticket] + Tickets(a[1..]);
    CountConcat([a[0].ticket], Tickets(a[1..]), t);
    CountAppend([], a[0].ticket, t);
    assert [] + [a[0].ticket] == [a[0].ticket];
  }

  lemma AttemptConserves(q: Queue, outcome: Outcome, t: nat)
    requires q.taken != []
    ensures Places(Attempted(q, outcome), t) == Places(q, t)
  {
    hide Count, Tickets;
    var item := q.taken[0];
    CountHead(q.taken, t);
    TicketsAppend(q.queued, Item(item.ticket, item.retries - 1));
    CountAppend(Tickets(q.queued), item.ticket, t);
    CountAppend(q.written, item.ticket, t);
    CountAppend(q.dropped, item.ticket, t);
  }

  lemma StepPlaces(q: Queue, e: Event, t: nat)
    ensures Places(After(q, e), t) == Places(q, t) + if e.Enqueue? && t == q.next then 1 else 0
  {
    hide Attempted;
    match e
    case Enqueue(retries) =>
      TicketsAppend(q.queued, Item(q.next, retries));
      CountAppend(Tickets(q.queued), q.next, t);
    case Take =>
    case Attempt(outcome) =>
      if q.taken != [] {
        AttemptConserves(q, outcome, t);
      }
    case Clear =>
      CountConcat(q.dropped, Tickets(q.queued), t);
  }

  lemma StepConserves(q: Queue, e: Event)
    requires Conserved(q)
    ensures Conserved(After(q, e))
  {
    hide Places;
    forall t: nat
      ensures Places(After(q, e), t) == if t < After(q, e).next then 1 else 0
    {
      StepPlaces(q, e, t);
    }
  }

  /** In every interleaving of enqueues, passes and reloads. */
  lemma {:induction false} RunsConserve(events: seq<Event>)
    ensures Conserved(AfterAll(EMPTY, events))
    decreases |events|
  {
    if events != [] {
      RunsConserve(events[..|events| - 1]);
      StepConserves(AfterAll(EMPTY, events[..|events| - 1]), events[|events| - 1]);
    }
  }

  // ---------------------------------------------------------------- bounded retries

  function AtLeastZero(n: int): nat {
    if n > 0 then n else 0
  }

  // A waiting request has used up exactly the retries it no longer has.
  predicate WaitingOk(q: Queue, item: Item) {
    && item.ticket in q.allowed && item.ticket in q.attempts && item.ticket < q.next
    && q.attempts[item.ticket] + item.retries == q.allowed[item.ticket]
    && (q.attempts[item.ticket] > 0 ==> item.retries >= 0)
  }

  predicate CountOk(q: Queue, t: nat) {
    t in q.attempts && t in q.allowed && q.attempts[t] <= AtLeastZero(q.allowed[t]) + 1
  }

  ghost predicate Bounded(q: Queue) {
    && (forall i | 0 <= i < |q.queued| :: WaitingOk(q, q.queued[i]))
    && (forall i | 0 <= i < |q.taken| :: WaitingOk(q, q.taken[i]))
    && (forall t: nat | t < q.next :: CountOk(q, t))
  }

  ghost predicate OnceWaiting(q: Queue) {
    && (forall i, j | 0 <= i < j < |q.queued| :: q.queued[i].ticket != q.queued[j].ticket)
    && (forall i, j | 0 <= i < j < |q.taken| :: q.taken[i].ticket != q.taken[j].ticket)
    && (forall i, j | 0 <= i < |q.queued| && 0 <= j < |q.taken| :: q.queued[i].ticket != q.taken[j].ticket)
  }

  lemma {:induction false} CountOfMember(s: seq<nat>, i: nat)
    requires i < |s|
    ensures Count(s, s[i]) >= 1
    decreases |s|
  {
    if i < |s| - 1 {
      CountOfMember(s[..|s| - 1], i);
    }
  }

  lemma CountedOnce(s: seq<nat>, i: nat, j: nat)
    requires i < j < |s| && Count(s, s[i]) <= 1
    ensures s[i] != s[j]
  {
    assert s == s[..j] + s[j..];
    CountConcat(s[..j], s[j..], s[i]);
    CountOfMember(s[..j], i);
    CountOfMember(s[j..], 0);
  }

  lemma ConservedOnceWaiting(q: Queue)
    requires Conserved(q)
    ensures OnceWaiting(q)
  {
    hide Count, Tickets;
    var a, b := Tickets(q.queued), Tickets(q.taken);
    forall i, j | 0 <= i < j < |q.queued|
      ensures q.queued[i].ticket != q.queued[j].ticket
    {
      assert Places(q, a[i]) <= 1;
      CountedOnce(a, i, j);
    }
    forall i, j | 0 <= i < j < |q.taken|
      ensures q.taken[i].ticket != q.taken[j].ticket
    {
      assert Places(q, b[i]) <= 1;
      CountedOnce(b, i, j);
    }
    forall i, j | 0 <= i < |q.queued| && 0 <= j < |q.taken|
      ensures q.queued[i].ticket != q.taken[j].ticket
    {
      assert Places(q, a[i]) <= 1;
      CountOfMember(a, i);
      CountOfMember(b, j);
    }
  }

  lemma AttemptBounded(q: Queue, outcome: Outcome)
    requires Bounded(q) && OnceWaiting(q) && q.taken != []
    ensures Bounded(Attempted(q, outcome))
  {
    var q', item := Attempted(q, outcome), q.taken[0];
    assert WaitingOk(q, item);
    forall i | 0 <= i < |q'.taken|
      ensures WaitingOk(q', q'.taken[i])
    {
      assert WaitingOk(q, q.taken[i + 1]) && q.taken[0].ticket != q.taken[i + 1].ticket;
    }
    forall i | 0 <= i < |q'.queued|
      ensures WaitingOk(q', q'.queued[i])
    {
      if i < |q.queued| {
        assert WaitingOk(q, q.queued[i]) && q.queued[i].ticket != q.taken[0].ticket;
      }
    }
    forall t: nat | t < q'.next
      ensures CountOk(q', t)
    {
      assert CountOk(q, t);
    }
  }

  lemma StepBounded(q: Queue, e: Event)
    requires Conserved(q) && Bounded(q)
    ensures Bounded(After(q, e))
  {
    hide Conserved, OnceWaiting;
    ConservedOnceWaiting(q);
    match e
    case Enqueue(retries) =>
      var q' := After(q, e);
      forall i | 0 <= i < |q'.queued|
        ensures WaitingOk(q', q'.queued[i])
      {
        if i < |q.queued| {
          assert WaitingOk(q, q.queued[i]);
        }
      }
      forall i | 0 <= i < |q'.taken|
        ensures WaitingOk(q', q'.taken[i])
      {
        assert WaitingOk(q, q.taken[i]);
      }
      forall t: nat | t < q'.next
        ensures CountOk(q', t)
      {
        assert t < q.next ==> CountOk(q, t);
      }
    case Take =>
      UnchangedCounts(q, After(q, e));
    case Attempt(outcome) =>
      if q.taken != [] {
        AttemptBounded(q, outcome);
      }
    case Clear =>
      UnchangedCounts(q, After(q, e));
  }

  lemma UnchangedCounts(q: Queue, q': Queue)
    requires Bounded(q)
    requires q'.next == q.next && q'.allowed == q.allowed && q'.attempts == q.attempts
    requires forall i | 0 <= i < |q'.queued| :: q'.queued[i] in q.queued || q'.queued[i] in q.taken
    requires forall i | 0 <= i < |q'.taken| :: q'.taken[i] in q.queued || q'.taken[i] in q.taken
    ensures Bounded(q')
  {
    forall item | item in q.queued || item in q.taken
      ensures WaitingOk(q', item)
    {
      assert WaitingOk(q, item);
    }
    forall t: nat | t < q'.next
      ensures CountOk(q', t)
    {
      assert CountOk(q, t);
    }
  }

  lemma {:induction false} RunsBounded(events: seq<Event>)
    ensures Bounded(AfterAll(EMPTY, events))
    decreases |events|
  {
    hide Bounded;
    if events == [] {
      EmptyIsBounded();
    } else {
      RunsBounded(events[..|events| - 1]);
      RunsConserve(events[..|events| - 1]);
      StepBounded(AfterAll(EMPTY, events[..|events| - 1]), events[|events| - 1]);
    }
  }

  lemma EmptyIsBounded()
    ensures Bounded(EMPTY)
  {
  }

  /** No request is ever tried more than once more than its retry count. */
  lemma AttemptsBounded(events: seq<Event>, t: nat)
    requires t < AfterAll(EMPTY, events).next
    ensures var q := AfterAll(EMPTY, events);
            t in q.attempts && t in q.allowed && q.attempts[t] <= AtLeastZero(q.allowed[t]) + 1
  {
    RunsBounded(events);
    assert CountOk(AfterAll(EMPTY, events), t);
  }

  // ---------------------------------------------------------------- the queue drains

  function Weight(items: seq<Item>): nat {
    if items == [] then 0
    else Weight(items[..|items| - 1]) + AtLeastZero(items[|items| - 1].retries) + 1
  }

  // What attempts are still possible without new requests.
  function Remaining(q: Queue): nat {
    Weight(q.queued) + Weight(q.taken)
  }

  lemma {:induction false} WeightSplits(a: seq<Item>, b: seq<Item>)
    ensures Weight(a + b) == Weight(a) + Weight(b)
    decreases |b|
  {
    if b == [] {
      assert a + b == a;
    } else {
      WeightSplits(a, b[..|b| - 1]);
      assert (a + b)[..|a + b| - 1] == a + b[..|b| - 1];
    }
  }

  lemma WeightOfOne(item: Item)
    ensures Weight([item]) == AtLeastZero(item.retries) + 1
  {
    assert [item][..0] == [];
  }

  /** Every attempt brings the end nearer; taking the queue does not put it off. */
  lemma AttemptProgress(q: Queue, outcome: Outcome)
    requires q.taken != []
    ensures Remaining(Attempted(q, outcome)) < Remaining(q)
  {
    var item := q.taken[0];
    assert q.taken == [item] + q.taken[1..];
    WeightSplits([item], q.taken[1..]);
    WeightOfOne(item);
    WeightSplits(q.queued, [Item(item.ticket, item.retries - 1)]);
    WeightOfOne(Item(item.ticket, item.retries - 1));
  }

  // How many attempts a run really makes.
  function AttemptsMade(q: Queue, events: seq<Event>): nat {
    if events == [] then 0
    else
      var before := AfterAll(q, events[..|events| - 1]);
      AttemptsMade(q, events[..|events| - 1])
      + if events[|events| - 1].Attempt? && before.taken != [] then 1 else 0
  }

  /** Without new requests a run makes no more attempts than the weight of what is waiting. */
  lemma {:induction false} RunsDrain(q: Queue, events: seq<Event>)
    requires forall i | 0 <= i < |events| :: !events[i].Enqueue?
    ensures AttemptsMade(q, events) + Remaining(AfterAll(q, events)) <= Remaining(q)
    decreases |events|
  {
    if events != [] {
      var init, e := events[..|events| - 1], events[|events| - 1];
      RunsDrain(q, init);
      var before := AfterAll(q, init);
      if e.Attempt? && before.taken != [] {
        AttemptProgress(before, e.outcome);
      }
    }
  }

  lemma NothingRemains(q: Queue)
    ensures Remaining(q) == 0 <==> q.queued == [] && q.taken == []
  {
  }

  /** Nothing waits any more after as many attempts as the weight of what was waiting. */
  lemma DrainedAfter(q: Queue, events: seq<Event>)
    requires forall i | 0 <= i < |events| :: !events[i].Enqueue?
    requires AttemptsMade(q, events) >= Remaining(q)
    ensures AfterAll(q, events).queued == [] && AfterAll(q, events).taken == []
  {
    RunsDrain(q, events);
    NothingRemains(AfterAll(q, events));
  }

  // ---------------------------------------------------------------- order

  // The requests in the order they were carried out and, as things stand, will be.
  function Line(q: Queue): seq<nat> {
    q.written + Tickets(q.taken) + Tickets(q.queued)
  }

  ghost predicate Ascending(s: seq<nat>) {
    forall i, j | 0 <= i < j < |s| :: s[i] < s[j]
  }

  // Requests are carried out in the order they were enqueued.
  ghost predicate InOrder(q: Queue) {
    Ascending(Line(q)) && forall i | 0 <= i < |Line(q)| :: Line(q)[i] < q.next
  }

  // A refused request with retries left goes behind the others that wait.
  predicate PutsBehind(q: Queue, e: Event) {
    e == Attempt(Refused) && q.taken != [] && q.taken[0].retries > 0 && |q.taken| + |q.queued| > 1
  }

  lemma LineMoves(q: Queue, e: Event)
    ensures e.Enqueue? ==> Line(After(q, e)) == Line(q) + [q.next]
    ensures !e.Attempt? ==> After(q, e).next == if e.Enqueue? then q.next + 1 else q.next
    ensures e.Take? ==> Line(After(q, e)) == Line(q)
    ensures e.Clear? ==> Line(After(q, e)) == Line(q)[..|q.written| + |q.taken|]
  {
    match e
    case Enqueue(retries) => TicketsAppend(q.queued, Item(q.next, retries));
    case _ =>
  }

  lemma TicketsHead(items: seq<Item>)
    requires items != []
    ensures Tickets(items) == [items[0].ticket] + Tickets(items[1..])
  {
  }

  // The line before an attempt, and the four things an attempt does to it.
  lemma LineAttempted(q: Queue, outcome: Outcome)
    requires q.taken != []
    ensures var q', item, rest := Attempted(q, outcome), q.taken[0], Tickets(q.taken[1..]) + Tickets(q.queued);
            && Line(q) == q.written + [item.ticket] + rest
            && Line(q') == match outcome
               case Accepted => Line(q)
               case NotConnected => q.written + rest
               case Refused => if item.retries > 0 then q.written + rest + [item.ticket] else q.written + rest
  {
    hide Tickets;
    TicketsHead(q.taken);
    TicketsAppend(q.queued, Item(q.taken[0].ticket, q.taken[0].retries - 1));
  }

  lemma OneLeftOut(a: seq<nat>, x: nat, b: seq<nat>)
    requires Ascending(a + [x] + b)
    ensures Ascending(a + b)
  {
    forall i, j | 0 <= i < j < |a + b|
      ensures (a + b)[i] < (a + b)[j]
    {
      var s := a + [x] + b;
      assert s[if i < |a| then i else i + 1] < s[if j < |a| then j else j + 1];
    }
  }

  lemma MovedToTheEnd(a: seq<nat>, x: nat, b: seq<nat>)
    requires Ascending(a + [x] + b)
    ensures Ascending(a + b + [x]) <==> b == []
  {
    if b == [] {
      assert a + b + [x] == a + [x] + b;
    } else {
      assert (a + [x] + b)[|a|] < (a + [x] + b)[|a| + 1];
      assert (a + b + [x])[|a|] > (a + b + [x])[|a + b|];
    }
  }

  lemma AttemptOrder(q: Queue, outcome: Outcome)
    requires InOrder(q) && q.taken != []
    ensures InOrder(Attempted(q, outcome)) <==> !PutsBehind(q, Attempt(outcome))
  {
    hide Tickets, Attempted, Ascending;
    var item, rest := q.taken[0], Tickets(q.taken[1..]) + Tickets(q.queued);
    LineAttempted(q, outcome);
    OneLeftOut(q.written, item.ticket, rest);
    MovedToTheEnd(q.written, item.ticket, rest);
    assert Attempted(q, outcome).next == q.next by {
      NextKept(q, outcome);
    }
    forall i | 0 <= i < |Line(Attempted(q, outcome))|
      ensures Line(Attempted(q, outcome))[i] < q.next
    {
      assert Line(Attempted(q, outcome))[i] in Line(q);
    }
  }

  lemma NextKept(q: Queue, outcome: Outcome)
    requires q.taken != []
    ensures Attempted(q, outcome).next == q.next
  {
  }

  /** A step keeps the order exactly when it does not put a refused request behind another. */
  lemma StepOrder(q: Queue, e: Event)
    requires InOrder(q)
    ensures InOrder(After(q, e)) <==> !PutsBehind(q, e)
  {
    if e.Attempt? {
      if q.taken != [] {
        AttemptOrder(q, e.outcome);
      }
    } else {
      hide Tickets, After, Line;
      LineMoves(q, e);
    }
  }

  // The order holds at every moment of the run.
  ghost predicate OrderedThroughout(events: seq<Event>) {
    && InOrder(AfterAll(EMPTY, events))
    && (events != [] ==> OrderedThroughout(events[..|events| - 1]))
  }

  // No step of the run puts a refused request behind another.
  ghost predicate NeverPutsBehind(events: seq<Event>) {
    events != [] ==>
      var init := events[..|events| - 1];
      NeverPutsBehind(init) && !PutsBehind(AfterAll(EMPTY, init), events[|events| - 1])
  }

  /** Over every run: the order holds at every moment exactly when no step puts a refused request
      behind another, and then the requests written are ascending. */
  lemma {:induction false} RunsInOrder(events: seq<Event>)
    ensures OrderedThroughout(events) <==> NeverPutsBehind(events)
    ensures NeverPutsBehind(events) ==> Ascending(AfterAll(EMPTY, events).written)
    decreases |events|
  {
    hide InOrder, PutsBehind, After, Ascending;
    if events == [] {
      EmptyInOrder();
    } else {
      var init := events[..|events| - 1];
      RunsInOrder(init);
      if InOrder(AfterAll(EMPTY, init)) {
        StepOrder(AfterAll(EMPTY, init), events[|events| - 1]);
      }
    }
    if InOrder(AfterAll(EMPTY, events)) {
      WrittenAscends(AfterAll(EMPTY, events));
    }
  }

  lemma EmptyInOrder()
    ensures InOrder(EMPTY)
  {
  }

  lemma WrittenAscends(q: Queue)
    requires InOrder(q)
    ensures Ascending(q.written)
  {
    assert Line(q)[..|q.written|] == q.written;
  }

  /** Retries go to the end of the queue, so a later request can be carried out before an earlier
      one: two requests in order, the first refused once. */
  lemma RetryIsOvertaken(q: Queue, first: Item, second: Item)
    requires q.queued == [first, second] && q.taken == [] && first.retries > 0
    ensures var events := [Take, Attempt(Refused), Attempt(Accepted), Take, Attempt(Accepted)];
            AfterAll(q, events).written == q.written + [second.ticket, first.ticket]
  {
    var one := [Take];
    var two := one + [Attempt(Refused)];
    var three := two + [Attempt(Accepted)];
    var four := three + [Take];
    assert [] + [Take] == one;
    AfterAllAppends(q, [], Take);
    AfterAllAppends(q, one, Attempt(Refused));
    AfterAllAppends(q, two, Attempt(Accepted));
    AfterAllAppends(q, three, Take);
    AfterAllAppends(q, four, Attempt(Accepted));
    assert [Take, Attempt(Refused), Attempt(Accepted), Take, Attempt(Accepted)] == four + [Attempt(Accepted)];
    assert AfterAll(q, []) == q;
    hide AfterAll;
    assert AfterAll(q, three).queued == [Item(first.ticket, first.retries - 1)];
  }
}
