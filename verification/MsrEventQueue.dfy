// The event queue of the card reader (opos/OposLpu230/FireEvent.cpp and FireEvent.h), whose gate
// is DataEventEnabled and FreezeEvents together. Every public call is one step.
module MsrEventQueue {
  import opened Wrappers
  import opened Events

  datatype Queue = Queue(
    enabled: bool, frozen: bool, pending: Option<Event>,
    delivered: seq<Event>, superseded: seq<Event>, cleared: seq<Event>)
  {
    predicate GateOpen() { enabled && !frozen }
  }

  const NEW := Queue(true, false, None, [], [], [])

  function AsSeq(e: Option<Event>): seq<Event> { if e.Some? then [e.value] else [] }

  function Hold(q: Queue, e: Event): Queue {
    q.(pending := Some(e), superseded := q.superseded + AsSeq(q.pending))
  }

  // With the gate open, an event that finds the queue empty is held back, and one that finds an
  // older event waiting goes past it to the application.
  function Step(q: Queue, call: Call): Queue {
    match call
    case Submit(e) =>
      if q.GateOpen() && q.pending.Some? then q.(enabled := false, delivered := q.delivered + [e]) else Hold(q, e)
    case Drain =>
      if q.GateOpen() && q.pending.Some? then
        q.(enabled := q.pending.value.isError, delivered := q.delivered + [q.pending.value], pending := None)
      else q
    case EnableData(b) => q.(enabled := b)
    case Freeze(b) => q.(frozen := b)
    case Clear => q.(pending := None, cleared := q.cleared + AsSeq(q.pending))
  }

  // The state after the first n calls.
  function Run(calls: seq<Call>, n: nat): Queue
    requires n <= |calls|
  {
    if n == 0 then NEW else Step(Run(calls, n - 1), calls[n - 1])
  }

  // What call k delivers.
  function DeliveredBy(calls: seq<Call>, k: nat): Option<Event>
    requires k < |calls|
  {
    var q := Run(calls, k);
    if q.GateOpen() && q.pending.Some? then
      (match calls[k] case Submit(e) => Some(e) case Drain => q.pending case _ => None)
    else None
  }

  // ----- Nothing passes a closed gate -----

  function DeliveriesBelow(calls: seq<Call>, n: nat): seq<Event>
    requires n <= |calls|
  {
    if n == 0 then [] else DeliveriesBelow(calls, n - 1) + AsSeq(DeliveredBy(calls, n - 1))
  }

  // The application enabled data events after call i and before call j.
  predicate EnabledBetween(calls: seq<Call>, i: nat, j: nat)
    requires j <= |calls|
  {
    exists k :: i < k < j && calls[k] == EnableData(true)
  }

  lemma StepDelivers(calls: seq<Call>, k: nat)
    requires k < |calls|
    ensures Run(calls, k + 1).delivered == Run(calls, k).delivered + AsSeq(DeliveredBy(calls, k))
    ensures Run(calls, k + 1).frozen == if calls[k].Freeze? then calls[k].freeze else Run(calls, k).frozen
  {
    var s := Run(calls, k).delivered;
    assert s + [] == s;
  }

  // The events delivered in a run are those that single calls deliver, and none of these calls
  // comes while events are frozen.
  lemma {:induction false} NothingWhileFrozen(calls: seq<Call>, n: nat)
    requires n <= |calls|
    ensures Run(calls, n).delivered == DeliveriesBelow(calls, n) && Run(calls, n).frozen == FrozenBefore(calls, n)
    ensures n < |calls| && DeliveredBy(calls, n).Some? ==> !FrozenBefore(calls, n)
  {
    if n > 0 {
      NothingWhileFrozen(calls, n - 1);
      StepDelivers(calls, n - 1);
    }
  }

  lemma {:induction false} StaysDisabled(calls: seq<Call>, i: nat, j: nat)
    requires i <= j <= |calls| && !Run(calls, i).enabled
    requires forall k :: i <= k < j ==> calls[k] != EnableData(true)
    ensures !Run(calls, j).enabled
    decreases j
  {
    if i < j {
      StaysDisabled(calls, i, j - 1);
    }
  }

  // Between two deliveries the application has to enable data events again, unless the first
  // was an error event from the queue.
  lemma ReenableBetween(calls: seq<Call>, i: nat, j: nat)
    requires i < j < |calls| && DeliveredBy(calls, i).Some? && DeliveredBy(calls, j).Some?
    ensures EnabledBetween(calls, i, j) || (calls[i].Drain? && DeliveredBy(calls, i).value.isError)
  {
    if !Run(calls, i + 1).enabled && !EnabledBetween(calls, i, j) {
      StaysDisabled(calls, i + 1, j);
    }
  }

  // That exception is real: two deliveries, and no call between them enables anything.
  lemma ErrorKeepsGateOpen(e: Event, f: Event)
    requires e.isError
    ensures var calls := [Submit(e), Drain, Submit(f), Drain];
            Run(calls, 4).delivered == [e, f] && !EnabledBetween(calls, 1, 3)
  {
    var calls := [Submit(e), Drain, Submit(f), Drain];
    assert Run(calls, 1) == NEW.(pending := Some(e), superseded := []);
    assert Run(calls, 2).delivered == [e];
    assert Run(calls, 3).pending == Some(f);
    assert Run(calls, 4).delivered == [e] + [f];
  }

  // ----- Each event has one fate -----

  function Single(e: Option<Event>): multiset<Event> { if e.Some? then multiset{e.value} else multiset{} }

  function Submission(call: Call): Option<Event> { if call.Submit? then Some(call.event) else None }

  function SubmittedBelow(calls: seq<Call>, n: nat): multiset<Event>
    requires n <= |calls|
  {
    if n == 0 then multiset{} else SubmittedBelow(calls, n - 1) + Single(Submission(calls[n - 1]))
  }

  function Accounted(q: Queue): multiset<Event> {
    multiset(q.delivered) + multiset(q.superseded) + multiset(q.cleared) + Single(q.pending)
  }

  lemma StepAccounts(q: Queue, call: Call, q': Queue)
    requires q' == Step(q, call)
    ensures Accounted(q') == Accounted(q) + Single(Submission(call))
  {
    assert multiset(AsSeq(q.pending)) == Single(q.pending);
  }

  // Every submitted event is in exactly one place: delivered, superseded, cleared or waiting.
  lemma {:induction false} EachEventOnce(calls: seq<Call>, n: nat, q: Queue)
    requires n <= |calls| && q == Run(calls, n)
    ensures Accounted(q) == SubmittedBelow(calls, n)
  {
    if n > 0 {
      var before := Run(calls, n - 1);
      EachEventOnce(calls, n - 1, before);
      StepAccounts(before, calls[n - 1], q);
    }
  }

  // ----- Order -----

  // Call k hands its own event to the application past one that waits.
  predicate Overtakes(calls: seq<Call>, k: nat)
    requires k < |calls|
  {
    calls[k].Submit? && Run(calls, k).GateOpen() && Run(calls, k).pending.Some?
  }

  // The event that waits after n calls has been overtaken.
  predicate Overtaken(calls: seq<Call>, n: nat)
    requires n <= |calls|
  {
    && n > 0 && Run(calls, n).pending.Some?
    && (Overtakes(calls, n - 1) || (!calls[n - 1].Submit? && Overtaken(calls, n - 1)))
  }

  // Call k delivers an event that others overtook.
  predicate DeliversLate(calls: seq<Call>, k: nat)
    requires k < |calls|
  {
    calls[k].Drain? && Run(calls, k).GateOpen() && Overtaken(calls, k)
  }

  predicate AllBelow(s: seq<Event>, id: nat) { forall i :: 0 <= i < |s| ==> s[i].id < id }

  // An event that waits is newer than all that were delivered, or older than the last of them if
  // it has been overtaken; and both are older than what is still to be submitted.
  ghost predicate Ordered(calls: seq<Call>, n: nat)
    requires n <= |calls|
  {
    var q := Run(calls, n);
    && (forall k :: n <= k < |calls| && calls[k].Submit? ==>
          AllBelow(q.delivered, calls[k].event.id) && AllBelow(AsSeq(q.pending), calls[k].event.id))
    && (q.pending.Some? && !Overtaken(calls, n) ==> AllBelow(q.delivered, q.pending.value.id))
    && (Overtaken(calls, n) ==> q.delivered != [] && q.pending.value.id < q.delivered[|q.delivered| - 1].id)
  }

  lemma SubmitKeepsOrdered(calls: seq<Call>, k: nat)
    requires k < |calls| && Numbered(calls) && Ordered(calls, k) && calls[k].Submit?
    ensures Ordered(calls, k + 1)
  {
    var q := Run(calls, k);
    assert AllBelow(q.delivered, calls[k].event.id);
    assert q.pending.Some? ==> AsSeq(q.pending)[0].id < calls[k].event.id;
  }

  lemma RestKeepsOrdered(calls: seq<Call>, k: nat)
    requires k < |calls| && Ordered(calls, k) && !calls[k].Submit?
    ensures Ordered(calls, k + 1)
  {
  }

  lemma OrderedAtFirst(calls: seq<Call>)
    ensures Ordered(calls, 0)
  {
  }

  lemma {:induction false} KeepsOrdered(calls: seq<Call>, n: nat)
    requires n <= |calls| && Numbered(calls)
    ensures Ordered(calls, n)
  {
    if n > 0 {
      KeepsOrdered(calls, n - 1);
      if calls[n - 1].Submit? {
        SubmitKeepsOrdered(calls, n - 1);
      } else {
        RestKeepsOrdered(calls, n - 1);
      }
    } else {
      OrderedAtFirst(calls);
    }
  }

  // No overtaken event is delivered by the first n calls.
  predicate OnTime(calls: seq<Call>, n: nat)
    requires n <= |calls|
  {
    n == 0 || (OnTime(calls, n - 1) && !DeliversLate(calls, n - 1))
  }

  predicate InOrder(calls: seq<Call>, n: nat)
    requires n <= |calls|
  {
    Increasing(Ids(Run(calls, n).delivered))
  }

  lemma LateIsOlder(calls: seq<Call>, k: nat)
    requires k < |calls| && Numbered(calls) && DeliveredBy(calls, k).Some?
    ensures var s := Run(calls, k).delivered;
            DeliversLate(calls, k) <==> s != [] && DeliveredBy(calls, k).value.id <= s[|s| - 1].id
  {
    KeepsOrdered(calls, k);
    var s := Run(calls, k).delivered;
    assert calls[k].Submit? ==> AllBelow(s, calls[k].event.id);
  }

  lemma StepInOrder(calls: seq<Call>, k: nat)
    requires k < |calls| && Numbered(calls)
    ensures InOrder(calls, k + 1) <==> InOrder(calls, k) && !DeliversLate(calls, k)
  {
    StepDelivers(calls, k);
    var s, e := Run(calls, k).delivered, DeliveredBy(calls, k);
    if e.Some? {
      LateIsOlder(calls, k);
      assert Ids(s + [e.value]) == Ids(s) + [e.value.id];
      IncreasingPush(Ids(s), e.value.id);
    } else {
      assert s + [] == s;
    }
  }

  // Events reach the application in the order of submission exactly when no overtaken event is
  // delivered after all.
  lemma {:induction false} InOrderExactly(calls: seq<Call>, n: nat)
    requires n <= |calls| && Numbered(calls)
    ensures InOrder(calls, n) <==> OnTime(calls, n)
  {
    if n > 0 {
      InOrderExactly(calls, n - 1);
      StepInOrder(calls, n - 1);
    }
  }

  // The first event waits, the second goes past it, and the first comes last.
  lemma OutOfOrder(e: Event, f: Event)
    requires e.id < f.id
    ensures var calls := [Submit(e), Submit(f), EnableData(true), Drain];
            Run(calls, 4).delivered == [f, e] && DeliversLate(calls, 3)
  {
    var calls := [Submit(e), Submit(f), EnableData(true), Drain];
    assert Run(calls, 1) == NEW.(pending := Some(e), superseded := []);
    assert Run(calls, 2).delivered == [f] && Overtaken(calls, 2);
    assert Run(calls, 3).GateOpen() && Overtaken(calls, 3);
    assert Run(calls, 4).delivered == [f] + [e];
  }

  // ----- The class -----

  class FireEvent {
    var dataEventEnabled: bool
    var freezeEvents: bool
    var queue: seq<Event>
    var lastErrorResponse: int
    ghost var delivered: seq<Event>
    ghost var superseded: seq<Event>
    ghost var cleared: seq<Event>

    ghost predicate Valid()
      reads this
    {
      |queue| <= 1 && (delivered != [] ==> lastErrorResponse == delivered[|delivered| - 1].response)
    }

    // The queue that this object is.
    ghost function Abstract(): Queue
      reads this
      requires Valid()
    {
      Queue(dataEventEnabled, freezeEvents, if queue == [] then None else Some(queue[0]),
            delivered, superseded, cleared)
    }

    constructor ()
      ensures Valid() && Abstract() == NEW && lastErrorResponse == 0
    {
      dataEventEnabled, freezeEvents, queue, lastErrorResponse := true, false, [], 0;
      delivered, superseded, cleared := [], [], [];
    }

    // The event reaches the application.
    method DeliverEvent(e: Event)
      modifies `lastErrorResponse, `delivered
      ensures delivered == old(delivered) + [e] && lastErrorResponse == e.response
    {
      delivered := delivered + [e];
      lastErrorResponse := e.response;
    }

    method EnQ(e: Event)
      modifies `queue, `superseded
      ensures queue == [e] && superseded == old(superseded) + old(queue)
    {
      superseded := superseded + queue;
      if queue != [] {
        queue := [];
      }
      queue := queue + [e];
    }

    method DeQ() returns (e: Option<Event>)
      modifies `queue
      ensures old(queue) == [] ==> e == None && queue == []
      ensures old(queue) != [] ==> e == Some(old(queue)[0]) && queue == old(queue)[1..]
    {
      e := None;
      if queue != [] {
        e, queue := Some(queue[0]), queue[1..];
      }
    }

    method FireQ() returns (fired: bool)
      requires Valid()
      modifies `dataEventEnabled, `queue, `lastErrorResponse, `delivered
      ensures Valid() && Abstract() == Step(old(Abstract()), Drain)
      ensures fired == (old(Abstract()).GateOpen() && old(queue) != [])
    {
      fired := false;
      if dataEventEnabled && !freezeEvents {
        if queue != [] {
          var e := DeQ();
          if e.Some? {
            if !e.value.isError {
              dataEventEnabled := false;
            }
            DeliverEvent(e.value);
            fired := true;
          }
        }
      }
    }

    // The error response that the caller reads next is the application's answer to this event
    // when the event was delivered, and is otherwise left from an earlier one.
    method Fire(e: Event) returns (fired: bool)
      requires Valid()
      modifies this
      ensures Valid() && Abstract() == Step(old(Abstract()), Submit(e))
      ensures fired == (old(Abstract()).GateOpen() && old(queue) != [])
      ensures lastErrorResponse == if fired then e.response else old(lastErrorResponse)
    {
      fired := false;
      if dataEventEnabled && !freezeEvents {
        if queue == [] {
          var first := DeQ();
          if first.Some? {
            assert false;  // nothing comes out of an empty queue
          }
          EnQ(e);
        } else {
          dataEventEnabled := false;
          DeliverEvent(e);
          fired := true;
        }
      } else {
        EnQ(e);
      }
    }

    method SetDataEventEnable(enable: bool)
      requires Valid()
      modifies `dataEventEnabled
      ensures Valid() && Abstract() == Step(old(Abstract()), EnableData(enable))
    {
      dataEventEnabled := enable;
    }

    method SetFreezeEvents(freeze: bool)
      requires Valid()
      modifies `freezeEvents
      ensures Valid() && Abstract() == Step(old(Abstract()), Freeze(freeze))
    {
      freezeEvents := freeze;
    }

    method ClearQ()
      requires Valid()
      modifies `queue, `cleared
      ensures Valid() && Abstract() == Step(old(Abstract()), Clear)
    {
      cleared := cleared + queue;
      queue := [];
    }
  }
}
