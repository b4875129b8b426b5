// The event queue of the electronic lock (opos/OposLpu230Lock/FireEvent.cpp and FireEvent.h).
// Every public call is one step.
module LockEventQueue {
  import opened Wrappers
  import opened Events
  import opened Sequences

  // The calls of the lock, which has no DataEventEnabled.
  type LockCall = c: Call | !c.EnableData? witness Drain

  // ----- A queue of one place -----

  datatype Queue = Queue(frozen: bool, pending: Option<Event>, delivered: seq<Event>)

  const EMPTY := Queue(false, None, [])

  function Deliver(q: Queue): Queue {
    if q.frozen || q.pending.None? then q else q.(pending := None, delivered := q.delivered + [q.pending.value])
  }

  function Step(q: Queue, call: LockCall): Queue {
    match call
    case Submit(e) =>
      if q.frozen then q.(pending := Some(e))
      else if q.pending.Some? then Deliver(q).(pending := Some(e))
      else q.(delivered := q.delivered + [e])
    case Drain => Deliver(q)
    case Freeze(b) => Deliver(q.(frozen := b))
    case Clear => q.(pending := None)
  }

  // The state after the calls from the k-th on.
  function Run(q: Queue, calls: seq<LockCall>, k: nat): Queue
    requires k <= |calls|
    decreases |calls| - k
  {
    if k == |calls| then q else Run(Step(q, calls[k]), calls, k + 1)
  }

  // ----- The life of one event, told by the calls alone -----

  datatype Fate = Delivered | Pending | Superseded | Cleared

  // What the calls from the k-th on do to an event that is held back.
  function HeldFate(calls: seq<LockCall>, k: nat): Fate
    requires k <= |calls|
    decreases |calls| - k
  {
    if k == |calls| then Pending
    else match calls[k]
      case Submit(_) => Superseded
      case Clear => Cleared
      case Freeze(b) => if b then HeldFate(calls, k + 1) else Delivered
      case Drain => HeldFate(calls, k + 1)
  }

  function FateOf(calls: seq<LockCall>, k: nat): Fate
    requires k < |calls|
  {
    if FrozenBefore(calls, k) then HeldFate(calls, k + 1) else Delivered
  }

  predicate Ends(calls: seq<LockCall>, k: nat, fate: Fate)
    requires k < |calls|
  {
    calls[k].Submit? && FateOf(calls, k) == fate
  }

  // The submitted events of a run that are delivered, in the order they were submitted.
  function DeliveredFrom(calls: seq<LockCall>, k: nat): seq<Event>
    requires k <= |calls|
    decreases |calls| - k
  {
    if k == |calls| then []
    else (if Ends(calls, k, Delivered) then [calls[k].event] else []) + DeliveredFrom(calls, k + 1)
  }

  // ----- Every run -----

  // A queue that is not frozen holds nothing back.
  predicate Settled(q: Queue) { q.frozen || q.pending.None? }

  // What waits in q and is still delivered.
  function HeldOf(q: Queue, calls: seq<LockCall>, k: nat): seq<Event>
    requires k <= |calls|
  {
    if q.pending.Some? && HeldFate(calls, k) == Delivered then [q.pending.value] else []
  }

  lemma StepSettles(q: Queue, calls: seq<LockCall>, k: nat)
    requires k < |calls| && q.frozen == FrozenBefore(calls, k) && Settled(q)
    ensures var q' := Step(q, calls[k]); q'.frozen == FrozenBefore(calls, k + 1) && Settled(q')
  {
  }

  // What one call delivers.
  function More(q: Queue, call: LockCall): seq<Event> {
    if call.Submit? && !q.frozen then [call.event]
    else if call == Freeze(false) && q.pending.Some? then [q.pending.value]
    else []
  }

  function Own(calls: seq<LockCall>, k: nat): seq<Event>
    requires k < |calls|
  {
    if Ends(calls, k, Delivered) then [calls[k].event] else []
  }

  lemma StepAdds(q: Queue, call: LockCall)
    requires Settled(q)
    ensures Step(q, call).delivered == q.delivered + More(q, call)
  {
    assert q.delivered + [] == q.delivered;
  }

  // What is delivered now, or later from the queue, was held before or is the call's own event.
  lemma MoreIsHeldOrOwn(q: Queue, calls: seq<LockCall>, k: nat)
    requires k < |calls| && q.frozen == FrozenBefore(calls, k) && Settled(q)
    ensures More(q, calls[k]) + HeldOf(Step(q, calls[k]), calls, k + 1) == HeldOf(q, calls, k) + Own(calls, k)
  {
    match calls[k]
    case Submit(e) =>
      assert [] + HeldOf(Step(q, calls[k]), calls, k + 1) == HeldOf(Step(q, calls[k]), calls, k + 1);
    case _ =>
  }

  lemma StepDelivers(q: Queue, calls: seq<LockCall>, k: nat)
    requires k < |calls| && q.frozen == FrozenBefore(calls, k) && Settled(q)
    ensures var q' := Step(q, calls[k]);
            q'.delivered + HeldOf(q', calls, k + 1) + DeliveredFrom(calls, k + 1)
            == q.delivered + HeldOf(q, calls, k) + DeliveredFrom(calls, k)
  {
    StepAdds(q, calls[k]);
    MoreIsHeldOrOwn(q, calls, k);
    Exchange(q.delivered, More(q, calls[k]), HeldOf(Step(q, calls[k]), calls, k + 1),
             HeldOf(q, calls, k), Own(calls, k), DeliveredFrom(calls, k + 1));
  }

  lemma {:induction false} RunSettles(q: Queue, calls: seq<LockCall>, k: nat)
    requires k <= |calls| && q.frozen == FrozenBefore(calls, k) && Settled(q)
    ensures Settled(Run(q, calls, k)) && Run(q, calls, k).frozen == FrozenBefore(calls, |calls|)
    decreases |calls| - k
  {
    if k < |calls| {
      StepSettles(q, calls, k);
      RunSettles(Step(q, calls[k]), calls, k + 1);
    }
  }

  lemma {:induction false} RunDelivers(q: Queue, calls: seq<LockCall>, k: nat)
    requires k <= |calls| && q.frozen == FrozenBefore(calls, k) && Settled(q)
    ensures Run(q, calls, k).delivered == q.delivered + HeldOf(q, calls, k) + DeliveredFrom(calls, k)
    decreases |calls| - k
  {
    if k < |calls| {
      StepSettles(q, calls, k);
      StepDelivers(q, calls, k);
      RunDelivers(Step(q, calls[k]), calls, k + 1);
    }
  }

  // What waits in the end has waited all the time, or was submitted.
  ghost predicate Waits(q: Queue, calls: seq<LockCall>, k: nat, e: Event)
    requires k <= |calls|
  {
    || (q.pending == Some(e) && HeldFate(calls, k) == Pending)
    || exists i :: k <= i < |calls| && Ends(calls, i, Pending) && calls[i].event == e
  }

  lemma StepWaits(q: Queue, calls: seq<LockCall>, k: nat, e: Event)
    requires k < |calls| && q.frozen == FrozenBefore(calls, k) && Settled(q)
    ensures Waits(Step(q, calls[k]), calls, k + 1, e) <==> Waits(q, calls, k, e)
  {
    if i :| k <= i < |calls| && Ends(calls, i, Pending) && calls[i].event == e {
      assert i == k || Waits(Step(q, calls[k]), calls, k + 1, e);
    }
    if calls[k].Submit? && q.frozen {
      assert Step(q, calls[k]).pending == Some(calls[k].event);
      assert Ends(calls, k, Pending) <==> HeldFate(calls, k + 1) == Pending;
    }
  }

  lemma {:induction false} RunWaits(q: Queue, calls: seq<LockCall>, k: nat, e: Event)
    requires k <= |calls| && q.frozen == FrozenBefore(calls, k) && Settled(q)
    ensures Run(q, calls, k).pending == Some(e) <==> Waits(q, calls, k, e)
    decreases |calls| - k
  {
    if k < |calls| {
      StepSettles(q, calls, k);
      StepWaits(q, calls, k, e);
      RunWaits(Step(q, calls[k]), calls, k + 1, e);
    }
  }

  // Whatever is called in whatever order: the events delivered are those whose own history says
  // so, in the order of submission; nothing waits while the queue is not frozen; and what waits
  // is the one event that was held back and neither superseded nor cleared.
  lemma EveryRun(calls: seq<LockCall>)
    ensures var r := Run(EMPTY, calls, 0);
            && r.delivered == DeliveredFrom(calls, 0)
            && (r.pending.Some? ==> r.frozen)
            && (r.pending.Some? <==> exists i :: 0 <= i < |calls| && Ends(calls, i, Pending))
            && (forall i :: 0 <= i < |calls| && Ends(calls, i, Pending) ==> r.pending == Some(calls[i].event))
  {
    var r := Run(EMPTY, calls, 0);
    RunSettles(EMPTY, calls, 0);
    RunDelivers(EMPTY, calls, 0);
    assert EMPTY.delivered + [] + DeliveredFrom(calls, 0) == DeliveredFrom(calls, 0);
    if r.pending.Some? {
      RunWaits(EMPTY, calls, 0, r.pending.value);
    }
    forall i | 0 <= i < |calls| && Ends(calls, i, Pending)
      ensures r.pending == Some(calls[i].event)
    {
      RunWaits(EMPTY, calls, 0, calls[i].event);
    }
  }

  lemma {:induction false} NothingHeldPast(calls: seq<LockCall>, k: nat, j: nat)
    requires k <= j < |calls| && calls[j].Submit?
    ensures HeldFate(calls, k) != Pending
    decreases j - k
  {
    if k < j && !calls[k].Submit? {
      NothingHeldPast(calls, k + 1, j);
    }
  }

  // Only the newest event survives a freeze.
  lemma HeldIsNewest(calls: seq<LockCall>, i: nat, j: nat)
    requires i < j < |calls| && calls[j].Submit?
    ensures !Ends(calls, i, Pending)
  {
    NothingHeldPast(calls, i + 1, j);
  }

  // When the events are numbered as they are submitted, they are delivered in strictly increasing
  // order, so that none is delivered twice.
  lemma {:induction false} DeliveredInOrder(calls: seq<LockCall>, k: nat)
    requires k <= |calls| && Numbered(calls)
    ensures Increasing(Ids(DeliveredFrom(calls, k)))
    ensures forall e :: e in DeliveredFrom(calls, k) ==>
            exists i :: k <= i < |calls| && Ends(calls, i, Delivered) && calls[i].event == e
    decreases |calls| - k
  {
    if k < |calls| {
      DeliveredInOrder(calls, k + 1);
      var rest := DeliveredFrom(calls, k + 1);
      if Ends(calls, k, Delivered) {
        forall j | 0 <= j < |rest|
          ensures calls[k].event.id < rest[j].id
        {
          assert rest[j] in rest;
        }
        IncreasingCons(calls[k].event.id, Ids(rest));
        assert Ids([calls[k].event] + rest) == [calls[k].event.id] + Ids(rest);
      } else {
        assert [] + rest == rest;
      }
    }
  }

  // ----- The class -----

  class FireEvent {
    var freezeEvents: bool
    var queue: seq<Event>
    var lastErrorResponse: int
    ghost var delivered: seq<Event>

    ghost predicate Valid()
      reads this
    {
      |queue| <= 1 && (delivered != [] ==> lastErrorResponse == delivered[|delivered| - 1].response)
    }

    // The queue that this object is.
    ghost function Abstract(): Queue
      reads this
      requires Valid()
    {
      Queue(freezeEvents, if queue == [] then None else Some(queue[0]), delivered)
    }

    constructor ()
      ensures Valid() && Abstract() == EMPTY
    {
      freezeEvents, queue, lastErrorResponse, delivered := false, [], 0, [];
    }

    // The event reaches the application.
    method DeliverEvent(e: Event)
      modifies `lastErrorResponse, `delivered
      ensures delivered == old(delivered) + [e] && lastErrorResponse == e.response
    {
      delivered := delivered + [e];
      lastErrorResponse := e.response;
    }

    method EnQ(e: Event)
      modifies `queue
      ensures queue == [e]
    {
      if queue != [] {
        queue := [];
      }
      queue := queue + [e];
    }

    method DeQ() returns (e: Option<Event>)
      modifies `queue
      ensures old(queue) == [] ==> e == None && queue == []
      ensures old(queue) != [] ==> e == Some(old(queue)[0]) && queue == old(queue)[1..]
    {
      e := None;
      if queue != [] {
        e, queue := Some(queue[0]), queue[1..];
      }
    }

    method FireQ() returns (fired: bool)
      requires Valid()
      modifies `queue, `lastErrorResponse, `delivered
      ensures Valid() && Abstract() == Step(old(Abstract()), Drain)
      ensures fired == (!freezeEvents && old(queue) != [])
    {
      fired := false;
      if !freezeEvents {
        if queue != [] {
          var e := DeQ();
          if e.Some? {
            DeliverEvent(e.value);
            fired := true;
          }
        }
      }
    }

    method Fire(e: Event) returns (fired: bool)
      requires Valid()
      modifies `queue, `lastErrorResponse, `delivered
      ensures Valid() && Abstract() == Step(old(Abstract()), Submit(e)) && fired == !freezeEvents
    {
      fired := false;
      if !freezeEvents {
        if queue != [] {
          var first := DeQ();
          if first.Some? {
            DeliverEvent(first.value);
            fired := true;
          }
          EnQ(e);
        } else {
          DeliverEvent(e);
          fired := true;
        }
      } else {
        EnQ(e);
      }
    }

    method SetFreezeEvents(freeze: bool)
      requires Valid()
      modifies this
      ensures Valid() && Abstract() == Step(old(Abstract()), Freeze(freeze))
    {
      freezeEvents := freeze;
      if !freezeEvents {
        var fired := FireQ();
        while fired
          invariant Valid() && (fired || queue == []) && Abstract() == Step(old(Abstract()), Freeze(freeze))
                    && !freezeEvents
          decreases |queue|, fired
        {
          fired := FireQ();
        }
      }
    }

    method ClearQ()
      requires Valid()
      modifies `queue
      ensures Valid() && Abstract() == Step(old(Abstract()), Clear)
    {
      queue := [];
    }
  }
}
