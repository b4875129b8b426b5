// What the event queues of both service objects deal in.
module Events {
  // Anything that is not an error closes the gate of the card reader when it is delivered from
  // the queue. `response` is what the application answers when the event reaches it.
  datatype Event = Event(id: nat, isError: bool, response: int)

  // A public call of an event queue. Submitting is `Fire`, draining is `FireQ`.
  datatype Call = Submit(event: Event) | Drain | EnableData(enable: bool) | Freeze(freeze: bool) | Clear

  // Events are numbered as they are submitted.
  predicate Numbered(calls: seq<Call>) {
    forall i, j :: 0 <= i < j < |calls| && calls[i].Submit? && calls[j].Submit? ==>
      calls[i].event.id < calls[j].event.id
  }

  // FreezeEvents as the calls before n leave it.
  predicate FrozenBefore(calls: seq<Call>, n: nat)
    requires n <= |calls|
  {
    n > 0 && if calls[n - 1].Freeze? then calls[n - 1].freeze else FrozenBefore(calls, n - 1)
  }

  function Ids(s: seq<Event>): seq<nat> { seq(|s|, k requires 0 <= k < |s| => s[k].id) }

  predicate Increasing(s: seq<nat>) { forall i, j :: 0 <= i < j < |s| ==> s[i] < s[j] }

  lemma IncreasingCons(x: nat, s: seq<nat>)
    requires Increasing(s) && forall i :: 0 <= i < |s| ==> x < s[i]
    ensures Increasing([x] + s)
  {
  }

  lemma IncreasingPush(s: seq<nat>, x: nat)
    ensures Increasing(s + [x]) <==> Increasing(s) && (s == [] || s[|s| - 1] < x)
  {
    if Increasing(s + [x]) {
      forall i, j | 0 <= i < j < |s|
        ensures s[i] < s[j]
      {
        assert (s + [x])[i] < (s + [x])[j];
      }
      assert s != [] ==> (s + [x])[|s| - 1] < (s + [x])[|s|];
    }
  }
}
