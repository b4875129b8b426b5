// What the application finds in the track strings when an event of the card reader reaches it:
// CSoMsr::SaveMsrData overwrites them with every swipe (opos/OposLpu230/SoMsr.cpp), while events
// may wait in the queue (opos/OposLpu230/FireEvent.cpp).
module Delivery {
  import opened Wrappers
  import opened Bytes
  import opened Events
  import opened MsrEventQueue
  import CardReader

  // ----- Which swipe the strings show -----

  type GateCall = c: Call | !c.Submit? witness Drain

  // The worker is done with a transfer: it saves the swipe unless the transfer failed, and submits
  // an event if this is to be reported, which is an error or not. `answer` is what the application
  // will answer to it. The other actions are calls of the queue.
  datatype Action = Transfer(saves: bool, reports: Option<bool>, answer: int) | Calls(call: GateCall)

  // The action whose swipe the strings show, if any.
  datatype Origin = Emptied | From(action: nat)

  datatype Strings = Strings(queue: Queue, response: int, origin: Origin)

  const START := Strings(NEW, 0, Emptied)

  predicate Delivers(q: Queue) { q.GateOpen() && q.pending.Some? }

  // The event of action number `id`.
  function Announced(a: Action, id: nat): Option<Event> {
    if a.Transfer? && a.reports.Some? then Some(Event(id, a.reports.value, a.answer)) else None
  }

  function Saved(s: Strings, a: Action, id: nat): Strings {
    if a.Transfer? && a.saves then s.(origin := From(id)) else s
  }

  // An event is submitted; if it is an error, the last answer that was given is acted on.
  function Fired(s: Strings, e: Event): Strings {
    var response := if Delivers(s.queue) then e.response else s.response;
    Strings(Step(s.queue, Submit(e)), response,
            if e.isError && response == CardReader.ER_CLEAR then Emptied else s.origin)
  }

  function Next(s: Strings, a: Action, id: nat): Strings {
    match a
    case Calls(call) =>
      s.(queue := Step(s.queue, call),
         response := if call.Drain? && Delivers(s.queue) then s.queue.pending.value.response else s.response)
    case Transfer(_, _, _) =>
      var e := Announced(a, id);
      if e.Some? then Fired(Saved(s, a, id), e.value) else Saved(s, a, id)
  }

  // The state after the first n actions.
  function After(actions: seq<Action>, n: nat): Strings
    requires n <= |actions|
  {
    if n == 0 then START else Next(After(actions, n - 1), actions[n - 1], n - 1)
  }

  // What action k delivers.
  function Delivered(actions: seq<Action>, k: nat): Option<Event>
    requires k < |actions|
  {
    if !Delivers(After(actions, k).queue) then None
    else if actions[k] == Calls(Drain) then After(actions, k).queue.pending
    else Announced(actions[k], k)
  }

  // The strings as they are while action k delivers.
  function Shown(actions: seq<Action>, k: nat): Origin
    requires k < |actions|
  {
    Saved(After(actions, k), actions[k], k).origin
  }

  // The application finds the strings of the swipe that the delivered event reports.
  predicate FindsOwn(actions: seq<Action>, k: nat)
    requires k < |actions| && Delivered(actions, k).Some?
  {
    Shown(actions, k) == From(Delivered(actions, k).value.id)
  }

  // ----- Since a swipe was saved -----

  predicate SavesAt(actions: seq<Action>, j: nat)
    requires j < |actions|
  {
    actions[j].Transfer? && actions[j].saves
  }

  predicate ReportsAt(actions: seq<Action>, j: nat)
    requires j < |actions|
  {
    Announced(actions[j], j).Some?
  }

  predicate ErrorAt(actions: seq<Action>, j: nat)
    requires j < |actions|
  {
    ReportsAt(actions, j) && actions[j].reports.value
  }

  // Action j submits an error, and "clear" is the last answer that was given.
  predicate Clears(actions: seq<Action>, j: nat)
    requires j < |actions|
  {
    ErrorAt(actions, j) && After(actions, j + 1).response == CardReader.ER_CLEAR
  }

  lemma OriginAfter(actions: seq<Action>, n: nat)
    requires n < |actions|
    ensures After(actions, n + 1).origin
         == if Clears(actions, n) then Emptied else if SavesAt(actions, n) then From(n) else After(actions, n).origin
  {
  }

  lemma {:induction false} OriginIsPast(actions: seq<Action>, n: nat)
    requires n <= |actions|
    ensures var o := After(actions, n).origin; o.From? ==> o.action < n && SavesAt(actions, o.action)
  {
    if n > 0 {
      OriginIsPast(actions, n - 1);
      OriginAfter(actions, n - 1);
    }
  }

  // From action i on, nothing is saved and nothing cleared.
  ghost predicate Untouched(actions: seq<Action>, i: nat, n: nat)
    requires n <= |actions|
  {
    forall j :: i <= j < n ==> !Clears(actions, j) && (j > i ==> !SavesAt(actions, j))
  }

  lemma {:induction false} OriginIs(actions: seq<Action>, i: nat, n: nat)
    requires i < n <= |actions| && SavesAt(actions, i)
    ensures After(actions, n).origin == From(i) <==> Untouched(actions, i, n)
    decreases n
  {
    OriginAfter(actions, n - 1);
    if i < n - 1 {
      OriginIs(actions, i, n - 1);
    }
  }

  // ----- Since an event waits -----

  // Action j hands its own event to the application past one that waits.
  predicate Passes(actions: seq<Action>, j: nat)
    requires j < |actions|
  {
    ReportsAt(actions, j) && Delivers(After(actions, j).queue)
  }

  lemma QueueAfter(actions: seq<Action>, n: nat)
    requires n < |actions|
    ensures var q, e := After(actions, n).queue, Announced(actions[n], n);
            After(actions, n + 1).queue == if actions[n].Calls? then Step(q, actions[n].call)
                                           else if e.Some? then Step(q, Submit(e.value)) else q
  {
  }

  lemma ResponseAfter(actions: seq<Action>, j: nat)
    requires j < |actions| && ReportsAt(actions, j)
    ensures After(actions, j + 1).response
            == if Passes(actions, j) then actions[j].answer else After(actions, j).response
  {
  }

  lemma PendingAfter(actions: seq<Action>, n: nat)
    requires n < |actions| && After(actions, n + 1).queue.pending.Some?
    ensures After(actions, n + 1).queue.pending
         == if ReportsAt(actions, n) && !Passes(actions, n) then Announced(actions[n], n)
            else After(actions, n).queue.pending
  {
    QueueAfter(actions, n);
  }

  // An event waits since action i submitted it, and every event submitted since went past it.
  ghost predicate WaitsSince(actions: seq<Action>, n: nat, e: Event)
    requires n <= |actions|
  {
    && e.id < n && Announced(actions[e.id], e.id) == Some(e) && !Passes(actions, e.id)
    && forall j :: e.id < j < n && ReportsAt(actions, j) ==> Passes(actions, j)
  }

  lemma {:induction false} PendingWaits(actions: seq<Action>, n: nat)
    requires n <= |actions| && After(actions, n).queue.pending.Some?
    ensures WaitsSince(actions, n, After(actions, n).queue.pending.value)
  {
    if n > 0 {
      PendingAfter(actions, n - 1);
      if !ReportsAt(actions, n - 1) || Passes(actions, n - 1) {
        PendingWaits(actions, n - 1);
      }
    }
  }

  // ----- When the strings are those of the event -----

  predicate AnsweredClear(actions: seq<Action>, j: nat)
    requires j < |actions|
  {
    ErrorAt(actions, j) && actions[j].answer == CardReader.ER_CLEAR
  }

  // Since action i a swipe was saved that was not reported or went past the event, an error that
  // went past it was answered with "clear", or it is itself an error that was held while the last
  // answer, to an earlier event, was "clear".
  ghost predicate Lost(actions: seq<Action>, i: nat, k: nat)
    requires i < k <= |actions|
  {
    || (exists j :: i < j < k && SavesAt(actions, j) && (!ReportsAt(actions, j) || Passes(actions, j)))
    || (exists j :: i < j < k && Passes(actions, j) && AnsweredClear(actions, j))
    || (ErrorAt(actions, i) && After(actions, i).response == CardReader.ER_CLEAR)
  }

  lemma ClearsIfPast(actions: seq<Action>, j: nat)
    requires j < |actions| && (ReportsAt(actions, j) ==> Passes(actions, j))
    ensures Clears(actions, j) <==> Passes(actions, j) && AnsweredClear(actions, j)
  {
    if ReportsAt(actions, j) {
      ResponseAfter(actions, j);
    }
  }

  lemma LostIsTouched(actions: seq<Action>, k: nat, e: Event)
    requires k <= |actions| && WaitsSince(actions, k, e)
    ensures Lost(actions, e.id, k) <==> !Untouched(actions, e.id, k)
  {
    ResponseAfter(actions, e.id);
    assert Clears(actions, e.id) <==> ErrorAt(actions, e.id) && After(actions, e.id).response == CardReader.ER_CLEAR;
    forall j | e.id < j < k
      ensures Clears(actions, j) <==> Passes(actions, j) && AnsweredClear(actions, j)
    {
      ClearsIfPast(actions, j);
    }
    if j :| e.id < j < k && SavesAt(actions, j) {
      assert !ReportsAt(actions, j) || Passes(actions, j);
    }
    if j :| e.id < j < k && Clears(actions, j) {
      assert Passes(actions, j) && AnsweredClear(actions, j);
    }
  }

  // The event of a swipe that is delivered when it is submitted finds its own strings. One that
  // waited finds them exactly when they were not lost since.
  lemma FindsOwnExactly(actions: seq<Action>, k: nat)
    requires k < |actions| && Delivered(actions, k).Some?
    ensures var id := Delivered(actions, k).value.id;
            && id <= k && (id == k <==> actions[k].Transfer?)
            && (SavesAt(actions, id) ==> (FindsOwn(actions, k) <==> id == k || !Lost(actions, id, k)))
  {
    if actions[k].Calls? {
      var e := Delivered(actions, k).value;
      PendingWaits(actions, k);
      LostIsTouched(actions, k, e);
      if SavesAt(actions, e.id) {
        OriginIs(actions, e.id, k);
      }
    }
  }

  // ----- Order and strings -----

  // Every transfer is a swipe that is saved and reported, and nothing is answered with "clear".
  predicate AllReported(actions: seq<Action>) {
    forall i :: 0 <= i < |actions| && actions[i].Transfer? ==>
      SavesAt(actions, i) && ReportsAt(actions, i) && actions[i].answer != CardReader.ER_CLEAR
  }

  function QueueCall(a: Action, id: nat): Call
    requires a.Transfer? ==> a.reports.Some?
  {
    if a.Calls? then a.call else Submit(Announced(a, id).value)
  }

  // What the queue sees of such a run.
  function QueueCalls(actions: seq<Action>): (calls: seq<Call>)
    requires AllReported(actions)
    ensures |calls| == |actions| && Numbered(calls)
  {
    seq(|actions|, i requires 0 <= i < |actions| =>
      assert actions[i].Transfer? ==> ReportsAt(actions, i);
      QueueCall(actions[i], i))
  }

  lemma {:induction false} QueueIs(actions: seq<Action>, n: nat)
    requires AllReported(actions) && n <= |actions|
    ensures After(actions, n).queue == Run(QueueCalls(actions), n)
  {
    if n > 0 {
      QueueIs(actions, n - 1);
      QueueAfter(actions, n - 1);
      assert actions[n - 1].Transfer? ==> ReportsAt(actions, n - 1);
    }
  }

  lemma {:induction false} NeverClear(actions: seq<Action>, n: nat)
    requires AllReported(actions) && n <= |actions|
    ensures After(actions, n).response != CardReader.ER_CLEAR
  {
    if n > 0 {
      NeverClear(actions, n - 1);
      if actions[n - 1].Transfer? {
        assert ReportsAt(actions, n - 1);
        ResponseAfter(actions, n - 1);
      } else if After(actions, n - 1).queue.pending.Some? {
        PendingWaits(actions, n - 1);
        assert ReportsAt(actions, After(actions, n - 1).queue.pending.value.id);
      }
    }
  }

  lemma OvertakesIs(actions: seq<Action>, k: nat)
    requires AllReported(actions) && k < |actions|
    ensures Overtakes(QueueCalls(actions), k) <==> Passes(actions, k)
    ensures QueueCalls(actions)[k].Submit? <==> ReportsAt(actions, k)
  {
    QueueIs(actions, k);
    assert actions[k].Transfer? ==> ReportsAt(actions, k);
  }

  lemma OvertakenStep(actions: seq<Action>, n: nat)
    requires AllReported(actions) && 0 < n <= |actions| && After(actions, n).queue.pending.Some?
    ensures Overtaken(QueueCalls(actions), n)
       <==> Passes(actions, n - 1) || (!ReportsAt(actions, n - 1) && Overtaken(QueueCalls(actions), n - 1))
  {
    QueueIs(actions, n);
    OvertakesIs(actions, n - 1);
  }

  // Some event went past the one that waits.
  ghost predicate SomePast(actions: seq<Action>, id: nat, n: nat)
    requires n <= |actions|
  {
    exists j :: id < j < n && Passes(actions, j)
  }

  lemma PastStep(actions: seq<Action>, id: nat, n: nat)
    requires id < n < |actions|
    ensures SomePast(actions, id, n + 1) <==> SomePast(actions, id, n) || Passes(actions, n)
  {
  }

  predicate Pending(actions: seq<Action>, n: nat, e: Event)
    requires n <= |actions|
  {
    After(actions, n).queue.pending == Some(e)
  }

  lemma WasPending(actions: seq<Action>, n: nat, e: Event)
    requires n < |actions| && Pending(actions, n + 1, e)
    ensures if ReportsAt(actions, n) && !Passes(actions, n) then e.id == n else Pending(actions, n, e) && e.id < n
  {
    PendingAfter(actions, n);
    if !ReportsAt(actions, n) || Passes(actions, n) {
      PendingWaits(actions, n);
    }
  }

  lemma {:induction false} OvertakenSince(actions: seq<Action>, n: nat, e: Event)
    requires AllReported(actions) && n <= |actions| && Pending(actions, n, e)
    ensures Overtaken(QueueCalls(actions), n) <==> SomePast(actions, e.id, n)
  {
    if n > 0 {
      WasPending(actions, n - 1, e);
      if ReportsAt(actions, n - 1) && !Passes(actions, n - 1) {
        OvertakenStep(actions, n);
      } else {
        OvertakenSince(actions, n - 1, e);
        OvertakenStep(actions, n);
        PastStep(actions, e.id, n - 1);
      }
    }
  }

  lemma LostIsPast(actions: seq<Action>, id: nat, k: nat)
    requires AllReported(actions) && id < k <= |actions|
    ensures Lost(actions, id, k) <==> SomePast(actions, id, k)
  {
    NeverClear(actions, id);
    forall j | id < j < k
      ensures Passes(actions, j) ==> SavesAt(actions, j)
      ensures SavesAt(actions, j) ==> ReportsAt(actions, j)
      ensures !AnsweredClear(actions, j)
    {
      assert actions[j].Transfer? ==> SavesAt(actions, j);
    }
  }

  lemma LateIsNotOwn(actions: seq<Action>, k: nat)
    requires AllReported(actions) && k < |actions| && Delivered(actions, k).Some?
    ensures FindsOwn(actions, k) <==> !DeliversLate(QueueCalls(actions), k)
  {
    var id := Delivered(actions, k).value.id;
    FindsOwnExactly(actions, k);
    QueueIs(actions, k);
    if actions[k].Calls? {
      PendingWaits(actions, k);
      assert ReportsAt(actions, id) && SavesAt(actions, id);
      OvertakenSince(actions, k, Delivered(actions, k).value);
      LostIsPast(actions, id, k);
    } else {
      assert SavesAt(actions, k);
    }
  }

  ghost predicate AllFindOwn(actions: seq<Action>, n: nat)
    requires n <= |actions|
  {
    forall k :: 0 <= k < n && Delivered(actions, k).Some? ==> FindsOwn(actions, k)
  }

  lemma NotLate(actions: seq<Action>, k: nat)
    requires AllReported(actions) && k < |actions| && Delivered(actions, k).None?
    ensures !DeliversLate(QueueCalls(actions), k)
  {
    QueueIs(actions, k);
  }

  lemma {:induction false} OnTimeIsOwn(actions: seq<Action>, n: nat)
    requires AllReported(actions) && n <= |actions|
    ensures AllFindOwn(actions, n) <==> OnTime(QueueCalls(actions), n)
  {
    if n > 0 {
      OnTimeIsOwn(actions, n - 1);
      if Delivered(actions, n - 1).Some? {
        LateIsNotOwn(actions, n - 1);
      } else {
        NotLate(actions, n - 1);
      }
    }
  }

  // When every swipe is reported and nothing is answered with "clear", all events find their own
  // strings exactly when they arrive in the order of submission.
  lemma InOrderIsOwn(actions: seq<Action>, n: nat)
    requires AllReported(actions) && n <= |actions|
    ensures AllFindOwn(actions, n) <==> InOrder(QueueCalls(actions), n)
  {
    OnTimeIsOwn(actions, n);
    InOrderExactly(QueueCalls(actions), n);
  }

  // An error that is answered with "clear", and a second one that waits: its strings are emptied
  // before the application hears of it.
  lemma EmptiedBeforeRead(answer: int)
    ensures var actions := [Transfer(true, Some(true), CardReader.ER_CLEAR), Calls(Drain),
                            Transfer(true, Some(true), answer), Calls(Drain)];
            Delivered(actions, 3) == Some(Event(2, true, answer)) && Shown(actions, 3) == Emptied
  {
    var actions := [Transfer(true, Some(true), CardReader.ER_CLEAR), Calls(Drain),
                    Transfer(true, Some(true), answer), Calls(Drain)];
    assert After(actions, 1).queue == NEW.(pending := Announced(actions[0], 0), superseded := []);
    assert After(actions, 2).queue.GateOpen() && After(actions, 2).queue.pending.None?;
    assert After(actions, 2).response == CardReader.ER_CLEAR;
    QueueAfter(actions, 2);
    OriginAfter(actions, 2);
  }

  // ----- The strings themselves -----

  // A swipe as SaveMsrData receives it, a transfer that failed, or a call of the queue.
  datatype Task =
    | Swipe(cfg: CardReader.Settings, z: CardReader.Sizes, c: CardReader.Cut, ctl: CardReader.Controls, answer: int)
    | Failure(cfg: CardReader.Settings, ctl: CardReader.Controls, answer: int)
    | Gate(call: GateCall)
  {
    predicate Possible() { Swipe? ==> CardReader.SignedChars(z) && CardReader.Matches(z, c) }
  }

  predicate AllPossible(tasks: seq<Task>) { forall i :: 0 <= i < |tasks| ==> tasks[i].Possible() }

  function Reported(e: Option<CardReader.Event>): Option<bool> {
    if e.Some? then Some(e.value.ErrorEvent?) else None
  }

  // What CardReader.Reader.Fire submits; after a failed transfer the codes do not matter.
  function ActionOf(t: Task): Action
    requires t.Possible()
  {
    match t
    case Swipe(cfg, z, _, ctl, answer) =>
      Transfer(true, Reported(CardReader.Submitted(cfg, CardReader.Codes(z), true, ctl).0), answer)
    case Failure(cfg, ctl, answer) =>
      Transfer(false, Reported(CardReader.Submitted(cfg, [0, 0, 0], false, ctl).0), answer)
    case Gate(call) => Calls(call)
  }

  function Actions(tasks: seq<Task>): (actions: seq<Action>)
    requires AllPossible(tasks)
    ensures |actions| == |tasks|
  {
    seq(|tasks|, i requires 0 <= i < |tasks| => ActionOf(tasks[i]))
  }

  const BLANK: seq<Text> := [[], [], [], []]

  // The strings of a swipe; nothing ever fills the fourth.
  function Own(t: Task): seq<Text>
    requires t.Swipe?
  {
    CardReader.TrackStrings(t.cfg, t.z, t.c, [])
  }

  // The strings after the first n tasks, as CardReader.Reader.SaveMsrData and Fire leave them.
  function Tracks(tasks: seq<Task>, n: nat): seq<Text>
    requires AllPossible(tasks) && n <= |tasks|
  {
    if n == 0 || Clears(Actions(tasks), n - 1) then BLANK
    else if tasks[n - 1].Swipe? then Own(tasks[n - 1])
    else Tracks(tasks, n - 1)
  }

  // The strings the application finds while task k delivers.
  function TracksShown(tasks: seq<Task>, k: nat): seq<Text>
    requires AllPossible(tasks) && k < |tasks|
  {
    if tasks[k].Swipe? then Own(tasks[k]) else Tracks(tasks, k)
  }

  lemma {:induction false} TracksAreOf(tasks: seq<Task>, n: nat)
    requires AllPossible(tasks) && n <= |tasks|
    ensures var o := After(Actions(tasks), n).origin;
            if o.Emptied? then Tracks(tasks, n) == BLANK
            else o.action < n && tasks[o.action].Swipe? && Tracks(tasks, n) == Own(tasks[o.action])
  {
    if n > 0 {
      TracksAreOf(tasks, n - 1);
      OriginAfter(Actions(tasks), n - 1);
    }
  }

  lemma {:induction false} OriginIsLater(actions: seq<Action>, i: nat, n: nat)
    requires i < n <= |actions| && SavesAt(actions, i)
    ensures var o := After(actions, n).origin; o.From? ==> i <= o.action
    decreases n
  {
    OriginAfter(actions, n - 1);
    if i < n - 1 {
      OriginIsLater(actions, i, n - 1);
    }
  }

  // The event of a swipe comes with the strings of this swipe, unless they were lost while it
  // waited: then it comes with those of a later swipe, or with none.
  lemma StringsOfDelivery(tasks: seq<Task>, k: nat)
    requires AllPossible(tasks) && k < |tasks| && Delivered(Actions(tasks), k).Some?
    ensures var id := Delivered(Actions(tasks), k).value.id;
            id <= k && (tasks[id].Swipe? ==>
              if id == k || !Lost(Actions(tasks), id, k) then TracksShown(tasks, k) == Own(tasks[id])
              else TracksShown(tasks, k) == BLANK
                   || exists j :: id < j < k && tasks[j].Swipe? && TracksShown(tasks, k) == Own(tasks[j]))
  {
    var actions := Actions(tasks);
    var id := Delivered(actions, k).value.id;
    FindsOwnExactly(actions, k);
    TracksAreOf(tasks, k);
    if tasks[id].Swipe? && id < k {
      assert SavesAt(actions, id);
      OriginIsLater(actions, id, k);
    }
  }

  // A swipe is not reported exactly when a selected track failed and the reporting of errors of
  // its kind is off; what is reported is an error exactly when a selected track failed.
  lemma NotReportedExactly(t: Task)
    requires t.Possible() && t.Swipe?
    ensures var failed := exists i :: 0 <= i < CardReader.TRACKS && t.cfg.Selects(i) && t.z[i] < 0;
            && (ActionOf(t).reports.None?
              <==> failed && !(if t.cfg.cardLevel then t.ctl.cardErrors else t.ctl.trackErrors))
            && (ActionOf(t).reports.Some? ==> ActionOf(t).reports.value == failed)
  {
    CardReader.Failing(t.cfg, t.z);
  }
}
