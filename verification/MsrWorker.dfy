// The worker of the card reader service object and the calls that drive it
// (opos/OposLpu230/SoMsr.cpp). Every public call, every request the worker handles and every
// power callback is one step; a call that waits for the worker is two, before and after.
module MsrWorker {
  datatype Handle = Null | Invalid | Live
  datatype Service = Closed | Idle | Error
  datatype Request = Enter | Leave

  // Where the application's thread is: outside, waiting for its request to be handled, or between.
  datatype Caller = Out | Opening | Running | Closing

  datatype State = State(
    open: bool, recover: bool, suspended: bool, executeRead: bool,
    handle: Handle, uart: bool, queue: seq<Request>,
    service: Service, claimed: bool, enabled: bool, autoDisable: bool, lastError: bool,
    caller: Caller)

  const START := State(false, false, false, false, Null, false, [], Closed, false, false, false, false, Out)

  // What the search for a device comes to: whether one is listed, whether it is a serial port,
  // whether it opens, and whether it then takes the Enter request (serial ports only).
  datatype Device = Missing | Found(uart: bool, opens: bool, accepts: bool)

  datatype Step =
    | OpenBegins(device: Device) | OpenEnds | CloseBegins | CloseEnds
    | Claim(locked: bool) | Release | ClearInput | SetEnabled(on: bool) | SetAutoDisable(on: bool)
    | Wake(device: Device, starts: bool)
    | SerialRead(error: bool, asData: bool)
    | UsbRead(hasData: bool, asData: bool)
    | Suspend | Resume(device: Device)

  // One application thread: its calls come one after the other, and a call that waits for the
  // worker goes on only when its request has been handled.
  predicate Possible(s: State, step: Step) {
    match step
    case OpenBegins(_) => s.caller == Out
    case OpenEnds => s.caller == Opening && s.queue == []
    case CloseBegins => s.caller == Running
    case CloseEnds => s.caller == Closing && s.queue == []
    case Claim(_) => s.caller == Out || s.caller == Running
    case Release => s.caller == Out || s.caller == Running
    case ClearInput => s.caller == Out || s.caller == Running
    case SetEnabled(_) => s.caller == Out || s.caller == Running
    case SetAutoDisable(_) => s.caller == Out || s.caller == Running
    case Wake(_, _) => true
    case SerialRead(_, _) => true
    case UsbRead(_, _) => true
    case Suspend => true
    case Resume(_) => true
  }

  // FindOpenEnterOpos: the new handle and connection, and whether it succeeded.
  function NewHandle(d: Device): Handle {
    if d.Missing? then Null else if d.opens then Live else if d.uart then Invalid else Null
  }

  predicate Answers(d: Device) { d.Found? && d.opens && (d.uart ==> d.accepts) }

  function NewUart(s: State, d: Device): bool { if d.Found? then d.uart else s.uart }

  // After the search: back in service, or the new handle only.
  function Recovered(s: State, d: Device): State {
    s.(open := true, recover := false, suspended := false, executeRead := true,
       handle := NewHandle(d), uart := NewUart(s, d), service := Idle)
  }

  function NotRecovered(s: State, d: Device): State {
    s.(recover := true, suspended := false, handle := NewHandle(d), uart := NewUart(s, d), service := Error)
  }

  function Released(s: State): State {
    if s.claimed then s.(claimed := false, enabled := false, queue := []) else s
  }

  // The worker handles a request; during recovery an Enter opens nothing, and a Leave ends the
  // recovery but not the wish to read.
  function Handled(s: State): State
    requires s.queue != []
  {
    if s.queue[0].Enter? then
      s.(queue := s.queue[1..], open := s.open || !s.recover, executeRead := s.executeRead || !s.recover)
    else s.(queue := s.queue[1..], open := false, executeRead := s.executeRead && s.recover, recover := false)
  }

  // It looks for a lost device.
  function Sought(s: State, d: Device): State {
    if Answers(d) then Recovered(s, d) else s.(handle := NewHandle(d), uart := NewUart(s, d))
  }

  // A round of the worker: it does one of these, or starts a read that is due, which the driver
  // may refuse.
  function Woken(s: State, d: Device, starts: bool): State {
    if s.suspended then s
    else if s.queue != [] then Handled(s)
    else if s.recover then Sought(s, d)
    else s.(executeRead := s.executeRead && !starts)
  }

  // What both kinds of worker do with a transfer: save it, or lose the device if the last error
  // is one; then fire, which disables the device after a Data event if asked to.
  function Transferred(s: State, asData: bool): State {
    s.(recover := s.recover || s.lastError,
       service := if s.lastError then Error else s.service,
       handle := if s.lastError then Null else s.handle,
       enabled := s.enabled && !(asData && s.autoDisable))
  }

  // A read of a serial port ends: its callback sets the last error, whatever the worker does.
  function AfterSerialRead(s: State, error: bool, asData: bool): State {
    if s.suspended || s.recover || !s.uart || !s.open then s.(lastError := error)
    else
      var seen := s.(lastError := error, executeRead := true);
      if s.enabled then Transferred(seen, asData) else seen
  }

  // A read over USB ends: fetching the tracks sets the last error to success.
  function AfterUsbRead(s: State, hasData: bool, asData: bool): State {
    if s.suspended || s.recover || s.uart || !s.open then s
    else
      var seen := s.(lastError := s.lastError && !s.enabled, executeRead := true);
      if s.enabled && hasData then Transferred(seen, asData) else seen
  }

  // Opening up to the wait, and closing behind it.
  function OpenBegun(s: State, d: Device): State {
    var ok := d.Found? && d.opens;
    s.(service := Idle, autoDisable := false, enabled := false, uart := NewUart(s, d),
       handle := if d.Missing? then s.handle else if ok then Live else Null,
       queue := if ok then s.queue + [Enter] else s.queue,
       caller := if ok then Opening else s.caller)
  }

  function CloseEnded(s: State): State { Released(s).(handle := Null, service := Closed, caller := Out) }

  function Suspended(s: State): State { s.(suspended := true, handle := if s.open then Null else s.handle) }

  function Resumed(s: State, d: Device): State {
    if !s.open then s.(suspended := false) else if Answers(d) then Recovered(s, d) else NotRecovered(s, d)
  }

  function Next(s: State, step: Step): State
    requires Possible(s, step)
  {
    match step
    case OpenBegins(d) => OpenBegun(s, d)
    case OpenEnds => s.(caller := Running)
    case CloseBegins => s.(queue := s.queue + [Leave], caller := Closing)
    case CloseEnds => CloseEnded(s)
    case Claim(locked) => s.(claimed := s.claimed || locked)
    case Release => Released(s)
    case ClearInput => if s.claimed then s.(queue := []) else s
    case SetEnabled(on) => if s.claimed then s.(enabled := on) else s
    case SetAutoDisable(on) => s.(autoDisable := on)
    case Wake(d, starts) => Woken(s, d, starts)
    case SerialRead(error, asData) => AfterSerialRead(s, error, asData)
    case UsbRead(hasData, asData) => AfterUsbRead(s, hasData, asData)
    case Suspend => Suspended(s)
    case Resume(d) => Resumed(s, d)
  }

  // ----- What every run keeps -----

  predicate Safe(s: State) {
    && (s.recover ==> s.open && s.service == Error)
    && (s.open && !s.recover && !s.suspended ==> s.handle == Live)
    && (s.enabled ==> s.claimed)
  }

  // What is queued, and what the worker has reached, at each place of the caller; `late` if the
  // caller may have gone on before its Enter was handled.
  predicate InStep(s: State, late: bool) {
    match s.caller
    case Out => s.queue == [] && !s.open && s.handle == Null
    case Opening => if s.open then s.queue == [] else s.queue == [Enter] && s.handle == Live
    case Running =>
      || (s.queue == [] && (s.open || late))
      || (late && s.queue == [Enter] && !s.open && s.handle == Live)
    case Closing =>
      || s.queue == (if s.open then [Leave] else [])
      || (late && !s.open && (s.queue == [Leave] || (s.queue == [Enter, Leave] && s.handle == Live)))
  }

  lemma CallKeeps(s: State, step: Step, late: bool)
    requires Possible(s, step) && Safe(s) && InStep(s, late)
    requires !step.OpenBegins? && !step.CloseEnds? && !step.Wake? && !step.SerialRead? && !step.UsbRead?
    requires !step.Suspend? && !step.Resume?
    ensures Safe(Next(s, step)) && InStep(Next(s, step), late)
  {
  }

  lemma OpenKeeps(s: State, d: Device, late: bool)
    requires s.caller == Out && Safe(s) && InStep(s, late)
    ensures Safe(OpenBegun(s, d)) && InStep(OpenBegun(s, d), late)
  {
  }

  lemma CloseKeeps(s: State, late: bool)
    requires s.caller == Closing && s.queue == [] && Safe(s) && InStep(s, late)
    ensures Safe(CloseEnded(s)) && InStep(CloseEnded(s), late)
  {
  }

  lemma RequestKeeps(s: State, d: Device, starts: bool, late: bool)
    requires Safe(s) && InStep(s, late) && s.queue != []
    ensures Safe(Woken(s, d, starts)) && InStep(Woken(s, d, starts), late)
  {
    assert s.queue[1..] == [] || s.queue[1..] == [Leave];
  }

  lemma WakeKeeps(s: State, d: Device, starts: bool, late: bool)
    requires Safe(s) && InStep(s, late)
    ensures Safe(Woken(s, d, starts)) && InStep(Woken(s, d, starts), late)
  {
    if s.queue != [] {
      RequestKeeps(s, d, starts, late);
    }
  }

  lemma SerialReadKeeps(s: State, error: bool, asData: bool, late: bool)
    requires Safe(s) && InStep(s, late)
    ensures var s' := AfterSerialRead(s, error, asData); Safe(s') && InStep(s', late)
  {
  }

  lemma UsbReadKeeps(s: State, hasData: bool, asData: bool, late: bool)
    requires Safe(s) && InStep(s, late)
    ensures var s' := AfterUsbRead(s, hasData, asData); Safe(s') && InStep(s', late)
  {
  }

  lemma SuspendKeeps(s: State, late: bool)
    requires Safe(s) && InStep(s, late)
    ensures Safe(Suspended(s)) && InStep(Suspended(s), late)
  {
  }

  lemma ResumeKeeps(s: State, d: Device, late: bool)
    requires Safe(s) && InStep(s, late)
    ensures Safe(Resumed(s, d)) && InStep(Resumed(s, d), late)
  {
  }

  lemma StepKeeps(s: State, step: Step, late: bool)
    requires Possible(s, step) && Safe(s) && InStep(s, late)
    ensures Safe(Next(s, step)) && InStep(Next(s, step), late)
  {
    match step
    case OpenBegins(d) => OpenKeeps(s, d, late);
    case CloseEnds => CloseKeeps(s, late);
    case Wake(d, starts) => WakeKeeps(s, d, starts, late);
    case SerialRead(error, asData) => SerialReadKeeps(s, error, asData, late);
    case UsbRead(hasData, asData) => UsbReadKeeps(s, hasData, asData, late);
    case Suspend => SuspendKeeps(s, late);
    case Resume(d) => ResumeKeeps(s, d, late);
    case _ => CallKeeps(s, step, late);
  }

  // The states a run goes through are s and those after each of its steps.
  predicate Runs(s: State, steps: seq<Step>)
    decreases |steps|
  {
    steps == [] || (Possible(s, steps[0]) && Runs(Next(s, steps[0]), steps[1..]))
  }

  function After(s: State, steps: seq<Step>): State
    requires Runs(s, steps)
    decreases |steps|
  {
    if steps == [] then s else After(Next(s, steps[0]), steps[1..])
  }

  lemma {:induction false} EveryRunSafe(s: State, steps: seq<Step>)
    requires Runs(s, steps) && Safe(s) && InStep(s, false)
    ensures Safe(After(s, steps)) && InStep(After(s, steps), false)
    decreases |steps|
  {
    if steps != [] {
      StepKeeps(s, steps[0], false);
      EveryRunSafe(Next(s, steps[0]), steps[1..]);
    }
  }

  // From the start, in every reachable state.
  ghost predicate Reachable(s: State) { exists steps :: Runs(START, steps) && After(START, steps) == s }

  lemma ReachableIsSafe(s: State)
    requires Reachable(s)
    ensures Safe(s) && InStep(s, false)
  {
    var steps :| Runs(START, steps) && After(START, steps) == s;
    EveryRunSafe(START, steps);
  }

  // A waiting call can go on after the next wake-up exactly when the machine is not suspended.
  lemma WakeUnblocks(s: State, d: Device, starts: bool)
    requires Reachable(s) && s.queue != []
    ensures s.caller == Opening || s.caller == Closing
    ensures Possible(Woken(s, d, starts), if s.caller == Opening then OpenEnds else CloseEnds) <==> !s.suspended
  {
    ReachableIsSafe(s);
  }

  // ----- When the worker starts to recover -----

  predicate StartsRecovery(s: State, step: Step)
    requires Possible(s, step)
  {
    !s.recover && Next(s, step).recover
  }

  // A resume of an open reader that does not find it.
  predicate Misses(s: State, step: Step) { step.Resume? && s.open && !s.recover && !Answers(step.device) }

  // A serial read that fails while the reader is in use.
  predicate FailsInUse(s: State, step: Step) {
    && step.SerialRead? && step.error
    && s.uart && s.open && s.enabled && !s.suspended && !s.recover
  }

  lemma UsbReadStartsNone(s: State, hasData: bool, asData: bool)
    ensures AfterUsbRead(s, hasData, asData).recover == s.recover && AfterUsbRead(s, hasData, asData).uart == s.uart
  {
  }

  lemma RequestStartsNone(s: State)
    requires s.queue != []
    ensures (Handled(s).recover ==> s.recover) && Handled(s).uart == s.uart
  {
  }

  lemma SeekStartsNone(s: State, d: Device)
    ensures (Sought(s, d).recover ==> s.recover) && Sought(s, d).uart == NewUart(s, d)
  {
  }

  lemma WakeStartsNone(s: State, d: Device, starts: bool)
    ensures Woken(s, d, starts).recover ==> s.recover
    ensures Woken(s, d, starts).uart == s.uart || (d.Found? && Woken(s, d, starts).uart == d.uart)
  {
    SeekStartsNone(s, d);
    if s.queue != [] {
      RequestStartsNone(s);
    }
  }

  // The step of the run-level result below. A recovery has one of two causes; a read over USB is
  // none, whatever the last error was, because this is reset before it is tested.
  lemma RecoveryStartsExactly(s: State, step: Step)
    requires Possible(s, step)
    ensures StartsRecovery(s, step) <==> Misses(s, step) || FailsInUse(s, step)
  {
    match step
    case UsbRead(hasData, asData) => UsbReadStartsNone(s, hasData, asData);
    case SerialRead(_, _) => {}
    case Resume(_) => {}
    case Wake(d, starts) => WakeStartsNone(s, d, starts);
    case _ => {}
  }

  predicate NoSerialPort(step: Step) {
    match step
    case OpenBegins(d) => d.Found? ==> !d.uart
    case Wake(d, _) => d.Found? ==> !d.uart
    case Resume(d) => d.Found? ==> !d.uart
    case _ => true
  }

  lemma NeverSerial(s: State, step: Step)
    requires Possible(s, step) && !s.uart && NoSerialPort(step)
    ensures !Next(s, step).uart
  {
    match step
    case UsbRead(hasData, asData) => UsbReadStartsNone(s, hasData, asData);
    case Wake(d, starts) => WakeStartsNone(s, d, starts);
    case _ => {}
  }

  predicate EverRecovers(s: State, steps: seq<Step>)
    requires Runs(s, steps)
    decreases |steps|
  {
    steps != [] && (StartsRecovery(s, steps[0]) || EverRecovers(Next(s, steps[0]), steps[1..]))
  }

  predicate EverMisses(s: State, steps: seq<Step>)
    requires Runs(s, steps)
    decreases |steps|
  {
    steps != [] && (Misses(s, steps[0]) || EverMisses(Next(s, steps[0]), steps[1..]))
  }

  // Over every run without a serial port, the worker starts to recover somewhere exactly when
  // some resume of an open reader does not find it.
  lemma {:induction false} UsbNeedsResume(s: State, steps: seq<Step>)
    requires Runs(s, steps) && !s.uart && forall i :: 0 <= i < |steps| ==> NoSerialPort(steps[i])
    ensures EverRecovers(s, steps) <==> EverMisses(s, steps)
    decreases |steps|
  {
    if steps != [] {
      assert NoSerialPort(steps[0]);
      NeverSerial(s, steps[0]);
      RecoveryStartsExactly(s, steps[0]);
      UsbNeedsResume(Next(s, steps[0]), steps[1..]);
    }
  }

  // ----- What a step leaves as it is -----

  // What is the same in both, but for what the worker of an open reader does.
  predicate SameCaller(s: State, s': State) { s'.open == s.open && s'.queue == s.queue && s'.caller == s.caller }

  predicate SameWish(s: State, s': State) { s'.recover == s.recover && s'.executeRead == s.executeRead }

  lemma SerialReadFrame(s: State, error: bool, asData: bool)
    ensures var s' := AfterSerialRead(s, error, asData); SameCaller(s, s') && (!s.open || s.recover ==> SameWish(s, s'))
  {
  }

  lemma UsbReadFrame(s: State, hasData: bool, asData: bool)
    ensures var s' := AfterUsbRead(s, hasData, asData); SameCaller(s, s') && (!s.open || s.recover ==> SameWish(s, s'))
  {
  }

  lemma ResumeFrame(s: State, d: Device)
    ensures var s' := Resumed(s, d);
            SameCaller(s, s') && (!s.open ==> SameWish(s, s')) && (s'.recover ==> s'.executeRead == s.executeRead)
  {
  }

  // Whether the reader is open changes in the worker only, and so does what it does while closed.
  lemma StepFrame(s: State, step: Step)
    requires Possible(s, step) && !step.Wake?
    ensures var s' := Next(s, step);
            && s'.open == s.open && (!s.open ==> SameWish(s, s'))
            && (step.Release? || step.ClearInput? ==> s'.queue == if s.claimed then [] else s.queue)
            && (!step.Release? && !step.ClearInput? && !step.OpenBegins? && !step.CloseBegins? && !step.CloseEnds? ==>
                  s'.queue == s.queue)
            && (!step.OpenBegins? && !step.OpenEnds? && !step.CloseBegins? && !step.CloseEnds? ==>
              s'.caller == s.caller)
  {
    match step
    case SerialRead(error, asData) => SerialReadFrame(s, error, asData);
    case UsbRead(hasData, asData) => UsbReadFrame(s, hasData, asData);
    case Resume(d) => ResumeFrame(s, d);
    case _ =>
  }

  lemma SoughtFrame(s: State, d: Device)
    ensures var s' := Sought(s, d);
            && s'.queue == s.queue && s'.caller == s.caller && (s.open ==> s'.open)
            && (s.recover && s'.recover ==> SameWish(s, s'))
  {
  }

  // A round of the worker that handles nothing.
  lemma IdleFrame(s: State, d: Device, starts: bool)
    requires !s.suspended && s.queue == []
    ensures Woken(s, d, starts) == if s.recover then Sought(s, d) else s.(executeRead := s.executeRead && !starts)
  {
  }

  // ----- Calls that do not wait for their answer -----

  // The wait for a request ends after two seconds, handled or not.
  function GivesUpClosing(s: State): State { CloseEnded(s) }

  // A suspended machine only hides it: after a resume that misses the reader and another open
  // the service looks idle while the worker recovers.
  lemma UnsafeRun(t: State) returns (steps: seq<Step>)
    requires t.open && t.handle == Null && t.service == Closed && t.caller == Out
    ensures Runs(t, steps) && !Safe(After(t, steps))
  {
    if !Safe(t) {
      return [];
    }
    steps := [Resume(Missing), OpenBegins(Missing)];
    var resumed := Next(t, Resume(Missing));
    var again := Next(resumed, OpenBegins(Missing));
    assert steps[1..] == [OpenBegins(Missing)] && steps[1..][1..] == [];
    assert Runs(again, []) && After(again, []) == again;
    assert Runs(resumed, [OpenBegins(Missing)]) && After(resumed, [OpenBegins(Missing)]) == again;
  }

  // A close that goes on leaves the reader open on a null handle exactly when Leave had not been
  // handled, and every run from there on is safe exactly when it had. If the device was claimed,
  // Leave is dropped and will not be handled any more.
  lemma CloseWithoutAnswer(s: State)
    requires Reachable(s) && s.caller == Closing
    ensures GivesUpClosing(s).open && GivesUpClosing(s).handle == Null <==> s.queue != []
    ensures (forall steps :: Runs(GivesUpClosing(s), steps) ==> Safe(After(GivesUpClosing(s), steps)))
            <==> s.queue == []
    ensures s.queue != [] && s.claimed ==> GivesUpClosing(s).queue == []
  {
    ReachableIsSafe(s);
    var t := GivesUpClosing(s);
    if s.queue == [] {
      forall steps | Runs(t, steps)
        ensures Safe(After(t, steps))
      {
        EveryRunSafe(t, steps);
      }
    } else {
      var steps := UnsafeRun(t);
      assert Runs(GivesUpClosing(s), steps);
    }
  }

  // A step as before, or an open that goes on although Enter has not been handled.
  datatype Turn = Goes(step: Step) | OpenGivesUp

  predicate TurnPossible(s: State, turn: Turn) { if turn.Goes? then Possible(s, turn.step) else s.caller == Opening }

  function NextTurn(s: State, turn: Turn): State
    requires TurnPossible(s, turn)
  {
    if turn.Goes? then Next(s, turn.step) else s.(caller := Running)
  }

  predicate TurnsRun(s: State, turns: seq<Turn>)
    decreases |turns|
  {
    turns == [] || (TurnPossible(s, turns[0]) && TurnsRun(NextTurn(s, turns[0]), turns[1..]))
  }

  function AfterTurns(s: State, turns: seq<Turn>): State
    requires TurnsRun(s, turns)
    decreases |turns|
  {
    if turns == [] then s else AfterTurns(NextTurn(s, turns[0]), turns[1..])
  }

  lemma TurnKeeps(s: State, turn: Turn)
    requires TurnPossible(s, turn) && Safe(s) && InStep(s, true)
    ensures Safe(NextTurn(s, turn)) && InStep(NextTurn(s, turn), true)
  {
    if turn.Goes? {
      StepKeeps(s, turn.step, true);
    }
  }

  // However many opens do not wait, every run stays safe as long as the closes do.
  lemma {:induction false} OpenWithoutAnswer(s: State, turns: seq<Turn>)
    requires TurnsRun(s, turns) && Safe(s) && InStep(s, true)
    ensures Safe(AfterTurns(s, turns)) && InStep(AfterTurns(s, turns), true)
    decreases |turns|
  {
    if turns != [] {
      TurnKeeps(s, turns[0]);
      OpenWithoutAnswer(NextTurn(s, turns[0]), turns[1..]);
    }
  }

  // Running, but its Enter is gone: the service is open for the application, not for the worker.
  predicate Shut(s: State) { s.caller == Running && s.queue == [] && !s.open && !s.recover }

  predicate Awaits(s: State) {
    (s.caller == Opening || s.caller == Running) && s.queue == [Enter] && !s.open && !s.recover
  }

  predicate Opened(s: State) { (s.caller == Opening || s.caller == Running) && s.queue == [] && s.open }

  // A release or ClearInput of a claimed device while a request waits.
  predicate Drops(s: State, turn: Turn) {
    (turn == Goes(Release) || turn == Goes(ClearInput)) && s.claimed && s.queue != []
  }

  predicate EverDrops(s: State, turns: seq<Turn>)
    requires TurnsRun(s, turns)
    decreases |turns|
  {
    turns != [] && (Drops(s, turns[0]) || EverDrops(NextTurn(s, turns[0]), turns[1..]))
  }

  lemma StaysShut(s: State, turn: Turn)
    requires TurnPossible(s, turn) && Shut(s) && turn != Goes(CloseBegins)
    ensures Shut(NextTurn(s, turn)) && !Drops(s, turn)
  {
    if !turn.step.Wake? {
      StepFrame(s, turn.step);
    }
  }

  lemma StaysOpened(s: State, turn: Turn)
    requires TurnPossible(s, turn) && Safe(s) && InStep(s, true) && Opened(s) && turn != Goes(CloseBegins)
    ensures Opened(NextTurn(s, turn)) && !Drops(s, turn)
  {
    if turn.Goes? {
      if turn.step.Wake? {
        SoughtFrame(s, turn.step.device);
      } else {
        StepFrame(s, turn.step);
      }
    }
  }

  lemma AwaitsOrNot(s: State, turn: Turn)
    requires TurnPossible(s, turn) && Awaits(s) && turn != Goes(CloseBegins)
    ensures var s' := NextTurn(s, turn); if Drops(s, turn) then Shut(s') else Awaits(s') || Opened(s')
    ensures s.caller == Opening && turn != OpenGivesUp ==> NextTurn(s, turn).caller == Opening && !Drops(s, turn)
  {
    if turn.Goes? && !turn.step.Wake? {
      StepFrame(s, turn.step);
    }
  }

  // Once Enter is dropped, the reader stays shut until the application closes it.
  lemma {:induction false} EnterDropped(s: State, turns: seq<Turn>)
    requires TurnsRun(s, turns) && Shut(s) && Goes(CloseBegins) !in turns
    ensures Shut(AfterTurns(s, turns)) && !EverDrops(s, turns)
    decreases |turns|
  {
    if turns != [] {
      StaysShut(s, turns[0]);
      EnterDropped(NextTurn(s, turns[0]), turns[1..]);
    }
  }

  lemma {:induction false} NeverShut(s: State, turns: seq<Turn>)
    requires TurnsRun(s, turns) && Safe(s) && InStep(s, true) && Opened(s) && Goes(CloseBegins) !in turns
    ensures Opened(AfterTurns(s, turns)) && !EverDrops(s, turns)
    decreases |turns|
  {
    if turns != [] {
      StaysOpened(s, turns[0]);
      TurnKeeps(s, turns[0]);
      NeverShut(NextTurn(s, turns[0]), turns[1..]);
    }
  }

  lemma {:induction false} ShutIfDropped(s: State, turns: seq<Turn>)
    requires TurnsRun(s, turns) && Safe(s) && InStep(s, true) && Awaits(s) && Goes(CloseBegins) !in turns
    ensures Shut(AfterTurns(s, turns)) <==> EverDrops(s, turns)
    ensures s.caller == Opening && EverDrops(s, turns) ==> OpenGivesUp in turns
    decreases |turns|
  {
    if turns != [] {
      var s', rest := NextTurn(s, turns[0]), turns[1..];
      AwaitsOrNot(s, turns[0]);
      TurnKeeps(s, turns[0]);
      if Shut(s') {
        EnterDropped(s', rest);
      } else if Opened(s') {
        NeverShut(s', rest);
      } else {
        ShutIfDropped(s', rest);
      }
    }
  }

  // From an open until the next close, in every run in which opens may go on early, the reader is
  // shut exactly when a request of a claimed device was dropped since, which takes an open that
  // went on early.
  lemma ShutExactly(before: seq<Turn>, turns: seq<Turn>)
    requires TurnsRun(START, before) && AfterTurns(START, before).caller == Opening
    requires TurnsRun(AfterTurns(START, before), turns) && Goes(CloseBegins) !in turns
    ensures var s := AfterTurns(START, before);
            && (Shut(AfterTurns(s, turns)) <==> EverDrops(s, turns))
            && (EverDrops(s, turns) ==> OpenGivesUp in turns)
  {
    OpenWithoutAnswer(START, before);
    var s := AfterTurns(START, before);
    if s.open {
      NeverShut(s, turns);
    } else {
      ShutIfDropped(s, turns);
    }
  }

  // ----- Reads without a device -----

  // The worker's next wake-up starts a read.
  predicate Reads(s: State) { !s.suspended && !s.recover && s.queue == [] && s.executeRead }

  // Unless it is just being closed, the worker reads from a device that is there exactly when
  // it is open.
  lemma ReadsFromDevice(s: State)
    requires Reachable(s) && Reads(s) && s.caller != Closing
    ensures s.handle == Live <==> s.open
    ensures !s.open ==> s.handle == Null
  {
    ReachableIsSafe(s);
  }

  // A worker that is being closed goes on reading exactly when Leave is handled during recovery
  // while a read is due.
  lemma ReadsAfterLeave(s: State, d: Device, starts: bool)
    requires Reachable(s) && s.queue == [Leave] && !s.suspended
    ensures !Woken(s, d, starts).open
    ensures Reads(Woken(s, d, starts)) <==> s.recover && s.executeRead
  {
    ReachableIsSafe(s);
  }

  predicate Handles(s: State, step: Step) { step.Wake? && !s.suspended && s.queue != [] }

  predicate StartsRead(s: State, step: Step) { step.Wake? && step.starts && Reads(s) }

  // The worker handles Leave during recovery, while a read is due.
  predicate KeepsDue(s: State, step: Step) { Handles(s, step) && s.queue[0].Leave? && s.recover && s.executeRead }

  // No request is handled, and no read starts.
  predicate Quiet(s: State, steps: seq<Step>)
    requires Runs(s, steps)
    decreases |steps|
  {
    steps == [] || (!Handles(s, steps[0]) && !StartsRead(s, steps[0]) && Quiet(Next(s, steps[0]), steps[1..]))
  }

  // Somewhere the worker keeps a read due, and it is quiet from there on.
  predicate LeftReading(s: State, steps: seq<Step>)
    requires Runs(s, steps)
    decreases |steps|
  {
    && steps != []
    && var s', rest := Next(s, steps[0]), steps[1..];
       (KeepsDue(s, steps[0]) && Quiet(s', rest)) || LeftReading(s', rest)
  }

  lemma RequestKeepsDue(s: State)
    requires Safe(s) && s.queue != []
    ensures Handled(s).executeRead && !Handled(s).open <==> s.queue[0].Leave? && s.recover && s.executeRead
  {
  }

  lemma DueAfterIdle(s: State, d: Device, starts: bool)
    requires Safe(s) && (s.suspended || s.queue == [])
    ensures Woken(s, d, starts).executeRead && !Woken(s, d, starts).open
       <==> s.executeRead && !s.open && !(starts && Reads(s))
  {
    if !s.suspended {
      IdleFrame(s, d, starts);
      SoughtFrame(s, d);
    }
  }

  lemma DueAfter(s: State, step: Step)
    requires Possible(s, step) && Safe(s)
    ensures Next(s, step).executeRead && !Next(s, step).open
       <==> KeepsDue(s, step) || (s.executeRead && !s.open && !Handles(s, step) && !StartsRead(s, step))
  {
    if Handles(s, step) {
      assert Next(s, step) == Handled(s);
      RequestKeepsDue(s);
    } else if step.Wake? {
      DueAfterIdle(s, step.device, step.starts);
    } else {
      StepFrame(s, step);
    }
  }

  lemma {:induction false} DueWhenShut(s: State, steps: seq<Step>)
    requires Runs(s, steps) && Safe(s) && InStep(s, false) && !After(s, steps).open
    ensures After(s, steps).executeRead <==> LeftReading(s, steps) || (s.executeRead && !s.open && Quiet(s, steps))
    decreases |steps|
  {
    if steps != [] {
      StepKeeps(s, steps[0], false);
      DueAfter(s, steps[0]);
      DueWhenShut(Next(s, steps[0]), steps[1..]);
    }
  }

  // Over every run, the worker of a reader that is closed reads at its next wake-up exactly when
  // the machine is not suspended and Leave was handled during a recovery while a read was due,
  // and nothing was handled or read since; it then reads from a null handle.
  lemma ClosedReadsExactly(steps: seq<Step>)
    requires Runs(START, steps) && After(START, steps).caller == Out
    ensures var s := After(START, steps); s.handle == Null && (Reads(s) <==> !s.suspended && LeftReading(START, steps))
  {
    EveryRunSafe(START, steps);
    DueWhenShut(START, steps);
  }

  // A recovery starts with a read that failed, or when no read is under way.
  predicate StartsDue(s: State, step: Step)
    requires Possible(s, step)
  {
    StartsRecovery(s, step) && (FailsInUse(s, step) || s.executeRead)
  }

  predicate StaysRecovering(s: State, steps: seq<Step>)
    requires Runs(s, steps)
    decreases |steps|
  {
    s.recover && (steps == [] || StaysRecovering(Next(s, steps[0]), steps[1..]))
  }

  // Such a recovery starts somewhere and is not over.
  predicate RecoversDue(s: State, steps: seq<Step>)
    requires Runs(s, steps)
    decreases |steps|
  {
    && steps != []
    && var s', rest := Next(s, steps[0]), steps[1..];
       (StartsDue(s, steps[0]) && StaysRecovering(s', rest)) || RecoversDue(s', rest)
  }

  lemma RequestInRecovery(s: State)
    requires s.queue != [] && Handled(s).recover
    ensures s.recover && Handled(s).executeRead == s.executeRead
  {
  }

  lemma FailedRead(s: State, error: bool, asData: bool)
    requires !s.recover && AfterSerialRead(s, error, asData).recover
    ensures FailsInUse(s, SerialRead(error, asData)) && AfterSerialRead(s, error, asData).executeRead
  {
  }

  lemma WakeInRecovery(s: State, d: Device, starts: bool)
    requires Woken(s, d, starts).recover
    ensures s.recover && Woken(s, d, starts).executeRead == s.executeRead
  {
    if !s.suspended {
      if s.queue != [] {
        RequestInRecovery(s);
      } else {
        IdleFrame(s, d, starts);
        SoughtFrame(s, d);
      }
    }
  }

  lemma StepInRecovery(s: State, step: Step)
    requires Possible(s, step) && !step.Wake? && s.recover && Next(s, step).recover
    ensures Next(s, step).executeRead == s.executeRead
  {
    match step
    case SerialRead(error, asData) => SerialReadFrame(s, error, asData);
    case UsbRead(hasData, asData) => UsbReadFrame(s, hasData, asData);
    case Resume(d) => ResumeFrame(s, d);
    case _ =>
  }

  lemma RecoveryBegins(s: State, step: Step)
    requires Possible(s, step) && StartsRecovery(s, step)
    ensures Next(s, step).executeRead <==> StartsDue(s, step)
  {
    RecoveryStartsExactly(s, step);
    if Misses(s, step) {
      ResumeFrame(s, step.device);
    } else {
      FailedRead(s, step.error, step.asData);
    }
  }

  lemma DueInRecovery(s: State, step: Step)
    requires Possible(s, step) && Next(s, step).recover
    ensures Next(s, step).executeRead <==> if s.recover then s.executeRead else StartsDue(s, step)
  {
    if step.Wake? {
      WakeInRecovery(s, step.device, step.starts);
    } else if s.recover {
      StepInRecovery(s, step);
    } else {
      RecoveryBegins(s, step);
    }
  }

  lemma {:induction false} DueFrom(s: State, steps: seq<Step>)
    requires Runs(s, steps) && After(s, steps).recover
    ensures After(s, steps).executeRead <==> RecoversDue(s, steps) || (s.executeRead && StaysRecovering(s, steps))
    decreases |steps|
  {
    if steps != [] {
      var s' := Next(s, steps[0]);
      if s'.recover {
        DueInRecovery(s, steps[0]);
      }
      DueFrom(s', steps[1..]);
    }
  }

  // During a recovery a read is due exactly when the recovery started with a failed read, or when
  // no read was under way.
  lemma DueExactly(steps: seq<Step>)
    requires Runs(START, steps) && After(START, steps).recover
    ensures After(START, steps).executeRead <==> RecoversDue(START, steps)
  {
    DueFrom(START, steps);
  }

  // It reads although no device is open.
  const CLOSED_IN_RECOVERY: seq<Step> := [
    OpenBegins(Found(true, true, true)), Wake(Missing, false), OpenEnds, Claim(true), SetEnabled(true),
    SerialRead(true, false), CloseBegins, Wake(Missing, false), CloseEnds]

  predicate LeadsTo(run: seq<Step>, s: State) { Runs(START, run) && After(START, run) == s }

  lemma {:induction false} Extends(s: State, run: seq<Step>, step: Step)
    requires Runs(s, run) && Possible(After(s, run), step)
    ensures Runs(s, run + [step]) && After(s, run + [step]) == Next(After(s, run), step)
    decreases |run|
  {
    if run == [] {
      assert [] + [step] == [step];
    } else {
      assert (run + [step])[1..] == run[1..] + [step];
      Extends(Next(s, run[0]), run[1..], step);
    }
  }

  lemma Extended(run: seq<Step>, s: State, step: Step) returns (run': seq<Step>, s': State)
    requires LeadsTo(run, s) && Possible(s, step)
    ensures run' == run + [step] && s' == Next(s, step) && LeadsTo(run', s')
  {
    run', s' := run + [step], Next(s, step);
    Extends(START, run, step);
  }

  lemma ReadFails() returns (run: seq<Step>, s: State)
    ensures run == CLOSED_IN_RECOVERY[..6] && LeadsTo(run, s)
    ensures s == State(true, true, false, true, Null, true, [], Error, true, true, false, true, Running)
  {
    run, s := [], START;
    run, s := Extended(run, s, OpenBegins(Found(true, true, true)));
    run, s := Extended(run, s, Wake(Missing, false));
    run, s := Extended(run, s, OpenEnds);
    run, s := Extended(run, s, Claim(true));
    run, s := Extended(run, s, SetEnabled(true));
    run, s := Extended(run, s, SerialRead(true, false));
  }

  lemma ReadsWithoutDevice()
    ensures Runs(START, CLOSED_IN_RECOVERY)
    ensures var s := After(START, CLOSED_IN_RECOVERY); s.service == Closed && s.handle == Null && Reads(s)
  {
    var run, s := ReadFails();
    run, s := Extended(run, s, CloseBegins);
    run, s := Extended(run, s, Wake(Missing, false));
    run, s := Extended(run, s, CloseEnds);
    assert run == CLOSED_IN_RECOVERY;
  }

  // ----- The class -----

  class Msr {
    var open: bool
    var recover: bool
    var suspended: bool
    var executeRead: bool
    var handle: Handle
    var uart: bool
    var queue: seq<Request>
    var service: Service
    var claimed: bool
    var enabled: bool
    var autoDisable: bool
    var lastError: bool
    ghost var caller: Caller

    ghost function Abstract(): State
      reads this
    {
      State(open, recover, suspended, executeRead, handle, uart, queue, service, claimed, enabled, autoDisable,
            lastError, caller)
    }

    constructor ()
      ensures Abstract() == START
    {
      open, recover, suspended, executeRead := false, false, false, false;
      handle, uart, queue, service := Null, false, [], Closed;
      claimed, enabled, autoDisable, lastError, caller := false, false, false, false, Out;
    }

    method OpenDevice(d: Device) returns (ok: bool)
      modifies `uart, `handle
      ensures ok == (d.Found? && d.opens)
      ensures uart == (if d.Found? then d.uart else old(uart))
      ensures handle == if d.Missing? then old(handle) else if d.opens then Live else Null
    {
      if d.Missing? {
        return false;
      }
      uart := d.uart;
      ok := d.opens;
      handle := if ok then Live else Null;
    }

    method OpenService(d: Device) returns (opening: bool)
      requires caller == Out
      modifies this
      ensures Abstract() == OpenBegun(old(Abstract()), d) && opening == (caller == Opening)
    {
      service, autoDisable, enabled := Idle, false, false;
      opening := OpenDevice(d);
      if opening {
        queue := queue + [Enter];
        caller := Opening;
      }
    }

    method OpenServiceEnds()
      requires Possible(Abstract(), OpenEnds)
      modifies `caller
      ensures Abstract() == Next(old(Abstract()), OpenEnds)
    {
      caller := Running;
    }

    method Close()
      requires Possible(Abstract(), CloseBegins)
      modifies `queue, `caller
      ensures Abstract() == Next(old(Abstract()), CloseBegins)
    {
      queue := queue + [Leave];
      caller := Closing;
    }

    method ReleaseDevice() returns (ok: bool)
      modifies `claimed, `enabled, `queue
      ensures ok == old(claimed) && Abstract() == Released(old(Abstract()))
    {
      ok := claimed;
      if claimed {
        if enabled {
          enabled := false;
        }
        queue := [];
        claimed := false;
      }
    }

    method CloseServiceEnds()
      requires Possible(Abstract(), CloseEnds)
      modifies this
      ensures Abstract() == CloseEnded(old(Abstract()))
    {
      handle := Null;
      if claimed {
        var _ := ReleaseDevice();
      }
      service, caller := Closed, Out;
    }

    method ClaimDevice(locked: bool)
      requires Possible(Abstract(), Step.Claim(locked))
      modifies `claimed
      ensures Abstract() == Next(old(Abstract()), Step.Claim(locked))
    {
      if !claimed {
        if locked {
          claimed := true;
        }
      }
    }

    method ClearInputQueue() returns (ok: bool)
      requires Possible(Abstract(), ClearInput)
      modifies `queue
      ensures ok == claimed && Abstract() == Next(old(Abstract()), ClearInput)
    {
      ok := claimed;
      if claimed {
        queue := [];
      }
    }

    method SetDeviceEnabled(on: bool) returns (ok: bool)
      requires Possible(Abstract(), SetEnabled(on))
      modifies `enabled
      ensures ok == claimed && Abstract() == Next(old(Abstract()), SetEnabled(on))
    {
      if !claimed {
        return false;
      }
      enabled, ok := on, true;
    }

    method FindOpenEnterOpos(d: Device) returns (ok: bool)
      modifies `handle, `uart
      ensures ok == Answers(d) && handle == NewHandle(d) && uart == NewUart(old(Abstract()), d)
    {
      if handle != Null {
        handle := Null;
      }
      if d.Missing? {
        return false;
      }
      uart := d.uart;
      if !uart {
        handle := if d.opens then Live else Null;
      } else {
        handle := if d.opens then Live else Invalid;
      }
      if handle == Null {
        return false;
      }
      ok := true;
      if uart {
        ok := handle == Live && d.accepts;
      }
    }

    method Normal(starts: bool)
      requires !suspended && !recover
      modifies `queue, `open, `executeRead
      ensures old(queue) != [] ==> Abstract() == Handled(old(Abstract()))
      ensures old(queue) == [] ==> Abstract() == old(Abstract()).(executeRead := old(executeRead) && !starts)
    {
      if queue != [] {
        var request := queue[0];
        queue := queue[1..];
        match request
        case Enter => open, executeRead := true, true;
        case Leave => open, executeRead := false, false;
      } else if executeRead {
        if starts {
          executeRead := false;
        }
      }
    }

    method SeekDevice(d: Device)
      requires !suspended && recover
      modifies this
      ensures Abstract() == Sought(old(Abstract()), d)
    {
      var ok := FindOpenEnterOpos(d);
      if ok {
        open, recover, service := true, false, Idle;
        if !executeRead {
          executeRead := true;
        }
      }
    }

    method Abnormal(d: Device)
      requires !suspended && recover
      modifies this
      ensures Abstract() == if old(queue) != [] then Handled(old(Abstract())) else Sought(old(Abstract()), d)
    {
      if queue != [] {
        var request := queue[0];
        queue := queue[1..];
        match request
        case Enter =>
        case Leave => open, recover := false, false;
      } else {
        SeekDevice(d);
      }
    }

    // One round of the worker when it was woken or timed out.
    method WorkerWakes(d: Device, starts: bool)
      modifies this
      ensures Abstract() == Woken(old(Abstract()), d, starts)
    {
      if !suspended {
        if recover {
          Abnormal(d);
        } else {
          Normal(starts);
        }
      }
    }

    method FinishTransfer(asData: bool)
      modifies `recover, `service, `handle, `enabled
      ensures Abstract() == Transferred(old(Abstract()), asData)
    {
      if lastError {
        recover, service, handle := true, Error, Null;
      }
      if asData {
        if autoDisable {
          enabled := false;
        }
      }
    }

    // The callback of a serial read and the round of the worker behind it.
    method SerialReadDone(error: bool, asData: bool)
      modifies this
      ensures Abstract() == AfterSerialRead(old(Abstract()), error, asData)
    {
      lastError := error;
      if !suspended && !recover && uart && open {
        if enabled {
          FinishTransfer(asData);
        }
        if !executeRead {
          executeRead := true;
        }
      }
    }

    // The round of the worker behind a swipe over USB.
    method UsbReadDone(hasData: bool, asData: bool)
      modifies this
      ensures Abstract() == AfterUsbRead(old(Abstract()), hasData, asData)
    {
      if !suspended && !recover && !uart && open {
        if enabled {
          lastError := false;
          if hasData {
            FinishTransfer(asData);
          }
        }
        if !executeRead {
          executeRead := true;
        }
      }
    }

    method PowerSuspend()
      modifies `suspended, `handle
      ensures Abstract() == Suspended(old(Abstract()))
    {
      suspended := true;
      if open {
        handle := Null;
      }
    }

    method PowerResume(d: Device)
      modifies this
      ensures Abstract() == Resumed(old(Abstract()), d)
    {
      suspended := false;
      if open {
        var ok := FindOpenEnterOpos(d);
        if ok {
          open, recover, service, executeRead := true, false, Idle, true;
        } else {
          recover, service := true, Error;
        }
      }
    }
  }
}
