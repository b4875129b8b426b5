// The device that all service objects of the electronic lock share, and the calls that wait for
// a key (opos/OposLpu230Lock/SoLock.h and SoLock.cpp). Every public call, every return from a
// wait and every key callback is one step.
module LockShare {
  import opened Wrappers
  import opened Bytes
  import opened Events

  type So = nat
  type Waiter = nat

  datatype Handle = Null | Invalid | Live

  // What a service object itself holds: whether its device is enabled, the last key it was told
  // of, and how many events it has fired.
  datatype Lock = Lock(enabled: bool, key: seq<byte>, fired: nat)

  // How the device is acquired by the first open.
  datatype Acquisition = NoDevice | NotOpened(handle: Handle) | NotEnabled | NoWait | Acquired(index: nat)

  // What the callback finds, and whether waiting for the next key can be set up again.
  datatype KeyResult = Key(value: seq<byte>) | CancelledElsewhere | Failed

  datatype Share = Share(
    counter: nat, members: set<So>, handle: Handle,
    armed: bool, index: int, key: seq<byte>,
    queue: seq<Waiter>, issued: nat, signalled: seq<Waiter>, timedOut: seq<Waiter>,
    locks: map<So, Lock>, leaked: bool)

  datatype Step =
    | Open(so: So, acquisition: Acquisition) | Close(so: So)
    | SetEnabled(so: So, on: bool)
    | Wait(so: So, anyPosition: bool, frozen: bool) | GiveUp(waiter: Waiter)
    | Callback(result: KeyResult, rearm: Option<nat>)

  // A service object alternates between open and close, and the driver calls back only while a
  // wait for a key is set up.
  predicate Possible(s: Share, step: Step) {
    match step
    case Open(so, a) => so in s.locks && so !in s.members && (a.NotOpened? ==> a.handle != Live)
    case Close(so) => so in s.members
    case SetEnabled(so, _) => so in s.locks
    case Wait(so, _, _) => so in s.locks
    case GiveUp(w) => w < s.issued
    case Callback(_, _) => s.armed
  }

  // ----- Steps -----

  function FirstOpen(s: Share, so: So, a: Acquisition): Share {
    match a
    case NoDevice => s.(leaked := true)
    case NotOpened(h) => s.(handle := h, leaked := true)
    case NotEnabled => s.(handle := Null, leaked := true)
    case NoWait => s.(handle := Null, leaked := true)
    case Acquired(index) => s.(handle := Live, armed := true, index := index, members := s.members + {so})
  }

  function SignalAll(s: Share): Share { s.(queue := [], signalled := s.signalled + s.queue) }

  function Without(q: seq<Waiter>, w: Waiter): seq<Waiter> {
    if q == [] then [] else if q[0] == w then q[1..] else [q[0]] + Without(q[1..], w)
  }

  // A wait is accepted for any position only, and while the share counts as open, the service
  // object is enabled and its events are not frozen.
  predicate Accepts(s: Share, so: So, anyPosition: bool, frozen: bool)
    requires so in s.locks
  {
    anyPosition && s.counter > 0 && s.locks[so].enabled && !frozen
  }

  function Told(l: Lock, key: seq<byte>): Lock { if l.enabled then l.(key := key, fired := l.fired + 1) else l }

  function TellAll(locks: map<So, Lock>, members: set<So>, key: seq<byte>): map<So, Lock> {
    map so | so in locks :: if so in members then Told(locks[so], key) else locks[so]
  }

  function Rearmed(s: Share, rearm: Option<nat>): Share {
    s.(armed := rearm.Some?, index := if rearm.Some? then rearm.value else -1)
  }

  function Closed(s: Share, so: So): Share {
    var left := s.(members := s.members - {so}, counter := if s.counter > 0 then s.counter - 1 else 0);
    if s.counter != 1 then left else SignalAll(left).(handle := Null, armed := false)
  }

  function Next(s: Share, step: Step): Share
    requires Possible(s, step)
  {
    match step
    case Open(so, a) =>
      var counted := s.(counter := s.counter + 1);
      if s.counter > 0 then counted.(members := s.members + {so}) else FirstOpen(counted, so, a)
    case Close(so) => Closed(s, so)
    case SetEnabled(so, on) =>
      var lock := s.locks[so];
      s.(locks := s.locks[so := lock.(enabled := on, key := if on then [] else lock.key)])
    case Wait(so, anyPosition, frozen) =>
      if Accepts(s, so, anyPosition, frozen) then s.(queue := s.queue + [s.issued], issued := s.issued + 1) else s
    case GiveUp(w) =>
      if w in s.queue then s.(queue := Without(s.queue, w), timedOut := s.timedOut + [w]) else s
    case Callback(result, rearm) =>
      match result
      case Failed => s.(armed := false)
      case CancelledElsewhere => Rearmed(s, rearm)
      case Key(value) => Rearmed(SignalAll(s).(key := value, locks := TellAll(s.locks, s.members, value)), rearm)
  }

  // ----- The device -----

  predicate Shared(s: Share) {
    && s.counter == |s.members| + (if s.leaked then 1 else 0)
    && (s.handle == Live <==> s.counter > 0 && !s.leaked)
    && (s.armed ==> s.handle == Live)
    && s.members <= s.locks.Keys
  }

  function Start(locks: map<So, Lock>): Share {
    Share(0, {}, Null, false, -1, [], [], 0, [], [], locks, false)
  }

  // The open that fails to acquire the device.
  predicate FailsFirst(s: Share, step: Step) { step.Open? && s.counter == 0 && !step.acquisition.Acquired? }

  lemma OpenShared(s: Share, so: So, a: Acquisition)
    requires Shared(s) && Possible(s, Open(so, a))
    ensures Shared(Next(s, Open(so, a)))
    ensures Next(s, Open(so, a)).leaked <==> s.leaked || FailsFirst(s, Open(so, a))
  {
  }

  lemma CloseShared(s: Share, so: So)
    requires Shared(s) && so in s.members
    ensures Shared(Closed(s, so)) && Closed(s, so).leaked == s.leaked
  {
  }

  lemma RestShared(s: Share, step: Step)
    requires Shared(s) && Possible(s, step) && !step.Open? && !step.Close?
    ensures Shared(Next(s, step)) && Next(s, step).leaked == s.leaked
  {
  }

  // Every step keeps the count right, and the only one that lets it run ahead of the set of
  // service objects is a first open that fails.
  lemma StepShared(s: Share, step: Step)
    requires Shared(s) && Possible(s, step)
    ensures Shared(Next(s, step))
    ensures Next(s, step).leaked <==> s.leaked || FailsFirst(s, step)
  {
    if step.Open? {
      OpenShared(s, step.so, step.acquisition);
    } else if step.Close? {
      CloseShared(s, step.so);
    } else {
      RestShared(s, step);
    }
  }

  // ----- The waiters -----

  function Numbers(n: nat): seq<Waiter> { seq(n, i => i) }

  ghost predicate Sorted(queue: seq<Waiter>, signalled: seq<Waiter>, timedOut: seq<Waiter>, issued: nat) {
    && multiset(queue) + multiset(signalled) + multiset(timedOut) == multiset(Numbers(issued))
    && Increasing(signalled + queue)
  }

  // Every wait that was ever accepted is queued, signalled or timed out, exactly once; the
  // queue and the signals are in the order of arrival.
  ghost predicate Orderly(s: Share) { Sorted(s.queue, s.signalled, s.timedOut, s.issued) }

  lemma {:induction false} GiveUpRemovesOnly(q: seq<Waiter>, w: Waiter)
    returns (before: seq<Waiter>, behind: seq<Waiter>)
    requires w in q
    ensures q == before + [w] + behind && Without(q, w) == before + behind && w !in before
  {
    if q[0] == w {
      before, behind := [], q[1..];
    } else {
      before, behind := GiveUpRemovesOnly(q[1..], w);
      before := [q[0]] + before;
    }
  }

  lemma DropOne(all: seq<Waiter>, k: nat)
    requires k < |all| && Increasing(all)
    ensures Increasing(all[..k] + all[k + 1..])
  {
    var left := all[..k] + all[k + 1..];
    forall i, j | 0 <= i < j < |left|
      ensures left[i] < left[j]
    {
      assert left[i] == all[if i < k then i else i + 1] && left[j] == all[if j < k then j else j + 1];
    }
  }

  lemma TimeOutKeepsOrder(before: seq<Waiter>, w: Waiter, behind: seq<Waiter>, signalled: seq<Waiter>)
    requires Increasing(signalled + (before + [w] + behind))
    ensures Increasing(signalled + (before + behind))
  {
    var all, k := signalled + (before + [w] + behind), |signalled| + |before|;
    DropOne(all, k);
    assert all[..k] == signalled + before && all[k + 1..] == behind;
    assert signalled + (before + behind) == all[..k] + all[k + 1..];
  }

  lemma TimeOutKeepsAll(before: seq<Waiter>, w: Waiter, behind: seq<Waiter>, timedOut: seq<Waiter>)
    ensures multiset(before + behind) + multiset(timedOut + [w]) == multiset(before + [w] + behind) + multiset(timedOut)
  {
  }

  lemma TimeOutKeepsSorted(q: seq<Waiter>, signalled: seq<Waiter>, timedOut: seq<Waiter>, issued: nat, w: Waiter)
    requires w in q && Sorted(q, signalled, timedOut, issued)
    ensures Sorted(Without(q, w), signalled, timedOut + [w], issued)
  {
    var before, behind := GiveUpRemovesOnly(q, w);
    TimeOutKeepsOrder(before, w, behind, signalled);
    TimeOutKeepsAll(before, w, behind, timedOut);
  }

  lemma NumbersHold(n: nat, w: Waiter)
    ensures w in multiset(Numbers(n)) <==> w < n
    ensures multiset(Numbers(n + 1)) == multiset(Numbers(n)) + multiset{n}
  {
    assert Numbers(n + 1) == Numbers(n) + [n];
    assert w < n ==> Numbers(n)[w] == w;
  }

  lemma WaitKeepsSorted(q: seq<Waiter>, signalled: seq<Waiter>, timedOut: seq<Waiter>, issued: nat)
    requires Sorted(q, signalled, timedOut, issued)
    ensures Sorted(q + [issued], signalled, timedOut, issued + 1)
  {
    var all := signalled + q;
    if all != [] {
      var last := all[|all| - 1];
      assert last in signalled || last in q;
      assert last in multiset(q) + multiset(signalled) + multiset(timedOut);
      NumbersHold(issued, last);
    }
    NumbersHold(issued, 0);
    IncreasingPush(all, issued);
    assert signalled + (q + [issued]) == all + [issued];
  }

  lemma SignalKeepsSorted(q: seq<Waiter>, signalled: seq<Waiter>, timedOut: seq<Waiter>, issued: nat)
    requires Sorted(q, signalled, timedOut, issued)
    ensures Sorted([], signalled + q, timedOut, issued)
  {
    assert signalled + q + [] == signalled + q;
  }

  lemma SignalsOrNot(s: Share, step: Step)
    requires Possible(s, step) && !step.Wait? && !step.GiveUp?
    ensures var s' := Next(s, step);
            && s'.timedOut == s.timedOut && s'.issued == s.issued
            && ((s'.queue == s.queue && s'.signalled == s.signalled)
                || (s'.queue == [] && s'.signalled == s.signalled + s.queue))
  {
  }

  lemma RestKeepsOrderly(s: Share, step: Step)
    requires Orderly(s) && Possible(s, step) && !step.Wait? && !step.GiveUp?
    ensures Orderly(Next(s, step))
  {
    SignalsOrNot(s, step);
    if Next(s, step).queue != s.queue || Next(s, step).signalled != s.signalled {
      SignalKeepsSorted(s.queue, s.signalled, s.timedOut, s.issued);
    }
  }

  lemma StepOrderly(s: Share, step: Step)
    requires Orderly(s) && Possible(s, step)
    ensures Orderly(Next(s, step))
  {
    if step.Wait? {
      WaitKeepsSorted(s.queue, s.signalled, s.timedOut, s.issued);
    } else if step.GiveUp? {
      if step.waiter in s.queue {
        TimeOutKeepsSorted(s.queue, s.signalled, s.timedOut, s.issued, step.waiter);
      }
    } else {
      RestKeepsOrderly(s, step);
    }
  }

  // ----- Every run -----

  predicate Runs(s: Share, steps: seq<Step>)
    decreases |steps|
  {
    steps == [] || (Possible(s, steps[0]) && Runs(Next(s, steps[0]), steps[1..]))
  }

  function After(s: Share, steps: seq<Step>): Share
    requires Runs(s, steps)
    decreases |steps|
  {
    if steps == [] then s else After(Next(s, steps[0]), steps[1..])
  }

  // A first open fails somewhere in the run.
  predicate EverFails(s: Share, steps: seq<Step>)
    requires Runs(s, steps)
    decreases |steps|
  {
    steps != [] && (FailsFirst(s, steps[0]) || EverFails(Next(s, steps[0]), steps[1..]))
  }

  lemma {:induction false} RunFrom(s: Share, steps: seq<Step>)
    requires Runs(s, steps) && Shared(s) && Orderly(s)
    ensures Shared(After(s, steps)) && Orderly(After(s, steps))
    ensures After(s, steps).leaked <==> s.leaked || EverFails(s, steps)
    decreases |steps|
  {
    if steps != [] {
      StepShared(s, steps[0]);
      StepOrderly(s, steps[0]);
      RunFrom(Next(s, steps[0]), steps[1..]);
    }
  }

  // The counter is the number of service objects, and the device is open while it is positive,
  // exactly when no first open ever failed.
  lemma EveryRun(locks: map<So, Lock>, steps: seq<Step>)
    requires Runs(Start(locks), steps)
    ensures Orderly(After(Start(locks), steps))
    ensures var s := After(Start(locks), steps);
            s.counter == |s.members| && (s.handle == Live <==> s.counter > 0) <==> !EverFails(Start(locks), steps)
  {
    RunFrom(Start(locks), steps);
  }

  // After a first open that failed no later one acquires the device, whatever is opened and
  // closed, and nobody who waits is ever signalled.
  lemma {:induction false} LeakIsForever(s: Share, steps: seq<Step>)
    requires Runs(s, steps) && Shared(s) && s.leaked
    ensures var r := After(s, steps);
            && r.leaked && r.counter > 0 && r.handle != Live && !r.armed && r.signalled == s.signalled
            && Shared(r)
    decreases |steps|
  {
    if steps != [] {
      StepShared(s, steps[0]);
      assert steps[0].Close? ==> steps[0].so in s.members && |s.members| > 0;
      LeakIsForever(Next(s, steps[0]), steps[1..]);
    }
  }

  // Closing is not refused to the object whose open failed. Whatever the others did meanwhile,
  // its close makes the counter the number of members again, and still no device is open; if
  // nobody else is a member the share is as before.
  lemma FailedOpenThenClose(s: Share, so: So, a: Acquisition, steps: seq<Step>)
    requires Shared(s) && s.counter == 0 && Possible(s, Open(so, a)) && !a.Acquired?
    requires Runs(Next(s, Open(so, a)), steps) && so !in After(Next(s, Open(so, a)), steps).members
    ensures var r := After(Next(s, Open(so, a)), steps);
            var c := Closed(r, so);
            && c.counter == |c.members| && c.members == r.members && c.handle != Live
            && (c.members == {} ==> c.counter == 0 && c.handle == Null && c.queue == [])
  {
    OpenShared(s, so, a);
    LeakIsForever(Next(s, Open(so, a)), steps);
    var r := After(Next(s, Open(so, a)), steps);
    assert r.members - {so} == r.members;
  }

  // The last service object closes somewhere in the run.
  predicate LastCloses(s: Share, steps: seq<Step>)
    requires Runs(s, steps)
    decreases |steps|
  {
    steps != [] && ((steps[0].Close? && s.counter == 1) || LastCloses(Next(s, steps[0]), steps[1..]))
  }

  // Without a wait for a key that is set up, nobody is signalled and no key is reported until
  // the last close.
  lemma {:induction false} DeafUntilLastClose(s: Share, steps: seq<Step>)
    requires Runs(s, steps) && !s.armed && s.counter > 0 && !LastCloses(s, steps)
    ensures var r := After(s, steps); !r.armed && r.counter > 0 && r.signalled == s.signalled && r.key == s.key
    decreases |steps|
  {
    if steps != [] {
      DeafUntilLastClose(Next(s, steps[0]), steps[1..]);
    }
  }

  // A callback that ends in an error other than a cancellation does not set up the next wait, and
  // after a key or a cancellation that may fail.
  predicate Silences(step: Step) { step.Callback? && (step.result.Failed? || step.rearm.None?) }

  // Such a callback is in the run.
  predicate EverSilenced(s: Share, steps: seq<Step>)
    requires Runs(s, steps)
    decreases |steps|
  {
    steps != [] && (Silences(steps[0]) || EverSilenced(Next(s, steps[0]), steps[1..]))
  }

  lemma {:induction false} ArmedUnlessSilenced(s: Share, steps: seq<Step>)
    requires Runs(s, steps) && s.armed && s.counter > 0 && !LastCloses(s, steps)
    ensures After(s, steps).armed <==> !EverSilenced(s, steps)
    decreases |steps|
  {
    if steps != [] {
      if Silences(steps[0]) {
        DeafUntilLastClose(Next(s, steps[0]), steps[1..]);
      } else {
        ArmedUnlessSilenced(Next(s, steps[0]), steps[1..]);
      }
    }
  }

  // From the open that acquires the device until the last close, a wait for a key is set up
  // exactly as long as there was no such callback.
  lemma SilencedExactly(s: Share, so: So, index: nat, steps: seq<Step>)
    requires s.counter == 0 && Possible(s, Open(so, Acquired(index)))
    requires Runs(Next(s, Open(so, Acquired(index))), steps) && !LastCloses(Next(s, Open(so, Acquired(index))), steps)
    ensures var acquired := Next(s, Open(so, Acquired(index)));
            After(acquired, steps).armed <==> !EverSilenced(acquired, steps)
  {
    ArmedUnlessSilenced(Next(s, Open(so, Acquired(index))), steps);
  }

  // From it on nobody is signalled and no key is reported before the last close.
  lemma DeafAfterCallback(s: Share, step: Step, steps: seq<Step>)
    requires Shared(s) && Possible(s, step) && Silences(step)
    requires Runs(Next(s, step), steps) && !LastCloses(Next(s, step), steps)
    ensures var r := After(Next(s, step), steps);
            !r.armed && r.signalled == Next(s, step).signalled && r.key == Next(s, step).key
  {
    DeafUntilLastClose(Next(s, step), steps);
  }

  // ----- The class -----

  lemma {:induction false} WithoutAt(q: seq<Waiter>, k: nat)
    requires k < |q| && q[k] !in q[..k]
    ensures Without(q, q[k]) == q[..k] + q[k + 1..]
  {
    if k > 0 {
      assert q[0] in q[..k] && q[1..][..k - 1] == q[..k][1..];
      WithoutAt(q[1..], k - 1);
      assert q[..k] == [q[0]] + q[1..][..k - 1];
    }
  }

  lemma {:induction false} NotThere(q: seq<Waiter>, w: Waiter)
    requires w !in q
    ensures Without(q, w) == q
  {
    if q != [] {
      NotThere(q[1..], w);
    }
  }

  class CShare {
    var openCounter: nat
    var setSo: set<So>
    var handle: Handle
    var resultBufferIndex: int
    var keyValue: seq<byte>
    var queue: seq<Waiter>
    var issued: nat
    var locks: map<So, Lock>
    ghost var armed: bool
    ghost var signalled: seq<Waiter>
    ghost var timedOut: seq<Waiter>
    ghost var leaked: bool

    ghost function Abstract(): Share
      reads this
    {
      Share(openCounter, setSo, handle, armed, resultBufferIndex, keyValue, queue, issued, signalled, timedOut, locks,
            leaked)
    }

    constructor (locks: map<So, Lock>)
      ensures Abstract() == Start(locks)
    {
      openCounter, setSo, handle, resultBufferIndex := 0, {}, Null, -1;
      keyValue, queue, issued, this.locks := [], [], 0, locks;
      armed, signalled, timedOut, leaked := false, [], [], false;
    }

    // The private open and close: is this the first, or the last?
    method CountOpen() returns (first: bool)
      modifies `openCounter
      ensures openCounter == old(openCounter) + 1 && first == (old(openCounter) == 0)
    {
      first := openCounter == 0;
      openCounter := openCounter + 1;
    }

    method CountClose() returns (last: bool)
      modifies `openCounter
      ensures openCounter == (if old(openCounter) > 0 then old(openCounter) - 1 else 0)
              && last == (old(openCounter) == 1)
    {
      last := false;
      if openCounter > 0 {
        if openCounter == 1 {
          last := true;
        }
        openCounter := openCounter - 1;
      }
    }

    method LockOpen(so: So, a: Acquisition) returns (ok: bool)
      requires Possible(Abstract(), Open(so, a))
      modifies this
      ensures Abstract() == Next(old(Abstract()), Open(so, a)) && ok == (so in setSo)
    {
      var first := CountOpen();
      if !first {
        setSo := setSo + {so};
        return true;
      }
      match a
      case NoDevice => leaked, ok := true, false;
      case NotOpened(h) => handle, leaked, ok := h, true, false;
      case NotEnabled => handle, leaked, ok := Null, true, false;
      case NoWait => handle, leaked, ok := Null, true, false;
      case Acquired(index) =>
        handle, resultBufferIndex, armed := Live, index, true;
        setSo := setSo + {so};
        ok := true;
    }

    // Signals everybody who waits, the first to come first.
    method SignalQueue()
      modifies `queue, `signalled
      ensures queue == [] && signalled == old(signalled) + old(queue)
    {
      ghost var n := 0;
      while queue != []
        invariant n <= |old(queue)| && queue == old(queue)[n..] && signalled == old(signalled) + old(queue)[..n]
        decreases |queue|
      {
        signalled := signalled + [queue[0]];
        queue := queue[1..];
        n := n + 1;
      }
    }

    method LockClose(so: So)
      modifies this
      ensures Abstract() == Closed(old(Abstract()), so)
    {
      var last := CountClose();
      if last {
        SignalQueue();
      }
      setSo := setSo - {so};
      if last {
        handle, armed := Null, false;
      }
    }

    method RemoveFromQueue(w: Waiter)
      modifies `queue
      ensures queue == Without(old(queue), w)
    {
      var k := 0;
      while k < |queue| && queue[k] != w
        invariant k <= |queue| && w !in queue[..k]
      {
        assert queue[..k + 1] == queue[..k] + [queue[k]];
        k := k + 1;
      }
      if k < |queue| {
        WithoutAt(queue, k);
        queue := queue[..k] + queue[k + 1..];
      } else {
        assert queue[..k] == queue;
        NotThere(queue, w);
      }
    }

    method SetEnable(so: So, on: bool)
      requires so in locks
      modifies `locks
      ensures Abstract() == Next(old(Abstract()), SetEnabled(so, on))
    {
      var lock := locks[so];
      if on {
        lock := lock.(key := []);
      }
      locks := locks[so := lock.(enabled := on)];
    }

    // WaitForKeylockChange up to the wait.
    method WaitBegins(so: So, anyPosition: bool, frozen: bool) returns (waiter: Option<Waiter>)
      requires so in locks
      modifies `queue, `issued
      ensures Abstract() == Next(old(Abstract()), Wait(so, anyPosition, frozen))
      ensures waiter == if Accepts(old(Abstract()), so, anyPosition, frozen) then Some(old(issued)) else None
    {
      waiter := None;
      if anyPosition {
        if openCounter > 0 {
          if locks[so].enabled {
            if !frozen {
              waiter := Some(issued);
              queue := queue + [issued];
              issued := issued + 1;
            }
          }
        }
      }
    }

    // WaitForKeylockChange when the time is up.
    method WaitTimesOut(w: Waiter)
      requires w < issued
      modifies `queue, `timedOut
      ensures Abstract() == Next(old(Abstract()), GiveUp(w))
    {
      if w in queue {
        timedOut := timedOut + [w];
      } else {
        NotThere(queue, w);
      }
      RemoveFromQueue(w);
    }

    method TellMembers(value: seq<byte>)
      requires setSo <= locks.Keys
      modifies `locks
      ensures locks == TellAll(old(locks), setSo, value)
    {
      var rest := setSo;
      while rest != {}
        invariant rest <= setSo && locks == TellAll(old(locks), setSo - rest, value)
        decreases |rest|
      {
        var so :| so in rest;
        if locks[so].enabled {
          locks := locks[so := locks[so].(key := value, fired := locks[so].fired + 1)];
        }
        rest := rest - {so};
      }
      assert setSo - rest == setSo;
    }

    method Rearm(rearm: Option<nat>)
      modifies `resultBufferIndex, `armed
      ensures Abstract() == Rearmed(old(Abstract()), rearm)
    {
      if rearm.Some? {
        resultBufferIndex, armed := rearm.value, true;
      } else {
        resultBufferIndex, armed := -1, false;
      }
    }

    method KeyCallback(result: KeyResult, rearm: Option<nat>)
      requires armed && setSo <= locks.Keys
      modifies this
      ensures Abstract() == Next(old(Abstract()), Callback(result, rearm))
    {
      armed := false;
      match result
      case Failed =>
      case CancelledElsewhere => Rearm(rearm);
      case Key(value) =>
        keyValue := value;
        SignalQueue();
        TellMembers(value);
        Rearm(rearm);
    }
  }
}
