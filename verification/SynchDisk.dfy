/** filesys/synchdisk.cc over threads/synch.cc and the request side of machine/disk.cc: any number of
    threads share a disk that takes one request at a time and answers by an interrupt. */
module SynchDisks {
  import opened Semaphores
  import opened Locks

  type RequestId = nat

  datatype Point =
    | Idle
    | Enter              // in lock->Acquire, ReadSector or WriteSector
    | Issue              // lock held, about to make the request
    | Wait(id: RequestId)   // in semaphore->P, about to test
    | Sleeping(id: RequestId) // in the semaphore's queue
    | Leave(id: RequestId)  // in lock->Release

  /** `issued` counts requests made, which also numbers them; `completed` lists the requests whose callback
      has run; `active` is the device's own flag, and `pending` the request whose interrupt is scheduled. */
  datatype State = State(
    lock: Lock,
    sem: Sem,
    points: map<Tid, Point>,
    active: bool,
    pending: set<RequestId>,
    issued: nat,
    completed: seq<RequestId>)

  function PointOf(s: State, t: Tid): Point {
    if t in s.points then s.points[t] else Idle
  }

  function Goto(s: State, t: Tid, p: Point): (s': State)
    ensures PointOf(s', t) == p
    ensures forall u :: u != t ==> PointOf(s', u) == PointOf(s, u)
    ensures s' == s.(points := s'.points)
  {
    s.(points := s.points[t := p])
  }

  datatype Step =
    | Call(t: Tid)    // ReadSector or WriteSector
    | Advance(t: Tid)
    | Interrupt(id: RequestId)

  predicate CanMove(s: State, t: Tid) {
    !PointOf(s, t).Idle? && !PointOf(s, t).Sleeping? && PhaseOf(s.lock, t) != Asleep
  }

  predicate Enabled(s: State, step: Step) {
    match step
    case Call(t) => PointOf(s, t).Idle?
    case Advance(t) => CanMove(s, t)
    case Interrupt(id) => id in s.pending
  }

  function After(s: State, step: Step): State {
    match step
    case Call(t) => Goto(s, t, Enter).(lock := Locks.Enter(s.lock, t))
    case Interrupt(id) => CallBack(s, id)
    case Advance(t) =>
      match PointOf(s, t)
      case Enter =>
        if PhaseOf(s.lock, t) == Passed then Goto(s, t, Issue).(lock := Take(s.lock, t))
        else s.(lock := Test(s.lock, t))
      case Issue => Request(Goto(s, t, Wait(s.issued)))
      case Wait(id) =>
        Goto(s, t, if s.sem.value == 0 then Sleeping(id) else Leave(id)).(sem := Tested(s.sem, t))
      case Leave(_) =>
        if PhaseOf(s.lock, t) == Inside then s.(lock := Drop(s.lock, t))
        else Goto(s, t, Idle).(lock := Free(s.lock, t))
      case _ => s
  }

  /** Disk::ReadRequest or WriteRequest: it asserts that the disk is not active. */
  function Request(s: State): State {
    s.(active := true, pending := s.pending + {s.issued}, issued := s.issued + 1)
  }

  /** Disk::CallBack, then SynchDisk::CallBack. */
  function CallBack(s: State, id: RequestId): State {
    var s1 := s.(active := false, pending := s.pending - {id}, completed := s.completed + [id]);
    (if s.sem.queue == [] || !PointOf(s, s.sem.queue[0]).Sleeping? then s1
     else Goto(s1, s.sem.queue[0], Wait(PointOf(s, s.sem.queue[0]).id))).(sem := Raised(s.sem))
  }

  // ---- the invariant ----

  predicate InStep(s: State, t: Tid) {
    var ph := PhaseOf(s.lock, t);
    match PointOf(s, t)
    case Idle => ph == Outside
    case Enter => ph.Trying? || ph == Asleep || ph == Passed
    case Issue => ph == Inside
    case Wait(_) => ph == Inside
    case Sleeping(_) => ph == Inside
    case Leave(_) => ph == Inside || ph == Cleared
  }

  /** Past the request, and not yet past the wait for it. */
  predicate Outstanding(s: State, t: Tid) {
    PointOf(s, t).Wait? || PointOf(s, t).Sleeping?
  }

  /** A thread that waits, waits for the last request; the unit that will let it go is either in the semaphore
      or still to come from the device. */
  ghost predicate Waiting(s: State, t: Tid) {
    match PointOf(s, t)
    case Wait(id) => id + 1 == s.issued && s.sem.queue == [] && s.active == (s.sem.value == 0)
    case Sleeping(id) => id + 1 == s.issued && s.sem.queue == [t] && s.active && s.sem.value == 0
    case Leave(id) => id in s.completed
    case _ => true
  }

  ghost predicate Quiescent(s: State) {
    !s.active && s.sem.value == 0 && s.sem.queue == []
  }

  ghost predicate DeviceOk(s: State) {
    && s.pending == (if s.active && s.issued > 0 then {s.issued - 1} else {})
    && (s.active ==> s.issued > 0)
    && s.sem.value <= 1
    && s.completed == seq(if s.active then s.issued - 1 else s.issued, i => i)
  }

  ghost predicate Inv(s: State) {
    && LockInv(s.lock)
    && (forall t :: InStep(s, t))
    && DeviceOk(s)
    && (forall t :: Waiting(s, t))
    && ((forall t :: !Outstanding(s, t)) ==> Quiescent(s))
  }

  ghost predicate Init(s: State) {
    s == State(NEW_LOCK, NewSem(0), map[], false, {}, 0, [])
  }

  lemma InitInv(s: State)
    requires Init(s)
    ensures Inv(s)
  {
    NewLockInv();
  }

  /** Only one thread is between its request and its release. */
  lemma Alone(s: State, t: Tid, u: Tid)
    requires Exclusive(s.lock) && InStep(s, t) && InStep(s, u) && u != t
    requires PointOf(s, t).Issue? || Outstanding(s, t) || PointOf(s, t).Leave?
    ensures !PointOf(s, u).Issue? && !Outstanding(s, u) && !PointOf(s, u).Leave?
  {
    if PointOf(s, u).Issue? || Outstanding(s, u) || PointOf(s, u).Leave? {
      OneHolder(s.lock, t, u);
    }
  }

  // ---- steps on the lock only ----

  ghost predicate SameDevice(s: State, s': State) {
    s'.sem == s.sem && s'.active == s.active && s'.pending == s.pending && s'.issued == s.issued && s'.completed == s.completed
  }

  /** A thread that is not waiting moves to another point at which it is not. */
  lemma LockStepInv(s: State, s': State, t: Tid)
    requires Inv(s) && SameDevice(s, s') && LockInv(s'.lock) && forall u :: InStep(s', u)
    requires forall u :: u != t ==> PointOf(s', u) == PointOf(s, u)
    requires !Outstanding(s, t) && !Outstanding(s', t)
    requires PointOf(s', t).Leave? ==> PointOf(s', t) == PointOf(s, t)
    ensures Inv(s')
  {
    hide LockInv, InStep;
    forall u ensures Waiting(s', u) {
      assert Waiting(s, u);
    }
    if forall u :: !Outstanding(s', u) {
      forall u ensures !Outstanding(s, u) {
        assert !Outstanding(s', u);
      }
    }
  }

  lemma EnterInvs(s: State, step: Step)
    requires Inv(s) && Enabled(s, step)
    requires step.Call? || (step.Advance? && PointOf(s, step.t).Enter?)
    ensures Inv(After(s, step))
  {
    hide LockInv, Waiting, DeviceOk;
    var t, s' := step.t, After(s, step);
    assert InStep(s, t);
    if step.Call? {
      EnterInv(s.lock, t);
    } else if PhaseOf(s.lock, t) == Passed {
      TakeInv(s.lock, t);
    } else {
      TestInv(s.lock, t);
    }
    forall u ensures InStep(s', u) {
      assert InStep(s, u);
    }
    LockStepInv(s, s', t);
  }

  lemma LeaveInv(s: State, t: Tid)
    requires Inv(s) && PointOf(s, t).Leave?
    ensures Inv(After(s, Step.Advance(t)))
  {
    hide LockInv, Waiting, DeviceOk, Free;
    var s' := After(s, Step.Advance(t));
    assert InStep(s, t);
    if PhaseOf(s.lock, t) == Inside {
      DropInv(s.lock, t);
    } else {
      FreeInv(s.lock, t);
    }
    forall u ensures InStep(s', u) {
      assert InStep(s, u);
      if PhaseOf(s.lock, t) == Cleared {
        FreeFrame(s.lock, t, u);
      }
    }
    LockStepInv(s, s', t);
  }

  // ---- steps on the device ----

  lemma IssueInv(s: State, t: Tid)
    requires Inv(s) && PointOf(s, t).Issue?
    ensures Quiescent(s) && Inv(After(s, Step.Advance(t)))
  {
    hide LockInv;
    var s' := After(s, Step.Advance(t));
    forall u | u != t ensures !PointOf(s, u).Issue? && !Outstanding(s, u) && !PointOf(s, u).Leave? {
      Others(s, t, u);
    }
    assert Quiescent(s);
    forall u ensures InStep(s', u) && Waiting(s', u) {
      assert InStep(s, u) && Waiting(s, u);
    }
    assert Outstanding(s', t);
  }

  lemma Others(s: State, t: Tid, u: Tid)
    requires Inv(s) && u != t && (PointOf(s, t).Issue? || Outstanding(s, t) || PointOf(s, t).Leave?)
    ensures !PointOf(s, u).Issue? && !Outstanding(s, u) && !PointOf(s, u).Leave?
  {
    assert InStep(s, t) && InStep(s, u);
    Alone(s, t, u);
  }

  lemma WaitInv(s: State, t: Tid)
    requires Inv(s) && PointOf(s, t).Wait?
    ensures Inv(After(s, Step.Advance(t)))
  {
    hide LockInv;
    var s' := After(s, Step.Advance(t));
    assert Waiting(s, t);
    if s.sem.value > 0 {
      var id := PointOf(s, t).id;
      assert s.completed[id] == id;
    }
    forall u ensures InStep(s', u) && Waiting(s', u) {
      assert InStep(s, u) && Waiting(s, u);
      if u != t {
        Others(s, t, u);
      }
    }
    if s.sem.value == 0 {
      assert Outstanding(s', t);
    }
  }

  lemma InterruptInv(s: State, id: RequestId)
    requires Inv(s) && id in s.pending
    ensures Inv(After(s, Interrupt(id)))
  {
    hide LockInv;
    var s' := After(s, Interrupt(id));
    var t :| Outstanding(s, t);
    assert Waiting(s, t);
    forall u ensures InStep(s', u) && Waiting(s', u) {
      assert InStep(s, u) && Waiting(s, u);
      if u != t {
        Others(s, t, u);
      }
    }
    assert Outstanding(s', t);
  }

  lemma StepInv(s: State, step: Step)
    requires Inv(s) && Enabled(s, step)
    ensures Inv(After(s, step))
  {
    hide Inv, After;
    match step
    case Call(t) => EnterInvs(s, step);
    case Interrupt(id) => InterruptInv(s, id);
    case Advance(t) =>
      match PointOf(s, t)
      case Enter => EnterInvs(s, step);
      case Issue => IssueInv(s, t);
      case Wait(_) => WaitInv(s, t);
      case Leave(_) => LeaveInv(s, t);
      case _ =>
  }

  // ---- whole runs ----

  ghost predicate Run(ss: seq<State>, steps: seq<Step>) {
    && |ss| == |steps| + 1 && Init(ss[0])
    && forall i :: 0 <= i < |steps| ==> Enabled(ss[i], steps[i]) && ss[i + 1] == After(ss[i], steps[i])
  }

  lemma {:induction false} RunInv(ss: seq<State>, steps: seq<Step>, i: nat)
    requires Run(ss, steps) && i <= |steps|
    ensures Inv(ss[i])
  {
    hide Inv, Init, After, Enabled;
    if i == 0 {
      InitInv(ss[0]);
    } else {
      RunInv(ss, steps, i - 1);
      StepInv(ss[i - 1], steps[i - 1]);
    }
  }

  /** The disk is idle whenever a request is made: its ASSERT cannot fail, and no more than one request is ever
      outstanding. */
  lemma OneRequestAtATime(ss: seq<State>, steps: seq<Step>, i: nat)
    requires Run(ss, steps) && i <= |steps|
    ensures |ss[i].pending| <= 1 && (ss[i].active <==> ss[i].pending != {})
    ensures i < |steps| && steps[i].Advance? && PointOf(ss[i], steps[i].t).Issue? ==> !ss[i].active
  {
    hide After, LockInv, InStep;
    RunInv(ss, steps, i);
    if i < |steps| && steps[i].Advance? && PointOf(ss[i], steps[i].t).Issue? {
      IssueInv(ss[i], steps[i].t);
    }
  }

  /** A thread gets past its wait only once the interrupt of its own request has come, and each request is
      completed exactly once, in the order of issue. */
  lemma ReturnsAfterOwnCallBack(ss: seq<State>, steps: seq<Step>, i: nat, t: Tid)
    requires Run(ss, steps) && i <= |steps|
    ensures PointOf(ss[i], t).Leave? ==> PointOf(ss[i], t).id in ss[i].completed
    ensures |ss[i].completed| <= ss[i].issued <= |ss[i].completed| + 1
    ensures forall k :: 0 <= k < |ss[i].completed| ==> ss[i].completed[k] == k
  {
    hide After, LockInv, InStep;
    RunInv(ss, steps, i);
    assert Waiting(ss[i], t);
  }

  /** No wakeup is lost: a thread asleep in its wait has a request whose interrupt is still to come. */
  lemma SleeperWillBeWoken(ss: seq<State>, steps: seq<Step>, i: nat, t: Tid)
    requires Run(ss, steps) && i <= |steps| && PointOf(ss[i], t).Sleeping?
    ensures ss[i].pending == {PointOf(ss[i], t).id} && ss[i].sem.queue == [t]
  {
    hide After, LockInv, InStep;
    RunInv(ss, steps, i);
    assert Waiting(ss[i], t);
  }

  // ---- every call makes one request ----

  /** In ReadSector or WriteSector, before the request. */
  predicate Asking(p: Point) {
    p.Enter? || p.Issue?
  }

  function Askers(s: State): set<Tid> {
    set t | t in s.points && Asking(PointOf(s, t))
  }

  /** This step makes a request. */
  predicate Requests(s: State, step: Step) {
    step.Advance? && PointOf(s, step.t).Issue?
  }

  lemma PointStep(s: State, step: Step, t: Tid)
    requires Enabled(s, step)
    ensures Asking(PointOf(After(s, step), t)) <==>
            if step == Call(t) then true else Asking(PointOf(s, t)) && !(Requests(s, step) && step.t == t)
    ensures step == Call(t) ==> !Asking(PointOf(s, t))
    ensures After(s, step).issued == s.issued + if Requests(s, step) then 1 else 0
    ensures |After(s, step).completed| == |s.completed| + if step.Interrupt? then 1 else 0
  {
    hide Test, Take, Free, Drop, Tested;
  }

  lemma AskersStep(s: State, step: Step)
    requires Enabled(s, step)
    ensures |Askers(After(s, step))| == |Askers(s)| + (if step.Call? then 1 else 0) - (if Requests(s, step) then 1 else 0)
  {
    hide After, Enabled, Asking;
    var s' := After(s, step);
    forall t ensures t in Askers(s') <==> step == Call(t) || (t in Askers(s) && !(Requests(s, step) && step.t == t)) {
      Listed(s, t);
      Listed(s', t);
      PointStep(s, step, t);
    }
    if step.Call? {
      PointStep(s, step, step.t);
      assert Askers(s') == Askers(s) + {step.t};
    } else if Requests(s, step) {
      Listed(s, step.t);
      RequesterAsks(s, step);
      assert Askers(s') == Askers(s) - {step.t};
    } else {
      assert Askers(s') == Askers(s);
    }
  }

  lemma Listed(s: State, t: Tid)
    ensures t in Askers(s) <==> Asking(PointOf(s, t))
  {
  }

  lemma RequesterAsks(s: State, step: Step)
    requires Requests(s, step)
    ensures Asking(PointOf(s, step.t))
  {
  }

  function Calls(steps: seq<Step>, i: nat): nat
    requires i <= |steps|
  {
    if i == 0 then 0 else Calls(steps, i - 1) + if steps[i - 1].Call? then 1 else 0
  }

  function CallBacks(steps: seq<Step>, i: nat): nat
    requires i <= |steps|
  {
    if i == 0 then 0 else CallBacks(steps, i - 1) + if steps[i - 1].Interrupt? then 1 else 0
  }

  /** In every run each call has made one request or has yet to, and each request but the pending one has had its
      one callback. */
  lemma {:induction false} CallsCount(ss: seq<State>, steps: seq<Step>, i: nat)
    requires Run(ss, steps) && i <= |steps|
    ensures Calls(steps, i) == ss[i].issued + |Askers(ss[i])|
    ensures CallBacks(steps, i) == |ss[i].completed| && ss[i].issued == CallBacks(steps, i) + |ss[i].pending|
  {
    hide After, Enabled, Asking, LockInv, InStep, Waiting, Askers;
    if i == 0 {
      NobodyAsks(ss[0]);
    } else {
      CallsCount(ss, steps, i - 1);
      AskersStep(ss[i - 1], steps[i - 1]);
      PointStep(ss[i - 1], steps[i - 1], 0);
    }
    RunInv(ss, steps, i);
  }

  lemma NobodyAsks(s: State)
    requires Init(s)
    ensures Askers(s) == {}
  {
  }

  /** Own steps still to take at most, as long as the thread need not wait. */
  function ToGo(s: State, t: Tid): nat {
    var ph := PhaseOf(s.lock, t);
    match PointOf(s, t)
    case Idle => 0
    case Enter => if ph == Passed then 5 else 6
    case Issue => 4
    case Wait(_) => 3
    case Sleeping(_) => 3
    case Leave(_) => if ph == Cleared then 1 else 2
  }

  /** Each step of a thread brings it nearer to the end of its call, unless it finds the lock taken or its request
      not yet answered and falls asleep. */
  lemma StepProgress(s: State, t: Tid)
    requires InStep(s, t) && CanMove(s, t)
    ensures var p, s' := PointOf(s, t), After(s, Step.Advance(t));
            || ToGo(s', t) < ToGo(s, t)
            || (p.Enter? && PhaseOf(s'.lock, t) == Asleep && s.lock.sem.value == 0)
            || (p.Wait? && PointOf(s', t) == Sleeping(p.id) && s.sem.value == 0)
  {
    hide Goto;
  }
}
