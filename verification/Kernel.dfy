/** threads/scheduler.cc, thread.cc and synch.cc as a machine of atomic steps on one processor. A thread at
    `Code` runs with interrupts enabled, so between any two of its steps an interrupt may raise a
    semaphore or take the processor away; at every other point interrupts are off. */
module Kernels {
  import opened Collections
  import opened Semaphores

  type SemId = nat

  datatype Status = JustCreated | Running | Ready | Blocked

  /** What a suspended thread does once it is switched back to and has cleaned up. */
  datatype Resume = ToCode | ToP(s: SemId)

  datatype Point =
    | Fresh                          // constructed, not forked
    | Start                          // forked; begins in Thread::Begin
    | Code
    | Testing(s: SemId, again: bool) // in P, about to test the value; again: after having slept
    | Sleeping(s: SemId)             // in Thread::Sleep, called by P, looking for a thread to run
    | Finishing                      // in Thread::Sleep, called by Finish
    | Switched(resume: Resume)       // inside Scheduler::Run, at SWITCH
    | Zombie                         // switched away from for good

  datatype Thread = Thread(status: Status, at: Point)

  datatype Kernel = Kernel(
    current: Tid,
    ready: seq<Tid>,
    toBeDestroyed: Option<Tid>,
    threads: map<Tid, Thread>,
    sems: map<SemId, Sem>,
    initial: map<SemId, nat>)

  // ---- the routines ----

  function SetStatus(k: Kernel, t: Tid, status: Status): Kernel
    requires t in k.threads
  {
    k.(threads := k.threads[t := k.threads[t].(status := status)])
  }

  function Goto(k: Kernel, t: Tid, at: Point): Kernel
    requires t in k.threads
  {
    k.(threads := k.threads[t := k.threads[t].(at := at)])
  }

  function ReadyToRun(k: Kernel, t: Tid): Kernel
    requires t in k.threads
  {
    SetStatus(k, t, Ready).(ready := k.ready + [t])
  }

  /** Semaphore::V, by the current thread or by an interrupt handler. */
  function Raise(k: Kernel, s: SemId): Kernel
    requires s in k.sems && forall t <- k.sems[s].queue :: t in k.threads
  {
    var sem := k.sems[s];
    var k1 := if sem.queue == [] then k else ReadyToRun(k, sem.queue[0]);
    k1.(sems := k.sems[s := Raised(sem)])
  }

  /** FindNextToRun and Scheduler::Run up to SWITCH; the current thread will go on at `resume`. */
  function SwitchToFirst(k: Kernel, resume: Point): Kernel
    requires k.current in k.threads && k.ready != [] && k.ready[0] in k.threads
  {
    var next := k.ready[0];
    SetStatus(Goto(k, k.current, resume), next, Running).(ready := k.ready[1..], current := next)
  }

  /** CheckToBeDestroyed */
  function CleanUp(k: Kernel): Kernel {
    match k.toBeDestroyed
    case None => k
    case Some(t) => k.(threads := k.threads - {t}, toBeDestroyed := None)
  }

  // ---- the steps ----

  datatype Step =
    | NewThread(t: Tid)
    | Fork(t: Tid)
    | CallP(s: SemId)
    | Test                 // P's while condition, and what follows it
    | CallV(s: SemId)      // in Code: by the thread itself, or by a handler that interrupts it
    | IdleInterrupt(s: SemId) // a handler run while Sleep idles; one call of Idle may run several
    | Yield                // called by the thread, or on return from the timer interrupt
    | Finish
    | Dispatch             // Sleep finds a thread to run
    | Proceed              // the thread switched to cleans up and goes on

  predicate Enabled(k: Kernel, step: Step)
  {
    && k.current in k.threads
    && (forall t <- k.ready :: t in k.threads)
    && (forall s <- k.sems :: forall t <- k.sems[s].queue :: t in k.threads)
    && var at := k.threads[k.current].at;
       match step
       case NewThread(t) => at == Code && t !in k.threads
       case Fork(t) => at == Code && t in k.threads && k.threads[t].at == Fresh
       case CallP(s) => at == Code && s in k.sems
       case Test => at.Testing? && at.s in k.sems
       case CallV(s) => at == Code && s in k.sems
       case IdleInterrupt(s) => (at.Sleeping? || at == Finishing) && s in k.sems
       case Yield => at == Code
       case Finish => at == Code
       case Dispatch => (at.Sleeping? || at == Finishing) && k.ready != []
       case Proceed => at.Switched? || at == Start
  }

  function After(k: Kernel, step: Step): Kernel
    requires Enabled(k, step)
  {
    var c := k.current;
    match step
    case NewThread(t) => k.(threads := k.threads[t := Thread(JustCreated, Fresh)])
    case Fork(t) => ReadyToRun(Goto(k, t, Start), t)
    case CallP(s) => Goto(k, c, Testing(s, false))
    case Test => AfterTest(k, k.threads[c].at.s)
    case CallV(s) => Raise(k, s)
    case IdleInterrupt(s) => Raise(k, s)
    case Yield => if k.ready == [] then k else SwitchToFirst(ReadyToRun(k, c), Switched(ToCode))
    case Finish => SetStatus(Goto(k, c, Finishing), c, Blocked)
    case Dispatch =>
      if k.threads[c].at == Finishing then SwitchToFirst(k, Zombie).(toBeDestroyed := Some(c))
      else SwitchToFirst(k, Switched(ToP(k.threads[c].at.s)))
    case Proceed => AfterProceed(k)
  }

  function AfterTest(k: Kernel, s: SemId): Kernel
    requires s in k.sems && k.current in k.threads
  {
    var c := k.current;
    (if k.sems[s].value == 0 then SetStatus(Goto(k, c, Sleeping(s)), c, Blocked) else Goto(k, c, Code))
    .(sems := k.sems[s := Tested(k.sems[s], c)])
  }

  /** Where a thread goes once it has been switched to and has cleaned up. */
  function Resumed(at: Point): Point {
    match at
    case Switched(ToP(s)) => Testing(s, true)
    case _ => Code
  }

  /** The rest of Scheduler::Run in the thread switched to, or Thread::Begin. */
  function AfterProceed(k: Kernel): Kernel
    requires k.current in k.threads
  {
    var k1 := CleanUp(k);
    if k.current in k1.threads then Goto(k1, k.current, Resumed(k.threads[k.current].at)) else k1
  }

  // ---- the invariant ----

  /** The semaphore whose P this thread is suspended in. */
  function WaitingOn(at: Point): Option<SemId> {
    match at
    case Sleeping(s) => Some(s)
    case Switched(ToP(s)) => Some(s)
    case _ => None
  }

  predicate Queued(k: Kernel, s: SemId, t: Tid) {
    s in k.sems && t in k.sems[s].queue
  }

  /** A thread's status says in which of the kernel's places it is, and its point agrees. */
  ghost predicate Placed(k: Kernel, t: Tid)
    requires t in k.threads
  {
    var th := k.threads[t];
    && (t in k.ready <==> th.status == Ready)
    && (th.status == JustCreated <==> th.at == Fresh)
    && (th.status == Running <==> t == k.current && (th.at == Start || th.at == Code || th.at.Testing? || th.at.Switched?))
    && (th.status == Ready ==> th.at == Start || th.at.Switched? || (t == k.current && th.at.Sleeping?))
    && (th.status == Blocked && th.at != Finishing && th.at != Zombie ==>
          WaitingOn(th.at).Some? && Queued(k, WaitingOn(th.at).value, t))
    && (th.at == Code || th.at.Testing? || th.at.Sleeping? || th.at == Finishing ==> t == k.current)
    && (th.at == Fresh || th.at == Zombie ==> t != k.current)
    && (th.at == Finishing || th.at == Zombie ==> th.status == Blocked)
    && (th.at == Zombie <==> k.toBeDestroyed == Some(t))
    && (WaitingOn(th.at).Some? ==> WaitingOn(th.at).value in k.sems)
    && (th.at.Testing? ==> th.at.s in k.sems)
  }

  ghost predicate QueueOk(k: Kernel, s: SemId)
    requires s in k.sems
  {
    && NoDuplicates(k.sems[s].queue)
    && forall t <- k.sems[s].queue ::
         t in k.threads && k.threads[t].status == Blocked && WaitingOn(k.threads[t].at) == Some(s)
  }

  ghost predicate Shape(k: Kernel) {
    && k.current in k.threads
    && NoDuplicates(k.ready) && (forall t <- k.ready :: t in k.threads)
    && (forall t <- k.threads :: Placed(k, t))
    && (forall s <- k.sems :: QueueOk(k, s))
    && (k.toBeDestroyed.Some? ==>
          && k.toBeDestroyed.value in k.threads
          && (k.threads[k.current].at.Switched? || k.threads[k.current].at == Start))
  }

  /** Woken by V on s, and yet to test again. */
  predicate Awake(k: Kernel, s: SemId, t: Tid) {
    t in k.threads && (k.threads[t].at == Testing(s, true) || (WaitingOn(k.threads[t].at) == Some(s) && !Queued(k, s, t)))
  }

  function Woken(k: Kernel, s: SemId): set<Tid> {
    set t | t in k.threads && Awake(k, s, t)
  }

  /** While anyone is queued, the value is at most the number of threads woken that have not tested since. */
  ghost predicate NoLostWakeup(k: Kernel) {
    forall s <- k.sems :: k.sems[s].queue != [] ==> k.sems[s].value <= |Woken(k, s)|
  }

  ghost predicate Inv(k: Kernel) {
    Shape(k) && NoLostWakeup(k)
  }

  /** Just booted: the main thread runs, and the semaphores have their initial values. */
  ghost predicate Init(k: Kernel) {
    && k.threads == map[k.current := Thread(Running, Code)] && k.ready == [] && k.toBeDestroyed == None
    && k.sems.Keys == k.initial.Keys && forall s <- k.sems :: k.sems[s] == NewSem(k.initial[s])
  }

  lemma InitInv(k: Kernel)
    requires Init(k)
    ensures Inv(k)
  {
  }

  // ---- Shape is kept, step by step ----

  lemma NewThreadPlaced(k: Kernel, t: Tid, u: Tid)
    requires Shape(k) && Enabled(k, NewThread(t)) && u in After(k, NewThread(t)).threads
    ensures Placed(After(k, NewThread(t)), u)
  {
    assert u != t ==> Placed(k, u);
  }

  lemma NewThreadShape(k: Kernel, t: Tid)
    requires Shape(k) && Enabled(k, NewThread(t))
    ensures Shape(After(k, NewThread(t)))
  {
    hide Placed, NoDuplicates;
    var k' := After(k, NewThread(t));
    forall u | u in k'.threads ensures Placed(k', u) {
      NewThreadPlaced(k, t, u);
    }
    forall s | s in k'.sems ensures QueueOk(k', s) {
      assert QueueOk(k, s);
    }
  }

  lemma ForkPlaced(k: Kernel, t: Tid, u: Tid)
    requires Enabled(k, Fork(t)) && Placed(k, t) && u in k.threads && Placed(k, u)
    ensures Placed(After(k, Fork(t)), u)
  {
  }

  lemma ForkShape(k: Kernel, t: Tid)
    requires Shape(k) && Enabled(k, Fork(t))
    ensures Shape(After(k, Fork(t)))
  {
    var k' := After(k, Fork(t));
    assert Placed(k, t) && Placed(k, k.current);
    WithLast(k.ready, t);
    forall u | u in k'.threads ensures Placed(k', u) {
      ForkPlaced(k, t, u);
    }
    forall s | s in k'.sems ensures QueueOk(k', s) {
      assert QueueOk(k, s);
    }
  }

  // CallP and Finish only change the current thread's point.

  lemma MovePlaced(k: Kernel, step: Step, u: Tid)
    requires Enabled(k, step) && (step.CallP? || step.Finish?)
    requires u in k.threads && Placed(k, u) && Placed(k, k.current)
    ensures Placed(After(k, step), u)
  {
  }

  lemma MoveShape(k: Kernel, step: Step)
    requires Shape(k) && Enabled(k, step) && (step.CallP? || step.Finish?)
    ensures Shape(After(k, step))
  {
    hide NoDuplicates;
    var k' := After(k, step);
    assert Placed(k, k.current);
    forall u | u in k'.threads ensures Placed(k', u) {
      MovePlaced(k, step, u);
    }
    forall s | s in k'.sems ensures QueueOk(k', s) {
      assert QueueOk(k, s);
    }
  }

  lemma TestPlaced(k: Kernel, s: SemId, u: Tid)
    requires k.current in k.threads && Placed(k, k.current) && k.threads[k.current].at.Testing? && s == k.threads[k.current].at.s
    requires u in k.threads && Placed(k, u)
    ensures Placed(AfterTest(k, s), u)
  {
  }

  lemma TestQueue(k: Kernel, s: SemId, r: SemId)
    requires k.current in k.threads && Placed(k, k.current) && k.threads[k.current].at.Testing? && s == k.threads[k.current].at.s
    requires r in k.sems && QueueOk(k, r)
    ensures QueueOk(AfterTest(k, s), r)
  {
    if r == s && k.current !in k.sems[s].queue {
      WithLast(k.sems[s].queue, k.current);
    }
  }

  lemma TestShape(k: Kernel)
    requires Shape(k) && Enabled(k, Test)
    ensures Shape(After(k, Test))
  {
    hide NoDuplicates, Placed, QueueOk;
    var k' := After(k, Test);
    var c := k.current;
    var s := k.threads[c].at.s;
    forall u | u in k'.threads ensures Placed(k', u) {
      assert Placed(k, u);
      TestPlaced(k, s, u);
    }
    forall r | r in k'.sems ensures QueueOk(k', r) {
      assert QueueOk(k, r);
      TestQueue(k, s, r);
    }
  }

  lemma RaisePlaced(k: Kernel, s: SemId, u: Tid)
    requires s in k.sems && QueueOk(k, s) && u in k.threads && Placed(k, u)
    requires k.sems[s].queue != [] ==> Placed(k, k.sems[s].queue[0])
    ensures Placed(Raise(k, s), u)
  {
    if k.sems[s].queue != [] {
      WithoutFirst(k.sems[s].queue);
    }
  }

  lemma RaiseQueue(k: Kernel, s: SemId, r: SemId)
    requires s in k.sems && QueueOk(k, s) && r in k.sems && QueueOk(k, r)
    ensures QueueOk(Raise(k, s), r)
  {
    if k.sems[s].queue != [] {
      WithoutFirst(k.sems[s].queue);
    }
  }

  lemma RaiseShape(k: Kernel, s: SemId)
    requires Shape(k) && s in k.sems && forall t <- k.sems[s].queue :: t in k.threads
    ensures Shape(Raise(k, s))
  {
    var k' := Raise(k, s);
    assert QueueOk(k, s);
    if k.sems[s].queue != [] {
      assert Placed(k, k.sems[s].queue[0]);
      WithLast(k.ready, k.sems[s].queue[0]);
    }
    hide NoDuplicates, Placed;
    forall u | u in k'.threads ensures Placed(k', u) {
      RaisePlaced(k, s, u);
    }
    forall r | r in k'.sems ensures QueueOk(k', r) {
      assert QueueOk(k, r);
      RaiseQueue(k, s, r);
    }
  }

  /** The current thread's point and status can be given up, and the first ready thread run instead. */
  ghost predicate CanSwitch(k: Kernel, resume: Point) {
    && k.current in k.threads && k.ready != [] && NoDuplicates(k.ready) && k.ready[0] in k.threads
    && Placed(k, k.current) && Placed(k, k.ready[0])
    && k.toBeDestroyed == None && k.threads[k.current].status != Running
    && match k.threads[k.current].at
       case Sleeping(s) => resume == Switched(ToP(s))
       case Finishing => resume == Zombie
       case _ => false
  }

  function AfterDispatch(k: Kernel, resume: Point): Kernel
    requires k.current in k.threads && k.ready != [] && k.ready[0] in k.threads
  {
    SwitchToFirst(k, resume).(toBeDestroyed := if resume == Zombie then Some(k.current) else k.toBeDestroyed)
  }

  lemma DispatchPlaced(k: Kernel, resume: Point, u: Tid)
    requires CanSwitch(k, resume) && u in k.threads && Placed(k, u)
    ensures Placed(AfterDispatch(k, resume), u)
  {
    WithoutFirst(k.ready);
  }

  lemma DispatchQueue(k: Kernel, resume: Point, s: SemId)
    requires CanSwitch(k, resume) && s in k.sems && QueueOk(k, s)
    ensures QueueOk(AfterDispatch(k, resume), s)
  {
    hide NoDuplicates;
  }

  function ResumeAt(at: Point): Point {
    match at
    case Sleeping(s) => Switched(ToP(s))
    case _ => Zombie
  }

  lemma MayDispatch(k: Kernel)
    requires Shape(k) && Enabled(k, Dispatch)
    ensures CanSwitch(k, ResumeAt(k.threads[k.current].at)) && NoDuplicates(k.ready[1..])
    ensures After(k, Dispatch) == AfterDispatch(k, ResumeAt(k.threads[k.current].at))
    ensures || k.threads[k.ready[0]].at.Switched? || k.threads[k.ready[0]].at == Start
            || (k.ready[0] == k.current && k.threads[k.current].at != Finishing)
  {
    assert Placed(k, k.current) && Placed(k, k.ready[0]);
    WithoutFirst(k.ready);
  }

  lemma DispatchShape(k: Kernel)
    requires Shape(k) && Enabled(k, Dispatch)
    ensures Shape(After(k, Dispatch))
  {
    hide QueueOk, Placed, NoDuplicates, After, Enabled;
    MayDispatch(k);
    var resume := ResumeAt(k.threads[k.current].at);
    var k' := AfterDispatch(k, resume);
    forall u | u in k'.threads ensures Placed(k', u) {
      DispatchPlaced(k, resume, u);
    }
    forall s | s in k'.sems ensures QueueOk(k', s) {
      DispatchQueue(k, resume, s);
    }
  }

  ghost predicate CanYield(k: Kernel) {
    && k.current in k.threads && k.ready != [] && NoDuplicates(k.ready) && k.ready[0] in k.threads
    && Placed(k, k.current) && Placed(k, k.ready[0]) && k.threads[k.current].at == Code
    && k.toBeDestroyed == None
  }

  function AfterYield(k: Kernel): Kernel
    requires k.current in k.threads && k.ready != [] && k.ready[0] in k.threads
  {
    SwitchToFirst(ReadyToRun(k, k.current), Switched(ToCode))
  }

  lemma YieldPlaced(k: Kernel, u: Tid)
    requires CanYield(k) && u in k.threads && Placed(k, u)
    ensures Placed(AfterYield(k), u)
  {
    WithLast(k.ready, k.current);
    WithoutFirst(k.ready + [k.current]);
  }

  lemma YieldShape(k: Kernel)
    requires Shape(k) && Enabled(k, Yield)
    ensures Shape(After(k, Yield))
  {
    if k.ready != [] {
      var k' := AfterYield(k);
      assert Placed(k, k.current) && Placed(k, k.ready[0]);
      WithLast(k.ready, k.current);
      WithoutFirst(k.ready + [k.current]);
      forall u | u in k'.threads ensures Placed(k', u) {
        YieldPlaced(k, u);
      }
      forall s | s in k'.sems ensures QueueOk(k', s) {
        assert QueueOk(k, s);
      }
    }
  }

  lemma ProceedPlaced(k: Kernel, u: Tid)
    requires Enabled(k, Proceed) && Placed(k, k.current) && u in k.threads && Placed(k, u)
    ensures u in After(k, Proceed).threads ==> Placed(After(k, Proceed), u)
  {
    hide AfterTest, Raise, SwitchToFirst, ReadyToRun;
  }

  lemma ProceedQueue(k: Kernel, s: SemId)
    requires Enabled(k, Proceed) && Placed(k, k.current) && s in k.sems && QueueOk(k, s)
    requires forall t <- k.threads :: Placed(k, t)
    ensures QueueOk(After(k, Proceed), s)
  {
    forall t <- k.sems[s].queue ensures t in After(k, Proceed).threads {
      assert Placed(k, t);
    }
  }

  lemma ProceedShape(k: Kernel)
    requires Shape(k) && Enabled(k, Proceed)
    ensures Shape(After(k, Proceed))
  {
    hide QueueOk, NoDuplicates;
    var k' := After(k, Proceed);
    assert Placed(k, k.current);
    forall t | t in k.ready ensures t in k'.threads {
      assert Placed(k, t);
    }
    forall u | u in k'.threads ensures Placed(k', u) {
      ProceedPlaced(k, u);
    }
    forall s | s in k'.sems ensures QueueOk(k', s) {
      ProceedQueue(k, s);
    }
  }

  // ---- so is the count of woken threads ----

  lemma OneLess(w: set<Tid>, w': set<Tid>, c: Tid)
    requires w - {c} <= w'
    ensures |w| <= |w'| + 1
  {
    assert w <= w' + {c};
    SubsetSize(w, w' + {c});
  }

  /** Only V adds to the threads woken on a semaphore, and only a test takes the tester away. */
  lemma AwakeKept(k: Kernel, step: Step, s: SemId, t: Tid)
    requires Enabled(k, step) && !step.Test? && !step.CallV? && !step.IdleInterrupt?
    requires t in k.threads && Placed(k, t) && Placed(k, k.current) && s in k.sems && QueueOk(k, s)
    ensures Awake(After(k, step), s, t) <==> Awake(k, s, t)
  {
    hide NoDuplicates, AfterTest, Raise, SwitchToFirst;
    if (step.Yield? && k.ready != []) || step.Dispatch? {
      SwitchKeepsAwake(if step.Yield? then ReadyToRun(k, k.current) else k, k, step, s, t);
    }
  }

  /** Switching changes no more than the point of the thread that gives up the processor. */
  lemma SwitchKeepsAwake(k1: Kernel, k: Kernel, step: Step, s: SemId, t: Tid)
    requires Enabled(k, step) && ((step.Yield? && k.ready != []) || step.Dispatch?) && t in k.threads
    requires k1 == if step.Yield? then ReadyToRun(k, k.current) else k
    ensures Awake(After(k, step), s, t) <==> Awake(k, s, t)
  {
    hide NoDuplicates, AfterTest, Raise, AfterProceed, Placed, QueueOk, CleanUp, Resumed;
  }

  lemma WokenKept(k: Kernel, step: Step, s: SemId)
    requires Shape(k) && Enabled(k, step) && s in k.sems
    requires !step.Test? && !step.CallV? && !step.IdleInterrupt?
    ensures Woken(After(k, step), s) == Woken(k, s)
  {
    var k' := After(k, step);
    hide Placed, QueueOk, NoDuplicates;
    forall t | t in k.threads ensures Awake(k, s, t) <==> Awake(k', s, t) {
      AwakeKept(k, step, s, t);
    }
    forall t | t in k'.threads && t !in k.threads ensures !Awake(k', s, t) {
    }
  }

  lemma TestWakeup(k: Kernel)
    requires Shape(k) && NoLostWakeup(k) && Enabled(k, Test)
    ensures NoLostWakeup(After(k, Test))
  {
    hide Shape;
    var k' := After(k, Test);
    var c := k.current;
    var s := k.threads[c].at.s;
    forall r | r in k'.sems && k'.sems[r].queue != [] ensures k'.sems[r].value <= |Woken(k', r)| {
      if r != s {
        forall t | t in k.threads ensures Awake(k, r, t) <==> Awake(k', r, t) {
        }
        assert Woken(k', r) == Woken(k, r);
      } else if k.sems[s].value > 0 {
        forall t | t in k.threads && t != c && Awake(k, s, t) ensures Awake(k', s, t) {
        }
        OneLess(Woken(k, s), Woken(k', s), c);
      }
    }
  }

  lemma RaiseWakes(k: Kernel, s: SemId)
    requires s in k.sems && QueueOk(k, s) && k.sems[s].queue != []
    ensures |Woken(Raise(k, s), s)| == |Woken(k, s)| + 1
  {
    var k' := Raise(k, s);
    var first := k.sems[s].queue[0];
    WithoutFirst(k.sems[s].queue);
    assert !Awake(k, s, first) && Awake(k', s, first);
    forall t | t in k.threads && t != first ensures Awake(k, s, t) <==> Awake(k', s, t) {
    }
    assert Woken(k', s) == Woken(k, s) + {first};
  }

  lemma RaiseElsewhere(k: Kernel, s: SemId, r: SemId)
    requires s in k.sems && QueueOk(k, s) && r in k.sems && r != s
    ensures Woken(Raise(k, s), r) == Woken(k, r)
  {
    hide NoDuplicates;
    forall t | t in k.threads ensures Awake(k, r, t) <==> Awake(Raise(k, s), r, t) {
    }
  }

  lemma RaiseWakeup(k: Kernel, s: SemId)
    requires Shape(k) && NoLostWakeup(k) && s in k.sems && forall t <- k.sems[s].queue :: t in k.threads
    ensures NoLostWakeup(Raise(k, s))
  {
    var k' := Raise(k, s);
    assert QueueOk(k, s);
    hide Shape, Woken, QueueOk;
    forall r | r in k'.sems && k'.sems[r].queue != [] ensures k'.sems[r].value <= |Woken(k', r)| {
      if r != s {
        RaiseElsewhere(k, s, r);
      } else {
        RaiseWakes(k, s);
      }
    }
  }

  lemma StepWakeup(k: Kernel, step: Step)
    requires Shape(k) && NoLostWakeup(k) && Enabled(k, step)
    ensures NoLostWakeup(After(k, step))
  {
    hide Shape;
    match step
    case Test => TestWakeup(k);
    case CallV(s) => RaiseWakeup(k, s);
    case IdleInterrupt(s) => RaiseWakeup(k, s);
    case _ =>
      assert After(k, step).sems == k.sems;
      forall s | s in k.sems && k.sems[s].queue != [] ensures k.sems[s].value <= |Woken(After(k, step), s)| {
        WokenKept(k, step, s);
      }
  }

  lemma StepShape(k: Kernel, step: Step)
    requires Shape(k) && Enabled(k, step)
    ensures Shape(After(k, step))
  {
    hide Shape, After;
    match step
    case NewThread(t) => NewThreadShape(k, t);
    case Fork(t) => ForkShape(k, t);
    case CallP(s) => MoveShape(k, step);
    case Test => TestShape(k);
    case CallV(s) => RaiseStepShape(k, s, step);
    case IdleInterrupt(s) => RaiseStepShape(k, s, step);
    case Yield => YieldShape(k);
    case Finish => MoveShape(k, step);
    case Dispatch => DispatchShape(k);
    case Proceed => ProceedShape(k);
  }

  lemma RaiseStepShape(k: Kernel, s: SemId, step: Step)
    requires Shape(k) && Enabled(k, step) && (step == CallV(s) || step == IdleInterrupt(s))
    ensures Shape(After(k, step))
  {
    hide Shape;
    RaiseShape(k, s);
  }

  /** Every step, whoever runs and whenever interrupts come, keeps the invariant. */
  lemma StepInv(k: Kernel, step: Step)
    requires Inv(k) && Enabled(k, step)
    ensures Inv(After(k, step))
  {
    hide Shape, NoLostWakeup, After, Enabled;
    StepShape(k, step);
    StepWakeup(k, step);
  }

  // ---- what single steps do ----

  /** A V on s, by a thread or by an interrupt handler. */
  predicate Raises(step: Step, s: SemId) {
    step == CallV(s) || step == IdleInterrupt(s)
  }

  /** The current thread comes out of P on s. */
  predicate Returns(k: Kernel, step: Step, s: SemId)
    requires Enabled(k, step)
  {
    step.Test? && k.threads[k.current].at.s == s && After(k, step).threads[k.current].at == Code
  }

  /** Every V counts one up, whether or not it wakes anyone, and every return from P one down; a test that finds
      zero does not return. */
  lemma StepBalanced(k: Kernel, step: Step, s: SemId)
    requires Enabled(k, step) && s in k.sems
    ensures var k' := After(k, step);
            && s in k'.sems
            && k'.sems[s].value == k.sems[s].value + (if Raises(step, s) then 1 else 0) - (if Returns(k, step, s) then 1 else 0)
            && (step.Test? && k.threads[k.current].at.s == s ==> (Returns(k, step, s) <==> k.sems[s].value > 0))
  {
    hide NoDuplicates;
  }

  /** Inside P on s: about to test, asleep, or on the way back to the test. */
  predicate InP(k: Kernel, s: SemId, t: Tid) {
    t in k.threads && ((k.threads[t].at.Testing? && k.threads[t].at.s == s) || WaitingOn(k.threads[t].at) == Some(s))
  }

  function InsideP(k: Kernel, s: SemId): set<Tid> {
    set t | t in k.threads && InP(k, s, t)
  }

  lemma CodeStepInP(k: Kernel, step: Step, s: SemId, t: Tid)
    requires Enabled(k, step) && !step.Test? && !step.Yield? && !step.Dispatch? && !step.Proceed?
    requires t in k.threads ==> Placed(k, t)
    ensures InP(After(k, step), s, t) <==> (t == k.current && step == CallP(s)) || InP(k, s, t)
  {
    hide NoDuplicates, QueueOk, AfterTest, AfterProceed, SwitchToFirst;
  }

  lemma TestInP(k: Kernel, s: SemId, t: Tid)
    requires Enabled(k, Test)
    ensures InP(After(k, Test), s, t) <==> InP(k, s, t) && !(t == k.current && Returns(k, Test, s))
  {
    hide NoDuplicates, QueueOk, AfterProceed, SwitchToFirst, Raise, ReadyToRun;
  }

  lemma SwitchInP(k: Kernel, step: Step, s: SemId, t: Tid)
    requires Enabled(k, step) && (step.Yield? || step.Dispatch?)
    ensures InP(After(k, step), s, t) <==> InP(k, s, t)
  {
    hide NoDuplicates, QueueOk, AfterTest, AfterProceed, Raise;
  }

  lemma ProceedInP(k: Kernel, s: SemId, t: Tid)
    requires Enabled(k, Proceed) && Placed(k, k.current) && (t in k.threads ==> Placed(k, t))
    ensures InP(After(k, Proceed), s, t) <==> InP(k, s, t)
  {
    hide NoDuplicates, QueueOk, AfterTest, SwitchToFirst, Raise, ReadyToRun;
  }

  /** A thread gets into P by calling it, and out only by a test that takes a unit. */
  lemma StepInP(k: Kernel, step: Step, s: SemId, t: Tid)
    requires Shape(k) && Enabled(k, step)
    ensures InP(After(k, step), s, t) <==>
            if t == k.current && step == CallP(s) then true
            else InP(k, s, t) && !(t == k.current && Returns(k, step, s))
  {
    hide NoDuplicates, QueueOk, Placed, InP, After, Enabled;
    if step.Test? {
      TestInP(k, s, t);
    } else if step.Yield? || step.Dispatch? {
      SwitchInP(k, step, s, t);
    } else if step.Proceed? {
      ProceedInP(k, s, t);
    } else {
      CodeStepInP(k, step, s, t);
    }
  }

  // ---- whole runs ----

  /** Kernel states of a run, one before each step and one after the last. */
  ghost predicate Run(ks: seq<Kernel>, steps: seq<Step>) {
    && |ks| == |steps| + 1 && Init(ks[0])
    && forall i :: 0 <= i < |steps| ==> Enabled(ks[i], steps[i]) && ks[i + 1] == After(ks[i], steps[i])
  }

  lemma {:induction false} RunInv(ks: seq<Kernel>, steps: seq<Step>, i: nat)
    requires Run(ks, steps) && i <= |steps|
    ensures Inv(ks[i])
  {
    hide Inv, Init, After, Enabled;
    if i == 0 {
      InitInv(ks[0]);
    } else {
      RunInv(ks, steps, i - 1);
      StepInv(ks[i - 1], steps[i - 1]);
    }
  }

  /** V's on s among the first i steps. */
  function Vs(steps: seq<Step>, i: nat, s: SemId): nat
    requires i <= |steps|
  {
    if i == 0 then 0 else Vs(steps, i - 1, s) + if Raises(steps[i - 1], s) then 1 else 0
  }

  /** Calls of P on s among the first i steps. */
  function Calls(steps: seq<Step>, i: nat, s: SemId): nat
    requires i <= |steps|
  {
    if i == 0 then 0 else Calls(steps, i - 1, s) + if steps[i - 1] == CallP(s) then 1 else 0
  }

  /** Returns from P on s among the first i steps. */
  ghost function Returned(ks: seq<Kernel>, steps: seq<Step>, i: nat, s: SemId): nat
    requires Run(ks, steps) && i <= |steps|
  {
    if i == 0 then 0 else Returned(ks, steps, i - 1, s) + if Returns(ks[i - 1], steps[i - 1], s) then 1 else 0
  }

  /** In every run, the value of a semaphore is its initial value, plus the V's, minus the returns from P. */
  lemma {:induction false} ValueCounts(ks: seq<Kernel>, steps: seq<Step>, i: nat, s: SemId)
    requires Run(ks, steps) && i <= |steps| && s in ks[0].sems
    ensures s in ks[0].initial && s in ks[i].sems
    ensures ks[i].sems[s].value == ks[0].initial[s] + Vs(steps, i, s) - Returned(ks, steps, i, s)
  {
    hide After, Enabled, Returns, Raises;
    if i > 0 {
      ValueCounts(ks, steps, i - 1, s);
      StepBalanced(ks[i - 1], steps[i - 1], s);
    }
  }

  /** In every run, each call of P has returned once or is still inside: so P takes a unit for every return, and
      nobody returns without. */
  lemma {:induction false} CallsCount(ks: seq<Kernel>, steps: seq<Step>, i: nat, s: SemId)
    requires Run(ks, steps) && i <= |steps|
    ensures Calls(steps, i, s) == Returned(ks, steps, i, s) + |InsideP(ks[i], s)|
  {
    hide After, Enabled, Returns, InP, Shape, Inv;
    if i == 0 {
      NobodyInP(ks[0], s);
    } else {
      CallsCount(ks, steps, i - 1, s);
      RunInv(ks, steps, i - 1);
      InsideStep(ks[i - 1], steps[i - 1], s);
    }
  }

  lemma NobodyInP(k: Kernel, s: SemId)
    requires Init(k)
    ensures InsideP(k, s) == {}
  {
  }

  lemma InsideStep(k: Kernel, step: Step, s: SemId)
    requires Inv(k) && Enabled(k, step)
    ensures |InsideP(After(k, step), s)| ==
            |InsideP(k, s)| + (if step == CallP(s) then 1 else 0) - (if Returns(k, step, s) then 1 else 0)
  {
    hide After, Enabled, Shape, InP, Returns;
    var c, k' := k.current, After(k, step);
    forall t ensures t in InsideP(k', s) <==>
                     (t == c && step == CallP(s)) || (t in InsideP(k, s) && !(t == c && Returns(k, step, s)))
    {
      InThreads(k, s, t);
      InThreads(k', s, t);
      StepInP(k, step, s, t);
    }
    CurrentInP(k, step, s);
    if step == CallP(s) {
      assert InsideP(k', s) == InsideP(k, s) + {c};
    } else if Returns(k, step, s) {
      assert InsideP(k', s) == InsideP(k, s) - {c};
    } else {
      assert InsideP(k', s) == InsideP(k, s);
    }
  }

  lemma InThreads(k: Kernel, s: SemId, t: Tid)
    ensures t in InsideP(k, s) <==> InP(k, s, t)
  {
  }

  lemma CurrentInP(k: Kernel, step: Step, s: SemId)
    requires Enabled(k, step)
    ensures step == CallP(s) ==> k.current !in InsideP(k, s) && !Returns(k, step, s)
    ensures Returns(k, step, s) ==> k.current in InsideP(k, s)
  {
  }

  /** The ASSERTs in the routines: the thread deleted is not the one running, and there is never a second
      carcass waiting. */
  predicate AssertsHold(k: Kernel, step: Step)
    requires Enabled(k, step)
  {
    && (step.Dispatch? && k.threads[k.current].at == Finishing ==> k.toBeDestroyed == None)
    && (step.Proceed? ==> k.toBeDestroyed != Some(k.current))
  }

  lemma NoAssertFails(ks: seq<Kernel>, steps: seq<Step>, i: nat)
    requires Run(ks, steps) && i < |steps|
    ensures AssertsHold(ks[i], steps[i])
  {
    RunInv(ks, steps, i);
    assert Placed(ks[i], ks[i].current);
  }

  /** How often a thread occurs on the lists of the kernel. */
  function Occurrences(s: seq<Tid>, t: Tid): nat {
    multiset(s)[t]
  }

  lemma {:induction false} NoDuplicatesOnce(s: seq<Tid>, t: Tid)
    requires NoDuplicates(s)
    ensures Occurrences(s, t) == if t in s then 1 else 0
  {
    if s != [] {
      WithoutFirst(s);
      NoDuplicatesOnce(s[1..], t);
      assert s == [s[0]] + s[1..];
    }
  }

  /** Every live thread is in the place its status names, once, and nowhere else. The idle loop is the one
      exception: there the current thread may itself have been made ready. */
  lemma OnePlace(ks: seq<Kernel>, steps: seq<Step>, i: nat, t: Tid)
    requires Run(ks, steps) && i <= |steps| && t in ks[i].threads
    ensures var k, th := ks[i], ks[i].threads[t];
      && Occurrences(k.ready, t) == (if th.status == Ready then 1 else 0)
      && (forall s <- k.sems :: Occurrences(k.sems[s].queue, t) == if th.status == Blocked && WaitingOn(th.at) == Some(s) then 1 else 0)
      && (th.status == Running ==> t == k.current)
      && (t == k.current ==> th.status == Running || th.at.Sleeping? || th.at == Finishing)
      && (th.status == Blocked ==> WaitingOn(th.at).Some? || th.at == Finishing || th.at == Zombie)
  {
    RunInv(ks, steps, i);
    var k := ks[i];
    assert Placed(k, t);
    NoDuplicatesOnce(k.ready, t);
    forall s | s in k.sems
      ensures Occurrences(k.sems[s].queue, t) == if k.threads[t].status == Blocked && WaitingOn(k.threads[t].at) == Some(s) then 1 else 0
    {
      assert QueueOk(k, s);
      NoDuplicatesOnce(k.sems[s].queue, t);
    }
  }

  /** With nobody woken and yet to test, a thread is queued only on a semaphore whose value is zero. */
  lemma NobodyForgotten(ks: seq<Kernel>, steps: seq<Step>, i: nat, s: SemId)
    requires Run(ks, steps) && i <= |steps| && s in ks[i].sems && ks[i].sems[s].queue != []
    ensures ks[i].sems[s].value <= |Woken(ks[i], s)|
    ensures (forall t <- ks[i].threads :: !Awake(ks[i], s, t)) ==> ks[i].sems[s].value == 0
  {
    RunInv(ks, steps, i);
    hide Shape, Awake;
    assert (forall t <- ks[i].threads :: !Awake(ks[i], s, t)) ==> Woken(ks[i], s) == {};
  }

  /** The step gives the processor to the first ready thread. */
  predicate Switches(k: Kernel, step: Step) {
    k.ready != [] && (step.Yield? || step.Dispatch?)
  }

  /** Threads get the processor in the order in which they became ready: a switch takes the first and moves
      every other one place ahead, and no other step moves a ready thread at all. */
  lemma ReadyIsFifo(k: Kernel, step: Step, p: nat)
    requires Enabled(k, step) && p < |k.ready|
    ensures Switches(k, step) && p == 0 ==> After(k, step).current == k.ready[0]
    ensures Switches(k, step) && p > 0 ==> p - 1 < |After(k, step).ready| && After(k, step).ready[p - 1] == k.ready[p]
    ensures !Switches(k, step) ==> p < |After(k, step).ready| && After(k, step).ready[p] == k.ready[p] && After(k, step).current == k.current
  {
  }

  /** Switches among steps i up to j. */
  ghost function Switchings(ks: seq<Kernel>, steps: seq<Step>, i: nat, j: nat): nat
    requires i <= j <= |steps| < |ks|
  {
    if i == j then 0 else Switchings(ks, steps, i, j - 1) + if Switches(ks[j - 1], steps[j - 1]) then 1 else 0
  }

  /** Nobody starves: a thread with p others before it on the ready list moves up by one with every switch, whatever
      else happens, and the switch after the p-th gives it the processor. */
  lemma {:induction false} TurnComes(ks: seq<Kernel>, steps: seq<Step>, i: nat, j: nat, p: nat)
    requires Run(ks, steps) && i <= j <= |steps| && p < |ks[i].ready| && Switchings(ks, steps, i, j) <= p
    ensures p - Switchings(ks, steps, i, j) < |ks[j].ready| && ks[j].ready[p - Switchings(ks, steps, i, j)] == ks[i].ready[p]
    ensures Switchings(ks, steps, i, j) == p && j < |steps| && Switches(ks[j], steps[j]) ==> ks[j + 1].current == ks[i].ready[p]
  {
    hide After, Enabled, Init, Switches;
    if i < j {
      TurnComes(ks, steps, i, j - 1, p);
      ReadyIsFifo(ks[j - 1], steps[j - 1], p - Switchings(ks, steps, i, j - 1));
    }
    if j < |steps| && Switchings(ks, steps, i, j) == p {
      ReadyIsFifo(ks[j], steps[j], 0);
    }
  }

  lemma ReadyMeans(k: Kernel, t: Tid)
    requires Inv(k) && t in k.ready
    ensures t in k.threads && k.threads[t].status == Ready
  {
    hide QueueOk, NoDuplicates, NoLostWakeup;
    assert Placed(k, t);
  }

  lemma ForkPlace(k: Kernel, t: Tid)
    requires Enabled(k, Fork(t))
    ensures After(k, Fork(t)).ready == k.ready + [t]
    ensures After(k, Fork(t)).threads == k.threads[t := Thread(Ready, Start)]
  {
  }

  /** A forked thread is ready behind all others, and stays so until that many switches have gone by. */
  lemma ForkedTurn(ks: seq<Kernel>, steps: seq<Step>, i: nat, j: nat, t: Tid)
    requires Run(ks, steps) && i < j <= |steps| && steps[i] == Fork(t)
    requires Switchings(ks, steps, i + 1, j) <= |ks[i].ready|
    ensures var ahead := |ks[i].ready| - Switchings(ks, steps, i + 1, j);
            && ahead < |ks[j].ready| && ks[j].ready[ahead] == t
            && t in ks[j].threads && ks[j].threads[t].status == Ready
            && (ahead == 0 && j < |steps| && Switches(ks[j], steps[j]) ==> ks[j + 1].current == t)
  {
    hide Init, Switches, After, Enabled, Inv;
    ForkPlace(ks[i], t);
    TurnComes(ks, steps, i + 1, j, |ks[i].ready|);
    RunInv(ks, steps, j);
    ReadyMeans(ks[j], t);
  }

  /** What a running thread can do, wherever it has got to. The machine is never stuck, but that there may be neither a
      ready thread nor a semaphore that an interrupt could raise. */
  lemma NeverStuck(k: Kernel, s: SemId, t: Tid)
    requires Shape(k)
    ensures var at := k.threads[k.current].at;
      && at != Fresh && at != Zombie
      && (at == Code ==>
            && Enabled(k, Yield) && Enabled(k, Finish)
            && (s in k.sems ==> Enabled(k, CallP(s)) && Enabled(k, CallV(s)))
            && (t !in k.threads ==> Enabled(k, NewThread(t)))
            && (t in k.threads && k.threads[t].status == JustCreated ==> Enabled(k, Fork(t))))
      && (at.Testing? ==> Enabled(k, Test))
      && (at.Sleeping? || at == Finishing ==>
            && (k.ready != [] ==> Enabled(k, Dispatch))
            && (s in k.sems ==> Enabled(k, IdleInterrupt(s))))
      && (at.Switched? || at == Start ==> Enabled(k, Proceed))
  {
    hide NoDuplicates, QueueOk;
    AllThreads(k);
    assert Placed(k, k.current);
    if t in k.threads {
      assert Placed(k, t);
    }
  }

  lemma AllThreads(k: Kernel)
    requires Shape(k)
    ensures (forall t <- k.ready :: t in k.threads) && forall s <- k.sems :: forall t <- k.sems[s].queue :: t in k.threads
  {
    hide NoDuplicates, Placed;
    forall s <- k.sems ensures forall t <- k.sems[s].queue :: t in k.threads {
      assert QueueOk(k, s);
    }
  }

  /** Where each step leaves the threads it concerns. */
  lemma StepPlaces(k: Kernel, step: Step)
    requires Shape(k) && Enabled(k, step) && !step.Yield? && !step.Dispatch? && !step.Proceed?
    ensures var c, k' := k.current, After(k, step);
      k'.current == c && c in k'.threads &&
      match step
      case NewThread(t) => k'.threads[t] == Thread(JustCreated, Fresh) && k'.ready == k.ready
      case Fork(t) => k'.threads[t] == Thread(Ready, Start) && k'.ready == k.ready + [t]
      case CallP(s) => k'.threads[c] == Thread(Running, Testing(s, false))
      case Test =>
        var s := k.threads[c].at.s;
        && s in k'.sems
        && if k.sems[s].value > 0 then k'.threads[c] == Thread(Running, Code) && k'.sems[s].queue == k.sems[s].queue
           else k'.threads[c] == Thread(Blocked, Sleeping(s)) && k'.sems[s].queue == k.sems[s].queue + [c]
      case Finish => k'.threads[c] == Thread(Blocked, Finishing)
      case _ => k'.threads[c].at == k.threads[c].at
  {
    hide NoDuplicates, QueueOk, SwitchToFirst, AfterProceed;
    assert Placed(k, k.current);
  }

  /** Where a switch leaves the thread switched away from, and how the other one goes on: in the test of the P
      it slept in, or in its own code. */
  lemma SwitchPlaces(k: Kernel, step: Step)
    requires Shape(k) && Enabled(k, step) && (step.Yield? || step.Dispatch? || step.Proceed?)
    ensures var c, k' := k.current, After(k, step);
      match step
      case Yield =>
        k.ready != [] ==> c in k'.threads && k'.threads[c] == Thread(Ready, Switched(ToCode)) && k'.ready == k.ready[1..] + [c]
      case Dispatch =>
        k.threads[c].at == Finishing ==> k'.toBeDestroyed == Some(c)
      case Proceed =>
        && k'.toBeDestroyed == None && c in k'.threads
        && k'.threads.Keys == k.threads.Keys - (if k.toBeDestroyed.Some? then {k.toBeDestroyed.value} else {})
        && k'.threads[c].at == if WaitingOn(k.threads[c].at).Some? then Testing(WaitingOn(k.threads[c].at).value, true) else Code
      case _ => true
  {
    hide NoDuplicates, QueueOk, AfterTest, Raise;
    assert Placed(k, k.current);
    if k.ready != [] {
      assert Placed(k, k.ready[0]);
    }
  }

  /** Semaphores wake threads in the order in which they went to sleep: V takes the first in the queue and makes
      it ready last, and no other step takes anyone out of a queue. */
  lemma WakeupsAreFifo(k: Kernel, step: Step, s: SemId, p: nat)
    requires Enabled(k, step) && s in k.sems && p < |k.sems[s].queue|
    ensures var raised := step == CallV(s) || step == IdleInterrupt(s);
            var k' := After(k, step);
            && s in k'.sems
            && (raised && p == 0 ==> k'.ready == k.ready + [k.sems[s].queue[0]])
            && (raised && p > 0 ==> p - 1 < |k'.sems[s].queue| && k'.sems[s].queue[p - 1] == k.sems[s].queue[p])
            && (!raised ==> p < |k'.sems[s].queue| && k'.sems[s].queue[p] == k.sems[s].queue[p])
  {
    hide NoDuplicates;
  }
}
