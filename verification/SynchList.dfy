/** threads/synchlist.cc over threads/synch.cc's Lock and Condition: a list shared by any number of threads,
    each of which may lose the processor between any two steps. List and queue operations under the lock
    are ordinary code, so each is a read step and a write step with room for others in between. Besides Append and
    RemoveFront any thread may take the lock and call Broadcast on the condition. */
module SynchLists {
  import opened Collections
  import opened Semaphores
  import opened Locks

  datatype Point<T> =
    | Idle
    // Append
    | AppendEnter(x: T)                  // in Acquire
    | AppendRead(x: T)
    | AppendWrite(x: T, seen: seq<T>)
    // Broadcast
    | BroadcastEnter                     // in Acquire
    // Condition::Signal, called once by Append, and by Condition::Broadcast again and again
    | Signal(all: bool)                  // at the test of the condition's queue; all: in Broadcast, whose own test
                                         // of it comes right before
    | SignalTake(all: bool, queue: seq<Tid>)
    | Wake(all: bool, waiter: Tid)       // about to V the waiter's semaphore
    | Leave                              // in Release, every operation
    // RemoveFront
    | RemoveEnter                        // in Acquire
    | RemoveTest                         // at the while condition
    | RemoveTake(seen: seq<T>)
    // Condition::Wait
    | WaitNew                            // about to make the semaphore
    | WaitQueue(queue: seq<Tid>)
    | WaitLeave                          // in Release
    | WaitTest                           // in the waiter's P, about to test
    | WaitAsleep                         // in the waiter's queue
    | WaitEnter                          // in Acquire
    | WaitDelete

  /** Threads not in `points` are idle. A waiter semaphore is named by the thread that made it. The histories
      list every item appended and every item removed. */
  datatype State<T> = State(
    lock: Lock,
    list: seq<T>,
    waiters: seq<Tid>,
    sems: map<Tid, Sem>,
    points: map<Tid, Point<T>>,
    appended: seq<T>,
    removed: seq<T>)

  function PointOf<T>(s: State<T>, t: Tid): Point<T> {
    if t in s.points then s.points[t] else Idle
  }

  function Goto<T>(s: State<T>, t: Tid, p: Point<T>): (s': State<T>)
    ensures PointOf(s', t) == p
    ensures forall u :: u != t ==> PointOf(s', u) == PointOf(s, u)
    ensures s' == s.(points := s'.points)
  {
    s.(points := s.points[t := p])
  }

  /** Points at which a thread is inside Acquire, and where it arrives with the lock. */
  predicate Entering<T>(p: Point<T>) {
    p.AppendEnter? || p.RemoveEnter? || p.BroadcastEnter? || p.WaitEnter?
  }

  function Entered<T>(p: Point<T>): Point<T> {
    match p
    case AppendEnter(x) => AppendRead(x)
    case RemoveEnter => RemoveTest
    case BroadcastEnter => Signal(true)
    case _ => WaitDelete
  }

  predicate Leaving<T>(p: Point<T>) {
    p.Leave? || p.WaitLeave?
  }

  /** Points at which the thread holds the lock and works on the shared state. */
  predicate Working<T>(p: Point<T>) {
    !Entering(p) && !Leaving(p) && !p.Idle? && !p.WaitTest? && !p.WaitAsleep?
  }

  // ---- the steps ----

  datatype Step<T> = Append(t: Tid, x: T) | RemoveFront(t: Tid) | Broadcast(t: Tid) | Advance(t: Tid)

  predicate Enabled<T>(s: State<T>, step: Step<T>) {
    match step
    case Append(t, _) => PointOf(s, t).Idle?
    case RemoveFront(t) => PointOf(s, t).Idle?
    case Broadcast(t) => PointOf(s, t).Idle?
    case Advance(t) => CanMove(s, t)
  }

  /** In the middle of an operation, and not asleep. */
  predicate CanMove<T>(s: State<T>, t: Tid) {
    !PointOf(s, t).Idle? && !PointOf(s, t).WaitAsleep? && PhaseOf(s.lock, t) != Asleep
  }

  function After<T>(s: State<T>, step: Step<T>): State<T> {
    match step
    case Append(t, x) => Goto(s, t, AppendEnter(x)).(lock := Enter(s.lock, t))
    case RemoveFront(t) => Goto(s, t, RemoveEnter).(lock := Enter(s.lock, t))
    case Broadcast(t) => Goto(s, t, BroadcastEnter).(lock := Enter(s.lock, t))
    case Advance(t) =>
      var p := PointOf(s, t);
      if Entering(p) then AfterEnter(s, t)
      else if Leaving(p) then AfterLeave(s, t)
      else if p.WaitTest? then AfterWaitTest(s, t)
      else AfterWork(s, t)
  }

  function AfterEnter<T>(s: State<T>, t: Tid): State<T> {
    if PhaseOf(s.lock, t) == Passed then Goto(s, t, Entered(PointOf(s, t))).(lock := Take(s.lock, t))
    else s.(lock := Test(s.lock, t))
  }

  function AfterLeave<T>(s: State<T>, t: Tid): State<T> {
    if PhaseOf(s.lock, t) == Inside then s.(lock := Drop(s.lock, t))
    else Goto(s, t, if PointOf(s, t).WaitLeave? then WaitTest else Idle).(lock := Free(s.lock, t))
  }

  /** A pass of the loop in waiter->P(). */
  function AfterWaitTest<T>(s: State<T>, t: Tid): State<T> {
    if t !in s.sems then s
    else if s.sems[t].value == 0 then Goto(s, t, WaitAsleep).(sems := s.sems[t := Tested(s.sems[t], t)])
    else Goto(s, t, WaitEnter).(sems := s.sems[t := Tested(s.sems[t], t)], lock := Enter(s.lock, t))
  }

  /** Broadcast goes round its loop. */
  function AfterWake<T>(all: bool): Point<T> {
    if all then Signal(true) else Leave
  }

  function AfterWork<T>(s: State<T>, t: Tid): State<T> {
    match PointOf(s, t)
    case AppendRead(x) => Goto(s, t, AppendWrite(x, s.list))
    case AppendWrite(x, seen) => Goto(s, t, Signal(false)).(list := seen + [x], appended := s.appended + [x])
    case Signal(all) => Goto(s, t, SignalTake(all, s.waiters))
    case SignalTake(all, queue) =>
      if queue == [] then Goto(s, t, Leave) else Goto(s, t, Wake(all, queue[0])).(waiters := queue[1..])
    case Wake(all, w) => WokenBy(Goto(s, t, AfterWake(all)), w)
    case RemoveTest => Goto(s, t, if s.list == [] then WaitNew else RemoveTake(s.list))
    case RemoveTake(seen) =>
      if seen == [] then s
      else Goto(s, t, Leave).(list := seen[1..], removed := s.removed + [seen[0]])
    case WaitNew => Goto(s, t, WaitQueue(s.waiters)).(sems := s.sems[t := NewSem(0)])
    case WaitQueue(queue) => Goto(s, t, WaitLeave).(waiters := queue + [t])
    case WaitDelete => Goto(s, t, RemoveTest).(sems := s.sems - {t})
    case _ => s
  }

  /** V on w's semaphore: if its owner sleeps there, it will test again. */
  function WokenBy<T>(s: State<T>, w: Tid): (s': State<T>)
    ensures s' == s.(points := s'.points, sems := s'.sems)
  {
    if w !in s.sems then s
    else (if s.sems[w].queue == [] then s else Goto(s, s.sems[w].queue[0], WaitTest)).(sems := s.sems[w := Raised(s.sems[w])])
  }

  // ---- the invariant ----

  /** A thread's point and its relation to the lock. */
  predicate InStep<T>(s: State<T>, t: Tid) {
    var p, ph := PointOf(s, t), PhaseOf(s.lock, t);
    && (p.Idle? || p.WaitTest? || p.WaitAsleep? ==> ph == Outside)
    && (Entering(p) ==> ph.Trying? || ph == Asleep || ph == Passed)
    && (Leaving(p) ==> ph == Inside || ph == Cleared)
    && (Working(p) ==> ph == Inside)
  }

  /** What a working thread has read is still so. */
  ghost predicate Current<T>(s: State<T>, t: Tid) {
    match PointOf(s, t)
    case AppendWrite(_, seen) => seen == s.list
    case SignalTake(_, queue) => queue == s.waiters
    case RemoveTake(seen) => seen == s.list && seen != []
    case WaitNew => s.list == []
    case WaitQueue(queue) => queue == s.waiters && s.list == []
    case Wake(_, w) => w !in s.waiters && (PointOf(s, w).WaitTest? || PointOf(s, w).WaitAsleep?) && w in s.sems && s.sems[w].value == 0
    case _ => true
  }

  predicate HasSem<T>(p: Point<T>) {
    p.WaitQueue? || p.WaitLeave? || p.WaitTest? || p.WaitAsleep? || p.WaitEnter? || p.WaitDelete?
  }

  predicate Wakes<T>(p: Point<T>, w: Tid) {
    p.Wake? && p.waiter == w
  }

  /** Someone is about to wake w. */
  ghost predicate BeingWoken<T>(s: State<T>, w: Tid) {
    exists t :: Wakes(PointOf(s, t), w)
  }

  /** A waiter's semaphore exists while it is in Wait; it is still zero only if a signal is yet to come. */
  ghost predicate WaiterOk<T>(s: State<T>, t: Tid) {
    var p := PointOf(s, t);
    && (t in s.sems <==> HasSem(p))
    && (HasSem(p) ==> s.sems[t].queue == if p.WaitAsleep? then [t] else [])
    && (t in s.waiters ==> (p.WaitLeave? || p.WaitTest? || p.WaitAsleep?) && s.sems[t].value == 0)
    && (p.WaitLeave? ==> t in s.waiters)
    && (p.WaitQueue? ==> s.sems[t].value == 0)
    && (p.WaitTest? && t !in s.waiters ==> s.sems[t].value > 0 || BeingWoken(s, t))
    && (p.WaitAsleep? ==> s.sems[t].value == 0 && (t in s.waiters || BeingWoken(s, t)))
  }

  /** Taken off the condition's queue by Signal, and not yet back at the while condition. */
  predicate Signalled<T>(s: State<T>, t: Tid) {
    var p := PointOf(s, t);
    (p.WaitTest? || p.WaitAsleep? || p.WaitEnter? || p.WaitDelete?) && t !in s.waiters
  }

  function SignalledSet<T>(s: State<T>): set<Tid> {
    set t | t in s.points && Signalled(s, t)
  }

  /** The list is one longer than its waiters were told, or about to lose an item. */
  predicate Slack<T>(p: Point<T>) {
    ((p.Signal? || p.SignalTake?) && !p.all) || p.RemoveTest? || p.RemoveTake?
  }

  ghost predicate AnySlack<T>(s: State<T>) {
    exists t :: Slack(PointOf(s, t))
  }

  /** While threads wait, every item on the list is spoken for by a thread that has been signalled. */
  ghost predicate Covered<T>(s: State<T>) {
    s.waiters != [] ==> |s.list| <= |SignalledSet(s)| + if AnySlack(s) then 1 else 0
  }

  ghost predicate Fifo<T>(s: State<T>) {
    s.appended == s.removed + s.list
  }

  ghost predicate Inv<T>(s: State<T>) {
    && LockInv(s.lock)
    && NoDuplicates(s.waiters)
    && (forall t :: InStep(s, t))
    && (forall t :: Current(s, t))
    && (forall t :: WaiterOk(s, t))
    && Fifo(s)
    && Covered(s)
  }

  ghost predicate Init<T>(s: State<T>) {
    s == State(NEW_LOCK, [], [], map[], map[], [], [])
  }

  lemma InitInv<T>(s: State<T>)
    requires Init(s)
    ensures Inv(s)
  {
    NewLockInv();
  }

  // ---- steps that work on the shared state, with the lock held ----

  /** Nobody else holds the lock while this thread works, so nobody else works or leaves. */
  lemma Alone<T>(s: State<T>, t: Tid, u: Tid)
    requires Exclusive(s.lock) && InStep(s, t) && InStep(s, u) && Working(PointOf(s, t)) && u != t
    ensures !Working(PointOf(s, u)) && !Leaving(PointOf(s, u))
  {
    if Working(PointOf(s, u)) || Leaving(PointOf(s, u)) {
      OneHolder(s.lock, t, u);
    }
  }

  ghost predicate AloneAtWork<T>(s: State<T>, t: Tid) {
    && Working(PointOf(s, t))
    && forall u :: u != t ==> !Working(PointOf(s, u)) && !Leaving(PointOf(s, u))
  }

  lemma WorksAlone<T>(s: State<T>, t: Tid)
    requires Exclusive(s.lock) && (forall u :: InStep(s, u)) && Working(PointOf(s, t))
    ensures AloneAtWork(s, t)
  {
    hide Exclusive;
    forall u | u != t ensures !Working(PointOf(s, u)) && !Leaving(PointOf(s, u)) {
      Alone(s, t, u);
    }
  }

  /** Waking w moves nobody else. */
  lemma WokenPoints<T>(s: State<T>, t: Tid, next: Point<T>, w: Tid, u: Tid)
    requires w in s.sems && WaiterOk(s, w) && w != t && (PointOf(s, w).WaitTest? || PointOf(s, w).WaitAsleep?)
    ensures var s' := WokenBy(Goto(s, t, next), w);
            && PointOf(s', u) == (if u == t then next else if u == w then WaitTest else PointOf(s, u))
            && s'.lock == s.lock && s'.waiters == s.waiters && s'.list == s.list
            && s'.sems.Keys == s.sems.Keys && s'.sems[w].value == s.sems[w].value + 1 && s'.sems[w].queue == []
            && (u != w && u in s.sems ==> s'.sems[u] == s.sems[u])
  {
  }

  /** What a working step does to every other thread. */
  lemma WorkFrame<T>(s: State<T>, t: Tid, u: Tid)
    requires Working(PointOf(s, t)) && u != t && Current(s, t)
    requires PointOf(s, t).Wake? ==> WaiterOk(s, PointOf(s, t).waiter)
    ensures var s' := AfterWork(s, t);
            && s'.lock == s.lock
            && PointOf(s', u) == (if Wakes(PointOf(s, t), u) then WaitTest else PointOf(s, u))
            && (u in s'.sems <==> u in s.sems)
            && (u in s.sems && !Wakes(PointOf(s, t), u) ==> s'.sems[u] == s.sems[u])
            && (u in s.sems && Wakes(PointOf(s, t), u) ==> s'.sems[u].value > 0 && s'.sems[u].queue == [])
  {
    hide Goto, WokenBy, NoDuplicates, BeingWoken;
    if PointOf(s, t).Wake? {
      WokenPoints(s, t, AfterWake(PointOf(s, t).all), PointOf(s, t).waiter, u);
    }
  }

  lemma WokenSelf<T>(s: State<T>, t: Tid)
    requires PointOf(s, t).Wake? && Current(s, t) && WaiterOk(s, PointOf(s, t).waiter)
    ensures PointOf(AfterWork(s, t), t) == AfterWake(PointOf(s, t).all) && AfterWork(s, t).lock == s.lock
  {
    hide WokenBy, NoDuplicates, BeingWoken;
    WokenPoints(s, t, AfterWake(PointOf(s, t).all), PointOf(s, t).waiter, t);
  }

  /** What it does to the thread itself. */
  lemma WorkSelf<T>(s: State<T>, t: Tid)
    requires Working(PointOf(s, t)) && Current(s, t) && InStep(s, t)
    requires PointOf(s, t).Wake? ==> WaiterOk(s, PointOf(s, t).waiter)
    ensures InStep(AfterWork(s, t), t)
    ensures AfterWork(s, t).lock == s.lock
  {
    hide AfterWork, WaiterOk, Current;
    WorkGoesOn(s, t);
  }

  lemma WorkGoesOn<T>(s: State<T>, t: Tid)
    requires Working(PointOf(s, t)) && Current(s, t)
    requires PointOf(s, t).Wake? ==> WaiterOk(s, PointOf(s, t).waiter)
    ensures Working(PointOf(AfterWork(s, t), t)) || Leaving(PointOf(AfterWork(s, t), t))
    ensures AfterWork(s, t).lock == s.lock
  {
    hide Goto, WokenBy, NoDuplicates, BeingWoken, WaiterOk, PhaseOf;
    if PointOf(s, t).Wake? {
      WokenSelf(s, t);
    }
  }

  lemma WorkSelfWaiter<T>(s: State<T>, t: Tid)
    requires Working(PointOf(s, t)) && Current(s, t) && WaiterOk(s, t)
    requires PointOf(s, t).Wake? ==> WaiterOk(s, PointOf(s, t).waiter)
    ensures WaiterOk(AfterWork(s, t), t)
  {
    hide Goto, WokenBy, NoDuplicates, BeingWoken, InStep;
    match PointOf(s, t)
    case Wake(_, w) => WokenPoints(s, t, AfterWake(PointOf(s, t).all), w, t);
    case SignalTake(_, _) => assert t !in s.waiters;
    case _ =>
  }

  lemma WorkInStep<T>(s: State<T>, t: Tid, u: Tid)
    requires AloneAtWork(s, t) && InStep(s, t) && Current(s, t) && InStep(s, u)
    requires PointOf(s, t).Wake? ==> WaiterOk(s, PointOf(s, t).waiter) && InStep(s, PointOf(s, t).waiter)
    ensures InStep(AfterWork(s, t), u)
  {
    hide AfterWork, BeingWoken;
    WorkSelf(s, t);
    if u != t {
      WorkFrame(s, t, u);
    }
  }

  lemma WorkCurrent<T>(s: State<T>, t: Tid, u: Tid)
    requires AloneAtWork(s, t) && Current(s, t) && NoDuplicates(s.waiters)
    requires PointOf(s, t).SignalTake? && s.waiters != [] ==> WaiterOk(s, s.waiters[0])
    requires PointOf(s, t).Wake? ==> WaiterOk(s, PointOf(s, t).waiter)
    ensures Current(AfterWork(s, t), u)
  {
    hide Goto, WokenBy;
    if u != t {
      WorkFrame(s, t, u);
      assert !Working(PointOf(AfterWork(s, t), u));
    } else if PointOf(s, t).Wake? {
      WokenPoints(s, t, AfterWake(PointOf(s, t).all), PointOf(s, t).waiter, t);
    } else if PointOf(s, t).SignalTake? && s.waiters != [] {
      WithoutFirst(s.waiters);
    }
  }

  /** A working step only takes the first waiter off the queue, or puts itself on. */
  lemma WorkWaiting<T>(s: State<T>, t: Tid, u: Tid)
    requires Working(PointOf(s, t)) && Current(s, t) && NoDuplicates(s.waiters) && u != t && u in s.waiters
    ensures u in AfterWork(s, t).waiters || Wakes(PointOf(AfterWork(s, t), t), u)
  {
    hide WokenBy;
    if s.waiters != [] {
      WithoutFirst(s.waiters);
    }
  }

  lemma WorkNotWaiting<T>(s: State<T>, t: Tid, u: Tid)
    requires Working(PointOf(s, t)) && Current(s, t) && u != t && u !in s.waiters
    ensures u !in AfterWork(s, t).waiters
  {
    hide WokenBy;
  }

  lemma WorkWaiter<T>(s: State<T>, t: Tid, u: Tid)
    requires AloneAtWork(s, t) && Current(s, t) && NoDuplicates(s.waiters) && WaiterOk(s, t) && WaiterOk(s, u)
    requires PointOf(s, t).Wake? ==> WaiterOk(s, PointOf(s, t).waiter)
    ensures WaiterOk(AfterWork(s, t), u)
  {
    hide AfterWork, NoDuplicates;
    var s' := AfterWork(s, t);
    if u == t {
      WorkSelfWaiter(s, t);
    } else {
      WorkFrame(s, t, u);
      if u in s.waiters {
        WorkWaiting(s, t, u);
      } else {
        WorkNotWaiting(s, t, u);
      }
      assert BeingWoken(s, u) ==> Wakes(PointOf(s, t), u);
      assert Wakes(PointOf(s', t), u) ==> BeingWoken(s', u);
    }
  }

  lemma WorkQueue<T>(s: State<T>, t: Tid)
    requires AloneAtWork(s, t) && Current(s, t) && NoDuplicates(s.waiters) && WaiterOk(s, t) && Fifo(s)
    ensures NoDuplicates(AfterWork(s, t).waiters) && Fifo(AfterWork(s, t))
  {
    if s.waiters != [] {
      WithoutFirst(s.waiters);
    }
    if t !in s.waiters {
      WithLast(s.waiters, t);
    }
  }

  lemma SlackOfWorker<T>(s: State<T>, t: Tid)
    requires AloneAtWork(s, t)
    ensures AnySlack(s) <==> Slack(PointOf(s, t))
  {
    assert Slack(PointOf(s, t)) ==> AnySlack(s);
  }

  lemma SlackAfterWork<T>(s: State<T>, t: Tid)
    requires AloneAtWork(s, t) && Current(s, t) && WaiterOk(s, t)
    requires PointOf(s, t).Wake? ==> WaiterOk(s, PointOf(s, t).waiter)
    ensures AnySlack(AfterWork(s, t)) <==> Slack(PointOf(AfterWork(s, t), t))
  {
    hide WokenBy;
    var s' := AfterWork(s, t);
    forall u | u != t ensures !Slack(PointOf(s', u)) {
      WorkFrame(s, t, u);
      assert !Working(PointOf(s, u));
    }
    assert Slack(PointOf(s', t)) ==> AnySlack(s');
  }

  lemma SameSignalled<T>(s: State<T>, s': State<T>)
    requires forall u :: Signalled(s, u) <==> Signalled(s', u)
    ensures SignalledSet(s) == SignalledSet(s')
  {
  }

  lemma WorkSignalledSelf<T>(s: State<T>, t: Tid)
    requires Working(PointOf(s, t)) && Current(s, t) && WaiterOk(s, t)
    requires PointOf(s, t).Wake? ==> WaiterOk(s, PointOf(s, t).waiter)
    ensures !Signalled(AfterWork(s, t), t)
    ensures Signalled(s, t) ==> PointOf(s, t).WaitDelete?
    ensures PointOf(s, t).SignalTake? ==> t !in s.waiters
  {
    hide Goto, WokenBy, NoDuplicates, BeingWoken;
    if PointOf(s, t).Wake? {
      WokenSelf(s, t);
    }
  }

  /** Work changes the signalled threads in two places only. */
  lemma WorkSignalled<T>(s: State<T>, t: Tid, u: Tid)
    requires AloneAtWork(s, t) && Current(s, t) && WaiterOk(s, t) && NoDuplicates(s.waiters)
    requires PointOf(s, t).Wake? ==> WaiterOk(s, PointOf(s, t).waiter)
    requires PointOf(s, t).SignalTake? && s.waiters != [] ==> WaiterOk(s, s.waiters[0])
    ensures Signalled(AfterWork(s, t), u) <==>
            if PointOf(s, t).WaitDelete? && u == t then false
            else if PointOf(s, t).SignalTake? && s.waiters != [] && u == s.waiters[0] then true
            else Signalled(s, u)
  {
    hide Goto, WokenBy, NoDuplicates, BeingWoken;
    if u == t {
      WorkSignalledSelf(s, t);
    } else {
      WorkFrame(s, t, u);
      if s.waiters != [] {
        WithoutFirst(s.waiters);
      }
    }
  }

  lemma SignalledGrows<T>(s: State<T>, s': State<T>, w: Tid)
    requires !Signalled(s, w) && forall u :: Signalled(s', u) <==> u == w || Signalled(s, u)
    ensures |SignalledSet(s')| == |SignalledSet(s)| + 1
  {
    assert SignalledSet(s') == SignalledSet(s) + {w};
  }

  lemma WorkCovered<T>(s: State<T>, t: Tid)
    requires AloneAtWork(s, t) && Current(s, t) && (forall u :: WaiterOk(s, u)) && NoDuplicates(s.waiters) && Covered(s)
    ensures Covered(AfterWork(s, t))
  {
    var s' := AfterWork(s, t);
    var p := PointOf(s, t);
    SlackOfWorker(s, t);
    SlackAfterWork(s, t);
    forall u ensures Signalled(s', u) <==> if p.WaitDelete? && u == t then false
                                           else if p.SignalTake? && s.waiters != [] && u == s.waiters[0] then true
                                           else Signalled(s, u)
    {
      WorkSignalled(s, t, u);
    }
    hide WokenBy, AloneAtWork, NoDuplicates, WaiterOk, Signalled, AnySlack, SignalledSet;
    WorkCounted(s, t, s');
  }

  /** The bound, from how the signalled threads and the slack have changed. */
  lemma WorkCounted<T>(s: State<T>, t: Tid, s': State<T>)
    requires Working(PointOf(s, t)) && Current(s, t) && Covered(s) && s' == AfterWork(s, t)
    requires AnySlack(s) <==> Slack(PointOf(s, t))
    requires AnySlack(s') <==> Slack(PointOf(s', t))
    requires forall u :: Signalled(s', u) <==> if PointOf(s, t).WaitDelete? && u == t then false
                         else if PointOf(s, t).SignalTake? && s.waiters != [] && u == s.waiters[0] then true
                         else Signalled(s, u)
    ensures Covered(s')
  {
    hide WokenBy, AnySlack, SignalledSet;
    match PointOf(s, t)
    case SignalTake(_, queue) =>
      if queue != [] {
        assert !Signalled(s, queue[0]);
        SignalledGrows(s, s', queue[0]);
      }
    case WaitDelete =>
      if Signalled(s, t) {
        SignalledGrows(s', s, t);
      } else {
        SameSignalled(s, s');
      }
    case _ => SameSignalled(s, s');
  }

  lemma WorkInv<T>(s: State<T>, t: Tid)
    requires Inv(s) && Working(PointOf(s, t))
    ensures Inv(AfterWork(s, t))
  {
    hide AfterWork, LockInv, NoDuplicates, Fifo, Covered, Current, WaiterOk, InStep, AloneAtWork;
    WorkIsAlone(s, t);
    var s' := AfterWork(s, t);
    WorkQueue(s, t);
    WorkCovered(s, t);
    WakesWaiter(s, t);
    WorkSelf(s, t);
    forall u ensures InStep(s', u) && Current(s', u) && WaiterOk(s', u) {
      WorkInStep(s, t, u);
      WorkCurrent(s, t, u);
      WorkWaiter(s, t, u);
    }
  }

  lemma WorkIsAlone<T>(s: State<T>, t: Tid)
    requires Inv(s) && Working(PointOf(s, t))
    ensures AloneAtWork(s, t)
  {
    hide InStep, AloneAtWork, Fifo, Covered, Current, WaiterOk;
    WorksAlone(s, t);
  }

  /** Instances of the invariant for the waiters that a working step touches. */
  lemma WakesWaiter<T>(s: State<T>, t: Tid)
    requires Inv(s)
    ensures PointOf(s, t).Wake? ==> WaiterOk(s, PointOf(s, t).waiter) && InStep(s, PointOf(s, t).waiter)
    ensures PointOf(s, t).SignalTake? && s.waiters != [] ==> WaiterOk(s, s.waiters[0])
    ensures InStep(s, t) && Current(s, t) && WaiterOk(s, t) && NoDuplicates(s.waiters) && Fifo(s) && Covered(s)
  {
  }

  // ---- steps in Acquire, Release and waiter->P() ----

  /** These steps leave the list, the condition's queue and the histories alone, and change the point of one
      thread only, between points at which it is not working. */
  ghost predicate Quiet<T>(s: State<T>, s': State<T>, t: Tid) {
    && s'.list == s.list && s'.waiters == s.waiters && s'.appended == s.appended && s'.removed == s.removed
    && (forall u :: u != t ==> PointOf(s', u) == PointOf(s, u))
    && (forall u :: u != t ==> (u in s'.sems <==> u in s.sems) && (u in s.sems ==> s'.sems[u] == s.sems[u]))
    && !Working(PointOf(s, t)) && (Signalled(s, t) ==> Signalled(s', t))
    && (PointOf(s', t).WaitAsleep? || PointOf(s', t).WaitTest? || t !in s.waiters || PointOf(s', t).WaitLeave?)
  }

  lemma QuietWoken<T>(s: State<T>, s': State<T>, t: Tid, w: Tid)
    requires Quiet(s, s', t)
    requires !PointOf(s', t).Wake?
    ensures BeingWoken(s, w) <==> BeingWoken(s', w)
  {
    if x :| Wakes(PointOf(s, x), w) {
      assert Wakes(PointOf(s', x), w);
    }
    if x :| Wakes(PointOf(s', x), w) {
      assert Wakes(PointOf(s, x), w);
    }
  }

  lemma QuietCovered<T>(s: State<T>, s': State<T>, t: Tid)
    requires Quiet(s, s', t) && Covered(s)
    ensures Covered(s')
  {
    forall u | u in SignalledSet(s) ensures u in SignalledSet(s') {
    }
    SubsetSize(SignalledSet(s), SignalledSet(s'));
    if x :| Slack(PointOf(s, x)) {
      assert Slack(PointOf(s', x));
    }
  }

  /** The rest of the invariant, for every thread but the one that moves. */
  lemma QuietOther<T>(s: State<T>, s': State<T>, t: Tid, u: Tid)
    requires Quiet(s, s', t) && Current(s, u) && WaiterOk(s, u) && u != t && !PointOf(s', t).Wake?
    requires Wakes(PointOf(s, u), t) ==> (PointOf(s', t).WaitTest? || PointOf(s', t).WaitAsleep?) && t in s'.sems && s'.sems[t].value == 0
    ensures Current(s', u) && WaiterOk(s', u)
  {
    hide BeingWoken;
    QuietWoken(s, s', t, u);
  }

  lemma QuietInv<T>(s: State<T>, s': State<T>, t: Tid)
    requires Inv(s) && Quiet(s, s', t) && !PointOf(s', t).Wake?
    requires LockInv(s'.lock) && (forall u :: InStep(s', u)) && Current(s', t) && WaiterOk(s', t)
    requires (exists u :: Wakes(PointOf(s, u), t)) ==>
               (PointOf(s', t).WaitTest? || PointOf(s', t).WaitAsleep?) && t in s'.sems && s'.sems[t].value == 0
    ensures Inv(s')
  {
    hide LockInv, NoDuplicates, InStep, Current, WaiterOk, Quiet, Covered, BeingWoken;
    QuietFrame(s, s', t);
    QuietCovered(s, s', t);
    forall u ensures Current(s', u) && WaiterOk(s', u) {
      if u != t {
        QuietOther(s, s', t, u);
      }
    }
  }

  lemma QuietFrame<T>(s: State<T>, s': State<T>, t: Tid)
    requires Quiet(s, s', t)
    ensures s'.list == s.list && s'.waiters == s.waiters && s'.appended == s.appended && s'.removed == s.removed
  {
  }

  lemma NotWoken<T>(s: State<T>, t: Tid)
    requires (forall u :: Current(s, u)) && !PointOf(s, t).WaitTest? && !PointOf(s, t).WaitAsleep?
    ensures forall u :: !Wakes(PointOf(s, u), t)
  {
    forall u ensures !Wakes(PointOf(s, u), t) {
      assert Current(s, u);
    }
  }

  lemma CallQuiet<T>(s: State<T>, step: Step<T>)
    requires Enabled(s, step) && !step.Advance? && WaiterOk(s, step.t)
    ensures var s' := After(s, step);
            Quiet(s, s', step.t) && Entering(PointOf(s', step.t)) && Current(s', step.t) && WaiterOk(s', step.t)
  {
    hide NoDuplicates, BeingWoken, Enter, Goto;
  }

  lemma CallInStep<T>(s: State<T>, step: Step<T>, u: Tid)
    requires Enabled(s, step) && !step.Advance? && InStep(s, u)
    ensures InStep(After(s, step), u)
  {
  }

  lemma CallInv<T>(s: State<T>, step: Step<T>)
    requires Inv(s) && Enabled(s, step) && !step.Advance?
    ensures Inv(After(s, step))
  {
    hide LockInv, NoDuplicates, Covered, Fifo, Quiet, InStep, Current, WaiterOk, After, Enabled, Goto;
    CallAllowed(s, step);
    CallQuiet(s, step);
    NotWoken(s, step.t);
    forall u ensures InStep(After(s, step), u) {
      CallInStep(s, step, u);
    }
    QuietInv(s, After(s, step), step.t);
  }

  lemma CallAllowed<T>(s: State<T>, step: Step<T>)
    requires LockInv(s.lock) && InStep(s, step.t) && Enabled(s, step) && !step.Advance?
    ensures PointOf(s, step.t).Idle? && LockInv(After(s, step).lock)
  {
    hide LockInv, Enter;
    EnterInv(s.lock, step.t);
  }

  lemma EnterQuiet<T>(s: State<T>, t: Tid)
    requires Entering(PointOf(s, t)) && WaiterOk(s, t)
    ensures var s' := AfterEnter(s, t);
            Quiet(s, s', t) && !PointOf(s', t).Wake? && Current(s', t) && WaiterOk(s', t)
  {
    hide NoDuplicates, BeingWoken, Take, Test, Goto, PhaseOf;
  }

  lemma EnterInStep<T>(s: State<T>, t: Tid, u: Tid)
    requires CanMove(s, t) && Entering(PointOf(s, t)) && InStep(s, t) && InStep(s, u)
    ensures InStep(AfterEnter(s, t), u)
  {
  }

  lemma EnterLock<T>(s: State<T>, t: Tid)
    requires LockInv(s.lock) && CanMove(s, t) && Entering(PointOf(s, t)) && InStep(s, t)
    ensures LockInv(AfterEnter(s, t).lock)
  {
    hide LockInv, Take, Test;
    if PhaseOf(s.lock, t) == Passed {
      TakeInv(s.lock, t);
    } else {
      TestInv(s.lock, t);
    }
  }

  lemma EnterStepInv<T>(s: State<T>, t: Tid)
    requires Inv(s) && CanMove(s, t) && Entering(PointOf(s, t))
    ensures Inv(AfterEnter(s, t))
  {
    hide LockInv, NoDuplicates, Covered, Fifo, Quiet, InStep, Current, WaiterOk, AfterEnter, CanMove;
    EnterLock(s, t);
    EnterQuiet(s, t);
    NotWoken(s, t);
    forall u ensures InStep(AfterEnter(s, t), u) {
      EnterInStep(s, t, u);
    }
    QuietInv(s, AfterEnter(s, t), t);
  }

  lemma LeaveInStep<T>(s: State<T>, t: Tid, u: Tid)
    requires LockInv(s.lock) && InStep(s, t) && Leaving(PointOf(s, t)) && InStep(s, u)
    ensures InStep(AfterLeave(s, t), u)
  {
    hide LockInv, Free;
    if PhaseOf(s.lock, t) == Cleared {
      FreeFrame(s.lock, t, u);
    }
  }

  lemma LeaveStepInv<T>(s: State<T>, t: Tid)
    requires Inv(s) && CanMove(s, t) && Leaving(PointOf(s, t))
    ensures Inv(AfterLeave(s, t))
  {
    hide LockInv, NoDuplicates, Covered, BeingWoken, Fifo, Free, Drop;
    var s' := AfterLeave(s, t);
    assert InStep(s, t) && WaiterOk(s, t);
    if PhaseOf(s.lock, t) == Inside {
      DropInv(s.lock, t);
    } else {
      FreeInv(s.lock, t);
    }
    forall u ensures InStep(s', u) {
      LeaveInStep(s, t, u);
    }
    forall u ensures !Wakes(PointOf(s, u), t) {
      assert Current(s, u);
    }
    QuietInv(s, s', t);
  }

  lemma WaitTestQuiet<T>(s: State<T>, t: Tid)
    requires PointOf(s, t).WaitTest? && WaiterOk(s, t)
    requires forall u :: Current(s, u)
    ensures var s' := AfterWaitTest(s, t);
            && Quiet(s, s', t) && !PointOf(s', t).Wake? && Current(s', t) && WaiterOk(s', t)
            && (BeingWoken(s, t) ==> (PointOf(s', t).WaitTest? || PointOf(s', t).WaitAsleep?) && t in s'.sems && s'.sems[t].value == 0)
  {
    hide NoDuplicates, Enter, Goto;
    if w :| Wakes(PointOf(s, w), t) {
      assert Current(s, w);
      assert Wakes(PointOf(AfterWaitTest(s, t), w), t);
    }
  }

  lemma WaitTestInStep<T>(s: State<T>, t: Tid, u: Tid)
    requires PointOf(s, t).WaitTest? && InStep(s, u)
    ensures InStep(AfterWaitTest(s, t), u)
  {
  }

  lemma WaitTestLock<T>(s: State<T>, t: Tid)
    requires PointOf(s, t).WaitTest? && InStep(s, t) && LockInv(s.lock)
    ensures LockInv(AfterWaitTest(s, t).lock)
  {
    hide LockInv, Enter, Goto;
    EnterInv(s.lock, t);
  }

  lemma WaitTestInv<T>(s: State<T>, t: Tid)
    requires Inv(s) && PointOf(s, t).WaitTest?
    ensures Inv(AfterWaitTest(s, t))
  {
    hide LockInv, NoDuplicates, Covered, Fifo, Quiet, InStep, Current, WaiterOk, AfterWaitTest;
    WaitTestLock(s, t);
    WaitTestQuiet(s, t);
    forall u ensures InStep(AfterWaitTest(s, t), u) {
      WaitTestInStep(s, t, u);
    }
    QuietInv(s, AfterWaitTest(s, t), t);
  }

  /** Every step, of any thread, keeps the invariant. */
  lemma StepInv<T>(s: State<T>, step: Step<T>)
    requires Inv(s) && Enabled(s, step)
    ensures Inv(After(s, step))
  {
    hide Inv, AfterEnter, AfterLeave, AfterWaitTest, AfterWork;
    if step.Advance? {
      var p := PointOf(s, step.t);
      if Entering(p) {
        EnterStepInv(s, step.t);
      } else if Leaving(p) {
        LeaveStepInv(s, step.t);
      } else if p.WaitTest? {
        WaitTestInv(s, step.t);
      } else {
        WorkInv(s, step.t);
      }
    } else {
      CallInv(s, step);
    }
  }

  // ---- whole runs ----

  ghost predicate Run<T>(ss: seq<State<T>>, steps: seq<Step<T>>) {
    && |ss| == |steps| + 1 && Init(ss[0])
    && forall i :: 0 <= i < |steps| ==> Enabled(ss[i], steps[i]) && ss[i + 1] == After(ss[i], steps[i])
  }

  lemma {:induction false} RunInv<T>(ss: seq<State<T>>, steps: seq<Step<T>>, i: nat)
    requires Run(ss, steps) && i <= |steps|
    ensures Inv(ss[i])
  {
    hide Inv, Init, After, Enabled;
    if i == 0 {
      InitInv(ss[0]);
    } else {
      RunInv(ss, steps, i - 1);
      StepInv(ss[i - 1], steps[i - 1]);
    }
  }

  /** A FIFO queue, under every interleaving: the items appended are the items removed followed by the list. */
  lemma FirstInFirstOut<T>(ss: seq<State<T>>, steps: seq<Step<T>>, i: nat)
    requires Run(ss, steps) && i <= |steps|
    ensures ss[i].appended == ss[i].removed + ss[i].list
  {
    hide LockInv, NoDuplicates, InStep, Current, WaiterOk, Covered, Init, After, Enabled;
    RunInv(ss, steps, i);
  }

  /** No step takes from an empty list, wakes a semaphore that is gone, or fails an ASSERT on the lock's
      holder in Wait, Signal or Release. */
  lemma StepsAreSafe<T>(ss: seq<State<T>>, steps: seq<Step<T>>, i: nat)
    requires Run(ss, steps) && i < |steps| && steps[i].Advance?
    ensures var s, t := ss[i], steps[i].t;
            && (PointOf(s, t).RemoveTake? ==> PointOf(s, t).seen == s.list != [])
            && (PointOf(s, t).Wake? ==> PointOf(s, t).waiter in s.sems)
            && (PointOf(s, t).WaitTest? ==> t in s.sems)
            && (Working(PointOf(s, t)) ==> s.lock.holder == Thread(t))
            && (Leaving(PointOf(s, t)) && PhaseOf(s.lock, t) != Cleared ==> s.lock.holder == Thread(t))
  {
    hide NoDuplicates, Covered, Init, After, Enabled, BeingWoken, Exclusive, QueueRight, Awaited;
    RunInv(ss, steps, i);
    assert InStep(ss[i], steps[i].t) && Current(ss[i], steps[i].t) && WaiterOk(ss[i], steps[i].t);
  }

  /** With the lock free and threads waiting on the condition, the list has at most as many items as there are
      signalled threads that have not resumed. */
  lemma ItemsAreCovered<T>(ss: seq<State<T>>, steps: seq<Step<T>>, i: nat)
    requires Run(ss, steps) && i <= |steps| && ss[i].lock.sem.value > 0 && ss[i].waiters != []
    ensures |ss[i].list| <= |SignalledSet(ss[i])|
  {
    hide NoDuplicates, Current, WaiterOk, Init, After, Enabled, HolderRight, QueueRight, Awaited;
    RunInv(ss, steps, i);
    FreeLock(ss[i].lock);
    forall t ensures !Slack(PointOf(ss[i], t)) {
      assert InStep(ss[i], t) && !Holding(ss[i].lock, t);
    }
  }

  lemma FreeLock(l: Lock)
    requires Exclusive(l) && l.sem.value > 0
    ensures forall t :: !Holding(l, t)
  {
  }

  /** No deadlock and no lost item: when no thread can move, every thread is idle or waits for an item, and it
      waits only because the list is empty. */
  lemma StuckOnlyWhenEmpty<T>(ss: seq<State<T>>, steps: seq<Step<T>>, i: nat, t: Tid)
    requires Run(ss, steps) && i <= |steps| && forall u :: !CanMove(ss[i], u)
    ensures PointOf(ss[i], t).Idle? || (PointOf(ss[i], t).WaitAsleep? && t in ss[i].waiters && ss[i].list == [])
  {
    hide NoDuplicates, Init, After, Enabled, Fifo, Covered;
    RunInv(ss, steps, i);
    var s := ss[i];
    forall u ensures !Holding(s.lock, u) && PhaseOf(s.lock, u) != Trying(true) {
      StuckThread(s, u);
    }
    LockFreeWhenStuck(s.lock);
    forall u ensures PointOf(s, u).Idle? || (PointOf(s, u).WaitAsleep? && u in s.waiters) {
      StuckThread(s, u);
    }
    if !PointOf(s, t).Idle? {
      assert t in s.waiters;
      assert SignalledSet(s) == {};
      ItemsAreCovered(ss, steps, i);
    }
  }

  /** A lock that nobody holds and nobody is about to try again is free, and nobody sleeps on it. */
  lemma LockFreeWhenStuck(l: Lock)
    requires LockInv(l) && forall u :: !Holding(l, u) && PhaseOf(l, u) != Trying(true)
    ensures l.sem.value > 0 && forall u :: PhaseOf(l, u) != Asleep
  {
  }

  lemma StuckThread<T>(s: State<T>, u: Tid)
    requires Inv(s) && forall v :: !CanMove(s, v)
    ensures !Holding(s.lock, u) && PhaseOf(s.lock, u) != Trying(true)
    ensures PointOf(s, u).Idle? || (PointOf(s, u).WaitAsleep? && u in s.waiters) || PhaseOf(s.lock, u) == Asleep
  {
    hide LockInv, NoDuplicates, Fifo, Covered;
    assert InStep(s, u) && WaiterOk(s, u) && !CanMove(s, u);
    forall w ensures !Wakes(PointOf(s, w), u) {
      assert InStep(s, w) && !CanMove(s, w);
    }
  }

  // ---- every call counts ----

  /** In Append, with x not yet on the list. */
  ghost predicate Carrying<T>(p: Point<T>, x: T) {
    (p.AppendEnter? || p.AppendRead? || p.AppendWrite?) && p.x == x
  }

  ghost function Carriers<T>(s: State<T>, x: T): set<Tid> {
    set t | t in s.points && Carrying(PointOf(s, t), x)
  }

  /** In RemoveFront, or its Wait, with nothing taken yet. */
  predicate Removing<T>(p: Point<T>) {
    p.RemoveEnter? || p.RemoveTest? || p.RemoveTake? || p.WaitNew? || p.WaitQueue? || p.WaitLeave? || p.WaitTest? || p.WaitAsleep?
    || p.WaitEnter? || p.WaitDelete?
  }

  function Removers<T>(s: State<T>): set<Tid> {
    set t | t in s.points && Removing(PointOf(s, t))
  }

  /** This step puts x on the list. */
  ghost predicate Puts<T>(s: State<T>, step: Step<T>, x: T) {
    step.Advance? && PointOf(s, step.t).AppendWrite? && PointOf(s, step.t).x == x
  }

  /** This step takes an item off the list. */
  predicate Takes<T>(s: State<T>, step: Step<T>) {
    step.Advance? && PointOf(s, step.t).RemoveTake?
  }

  /** The other threads stay where they are, but that a waiter may be sent back to its test. */
  lemma OtherPoint<T>(s: State<T>, step: Step<T>, u: Tid)
    requires Inv(s) && Enabled(s, step) && u != step.t
    ensures var p, p' := PointOf(s, u), PointOf(After(s, step), u);
            p' == p || (p'.WaitTest? && (p.WaitTest? || p.WaitAsleep?))
  {
    hide LockInv, NoDuplicates, Covered, Fifo, InStep, WaiterOk, Goto, Test, Take, Free, Drop, Tested;
    if step.Advance? && Working(PointOf(s, step.t)) {
      assert Current(s, step.t);
      WakesWaiter(s, step.t);
      WorkFrame(s, step.t, u);
    }
  }

  lemma OwnCarrying<T>(s: State<T>, t: Tid, x: T)
    requires CanMove(s, t) && Current(s, t)
    requires PointOf(s, t).Wake? ==> WaiterOk(s, PointOf(s, t).waiter)
    ensures var p, s' := PointOf(s, t), After(s, Step.Advance(t));
            && (Carrying(PointOf(s', t), x) <==> Carrying(p, x) && !p.AppendWrite?)
            && s'.appended == (if p.AppendWrite? then s.appended + [p.x] else s.appended)
  {
    hide NoDuplicates, BeingWoken, WokenBy, Goto, Test, Take, Free, Drop, Tested;
    if PointOf(s, t).Wake? {
      WokenSelf(s, t);
    }
  }

  lemma OwnRemoving<T>(s: State<T>, t: Tid)
    requires CanMove(s, t) && Current(s, t)
    requires PointOf(s, t).Wake? ==> WaiterOk(s, PointOf(s, t).waiter)
    ensures var p, s' := PointOf(s, t), After(s, Step.Advance(t));
            && (Removing(PointOf(s', t)) <==> Removing(p) && !p.RemoveTake?)
            && |s'.removed| == |s.removed| + if p.RemoveTake? then 1 else 0
  {
    hide NoDuplicates, BeingWoken, WokenBy, Goto, Test, Take, Free, Drop, Tested;
    if PointOf(s, t).Wake? {
      WokenSelf(s, t);
    }
  }

  lemma CallCarrying<T>(s: State<T>, step: Step<T>, x: T)
    requires Enabled(s, step) && !step.Advance?
    ensures Carrying(PointOf(After(s, step), step.t), x) <==> step == Append(step.t, x)
    ensures After(s, step).appended == s.appended && !Carrying(PointOf(s, step.t), x)
  {
  }

  lemma CallRemoving<T>(s: State<T>, step: Step<T>)
    requires Enabled(s, step) && !step.Advance?
    ensures Removing(PointOf(After(s, step), step.t)) <==> step.RemoveFront?
    ensures After(s, step).removed == s.removed && !Removing(PointOf(s, step.t))
  {
  }

  lemma CarriersStep<T>(s: State<T>, step: Step<T>, x: T)
    requires Inv(s) && Enabled(s, step)
    ensures var s' := After(s, step);
            && Carriers(s', x) == (if step == Append(step.t, x) then Carriers(s, x) + {step.t}
                                   else if Puts(s, step, x) then Carriers(s, x) - {step.t} else Carriers(s, x))
            && (step == Append(step.t, x) ==> step.t !in Carriers(s, x))
            && (Puts(s, step, x) ==> step.t in Carriers(s, x))
            && multiset(s'.appended)[x] == multiset(s.appended)[x] + if Puts(s, step, x) then 1 else 0
  {
    hide Inv, After, Enabled, Current, WaiterOk, Removing;
    if step.Advance? {
      WakesWaiter(s, step.t);
      Moving(s, step);
      OwnCarrying(s, step.t, x);
    } else {
      CallCarrying(s, step, x);
    }
    forall u | u != step.t ensures Carrying(PointOf(After(s, step), u), x) == Carrying(PointOf(s, u), x) {
      OtherPoint(s, step, u);
    }
  }

  lemma Moving<T>(s: State<T>, step: Step<T>)
    requires Enabled(s, step) && step.Advance?
    ensures CanMove(s, step.t)
  {
  }

  lemma RemoversStep<T>(s: State<T>, step: Step<T>)
    requires Inv(s) && Enabled(s, step)
    ensures var s' := After(s, step);
            && Removers(s') == (if step.RemoveFront? then Removers(s) + {step.t}
                                else if Takes(s, step) then Removers(s) - {step.t} else Removers(s))
            && (step.RemoveFront? ==> step.t !in Removers(s))
            && (Takes(s, step) ==> step.t in Removers(s))
            && |s'.removed| == |s.removed| + if Takes(s, step) then 1 else 0
  {
    hide Inv, After, Enabled, Current, WaiterOk, Carrying;
    if step.Advance? {
      WakesWaiter(s, step.t);
      Moving(s, step);
      OwnRemoving(s, step.t);
    } else {
      CallRemoving(s, step);
    }
    forall u | u != step.t ensures Removing(PointOf(After(s, step), u)) == Removing(PointOf(s, u)) {
      OtherPoint(s, step, u);
    }
  }

  /** Calls of Append with x among the first i steps. */
  ghost function Appends<T>(steps: seq<Step<T>>, i: nat, x: T): nat
    requires i <= |steps|
  {
    if i == 0 then 0 else Appends(steps, i - 1, x) + if steps[i - 1] == Append(steps[i - 1].t, x) then 1 else 0
  }

  /** Calls of RemoveFront among the first i steps. */
  function Removals<T>(steps: seq<Step<T>>, i: nat): nat
    requires i <= |steps|
  {
    if i == 0 then 0 else Removals(steps, i - 1) + if steps[i - 1].RemoveFront? then 1 else 0
  }

  /** In every run each call of Append has put its item on the list once, or is on its way to do so. */
  lemma {:induction false} AppendsCount<T>(ss: seq<State<T>>, steps: seq<Step<T>>, i: nat, x: T)
    requires Run(ss, steps) && i <= |steps|
    ensures Appends(steps, i, x) == multiset(ss[i].appended)[x] + |Carriers(ss[i], x)|
  {
    hide Inv, After, Enabled, Puts, Carrying;
    if i == 0 {
      assert Carriers(ss[0], x) == {};
    } else {
      AppendsCount(ss, steps, i - 1, x);
      RunInv(ss, steps, i - 1);
      CarriersStep(ss[i - 1], steps[i - 1], x);
    }
  }

  /** In every run each call of RemoveFront has taken one item, or has yet to. */
  lemma {:induction false} RemovalsCount<T>(ss: seq<State<T>>, steps: seq<Step<T>>, i: nat)
    requires Run(ss, steps) && i <= |steps|
    ensures Removals(steps, i) == |ss[i].removed| + |Removers(ss[i])|
  {
    hide Inv, After, Enabled, Takes, Removing;
    if i == 0 {
      assert Removers(ss[0]) == {};
    } else {
      RemovalsCount(ss, steps, i - 1);
      RunInv(ss, steps, i - 1);
      RemoversStep(ss[i - 1], steps[i - 1]);
    }
  }

  /** No item is lost or duplicated: of the calls of Append with x, each has x still in hand, on the list, or
      removed by someone. */
  lemma NothingLost<T>(ss: seq<State<T>>, steps: seq<Step<T>>, i: nat, x: T)
    requires Run(ss, steps) && i <= |steps|
    ensures Appends(steps, i, x) == |Carriers(ss[i], x)| + multiset(ss[i].list)[x] + multiset(ss[i].removed)[x]
  {
    hide After, Enabled, Init, Appends, Carriers;
    AppendsCount(ss, steps, i, x);
    FirstInFirstOut(ss, steps, i);
    assert multiset(ss[i].appended) == multiset(ss[i].removed) + multiset(ss[i].list);
  }

  /** Signals go to the waiters in the order in which they came: a signal takes the first off the queue, and no other
      step takes anyone off it. */
  lemma WaitersAreFifo<T>(s: State<T>, step: Step<T>, p: nat)
    requires Inv(s) && Enabled(s, step) && p < |s.waiters|
    ensures var s', signals := After(s, step), step.Advance? && PointOf(s, step.t).SignalTake?;
            && (signals && p == 0 ==> Wakes(PointOf(s', step.t), s.waiters[0]))
            && (signals && p > 0 ==> p - 1 < |s'.waiters| && s'.waiters[p - 1] == s.waiters[p])
            && (!signals ==> p < |s'.waiters| && s'.waiters[p] == s.waiters[p])
  {
    hide LockInv, NoDuplicates, Covered, Fifo, WaiterOk, Test, Take, Free, Drop, Tested;
    if step.Advance? {
      assert Current(s, step.t);
    }
  }

  // ---- Broadcast ----

  /** Inside Broadcast's loop, with the lock held. */
  predicate Broadcasting<T>(p: Point<T>) {
    (p.Signal? || p.SignalTake? || p.Wake?) && p.all
  }

  /** Steps that a Broadcast has still to take before it gets to Release. */
  function StepsLeft<T>(s: State<T>, t: Tid): nat {
    match PointOf(s, t)
    case Signal(true) => 3 * |s.waiters| + 2
    case SignalTake(true, _) => 3 * |s.waiters| + 1
    case Wake(true, _) => 3 * |s.waiters| + 3
    case _ => 0
  }

  /** While t is in Broadcast nobody else gets past Acquire or works. */
  lemma OthersOutside<T>(s: State<T>, t: Tid, v: Tid)
    requires Inv(s) && Broadcasting(PointOf(s, t)) && v != t
    ensures !Working(PointOf(s, v)) && !Leaving(PointOf(s, v)) && PhaseOf(s.lock, v) != Passed
  {
    hide NoDuplicates, Current, WaiterOk, Covered, Fifo, HolderRight, QueueRight, Awaited;
    assert InStep(s, t) && InStep(s, v);
    Alone(s, t, v);
    if PhaseOf(s.lock, v) == Passed {
      OneHolder(s.lock, t, v);
    }
  }

  /** So the others leave the condition's queue alone, and whoever has been signalled stays signalled. */
  lemma OtherStep<T>(s: State<T>, step: Step<T>, t: Tid, u: Tid)
    requires Broadcasting(PointOf(s, t)) && step.t != t && Enabled(s, step)
    requires !Working(PointOf(s, step.t)) && !Leaving(PointOf(s, step.t)) && PhaseOf(s.lock, step.t) != Passed
    ensures After(s, step).waiters == s.waiters && PointOf(After(s, step), t) == PointOf(s, t)
    ensures Signalled(s, u) ==> Signalled(After(s, step), u)
  {
    hide Goto, Test, Enter, Tested;
  }

  /** A step of the Broadcast itself. */
  lemma OwnStep<T>(s: State<T>, t: Tid)
    requires Broadcasting(PointOf(s, t)) && Current(s, t)
    requires PointOf(s, t).Wake? ==> WaiterOk(s, PointOf(s, t).waiter)
    ensures var s' := AfterWork(s, t);
            && StepsLeft(s', t) + 1 == StepsLeft(s, t)
            && (Broadcasting(PointOf(s', t)) || (PointOf(s', t) == Leave && s'.waiters == []))
            && forall u <- s'.waiters :: u in s.waiters
  {
    hide Goto, WokenBy, BeingWoken;
    if PointOf(s, t).Wake? {
      WokenSelf(s, t);
    }
  }

  /** Every waiter is still queued or has been signalled. */
  lemma OwnWaiter<T>(s: State<T>, t: Tid, u: Tid)
    requires Inv(s) && Broadcasting(PointOf(s, t)) && (u in s.waiters || Signalled(s, u))
    ensures u in AfterWork(s, t).waiters || Signalled(AfterWork(s, t), u)
  {
    hide LockInv, NoDuplicates, Covered, Fifo, AfterWork, WaiterOk, Current, AloneAtWork, InStep;
    WorkIsAlone(s, t);
    WakesWaiter(s, t);
    WorkSignalled(s, t, u);
    NotWaiting(s, t);
    if u != t && u in s.waiters {
      WorkWaiting(s, t, u);
      if Wakes(PointOf(AfterWork(s, t), t), u) {
        WakesFirst(s, t, u);
      }
    }
  }

  lemma NotWaiting<T>(s: State<T>, t: Tid)
    requires Broadcasting(PointOf(s, t)) && WaiterOk(s, t)
    ensures t !in s.waiters && !Signalled(s, t)
  {
    hide BeingWoken;
  }

  lemma WakesFirst<T>(s: State<T>, t: Tid, u: Tid)
    requires Broadcasting(PointOf(s, t)) && Current(s, t) && u in s.waiters && Wakes(PointOf(AfterWork(s, t), t), u)
    requires PointOf(s, t).Wake? ==> WaiterOk(s, PointOf(s, t).waiter)
    ensures PointOf(s, t).SignalTake? && u == s.waiters[0]
  {
    hide Goto, WokenBy, BeingWoken;
    if PointOf(s, t).Wake? {
      WokenSelf(s, t);
    }
  }

  /** One step of a run, seen from a thread t in Broadcast. */
  ghost predicate Progress<T>(s: State<T>, s': State<T>, t: Tid, own: nat) {
    && StepsLeft(s, t) == StepsLeft(s', t) + own
    && (Broadcasting(PointOf(s', t)) || (PointOf(s', t) == Leave && s'.waiters == []))
    && (forall u <- s'.waiters :: u in s.waiters)
    && (forall u :: u in s.waiters || Signalled(s, u) ==> u in s'.waiters || Signalled(s', u))
  }

  lemma BroadcastStep<T>(s: State<T>, step: Step<T>, t: Tid)
    requires Inv(s) && Enabled(s, step) && Broadcasting(PointOf(s, t))
    ensures Progress(s, After(s, step), t, if step.t == t then 1 else 0)
  {
    hide Inv, AfterWork, AfterEnter, AfterLeave, AfterWaitTest, Current, WaiterOk, Signalled, PhaseOf;
    if step.t == t {
      WakesWaiter(s, t);
      OwnStep(s, t);
      forall u | u in s.waiters || Signalled(s, u) ensures u in After(s, step).waiters || Signalled(After(s, step), u) {
        OwnWaiter(s, t, u);
      }
    } else {
      OthersOutside(s, t, step.t);
      OtherStep(s, step, t, t);
      forall u | Signalled(s, u) ensures Signalled(After(s, step), u) {
        OtherStep(s, step, t, u);
      }
    }
  }

  /** Steps of t among steps i up to j. */
  function Own<T>(steps: seq<Step<T>>, i: nat, j: nat, t: Tid): nat
    requires i <= j <= |steps|
  {
    if i == j then 0 else Own(steps, i, j - 1, t) + if steps[j - 1].t == t then 1 else 0
  }

  lemma {:induction false} BroadcastProgress<T>(ss: seq<State<T>>, steps: seq<Step<T>>, i: nat, j: nat, t: Tid)
    requires Run(ss, steps) && i < j <= |steps| && forall m :: i <= m < j ==> Broadcasting(PointOf(ss[m], t))
    ensures Progress(ss[i], ss[j], t, Own(steps, i, j, t))
  {
    hide Inv, Init, After, Enabled, StepsLeft, Signalled;
    RunInv(ss, steps, j - 1);
    BroadcastStep(ss[j - 1], steps[j - 1], t);
    if i < j - 1 {
      BroadcastProgress(ss, steps, i, j - 1, t);
    }
  }

  /** Broadcast signals every thread that was waiting when it began, and stops: it can always move, it takes
      exactly three steps for each waiter and two more to find the queue empty, whatever the others do
      meanwhile, and then nobody waits on the condition. */
  lemma BroadcastWakesAll<T>(ss: seq<State<T>>, steps: seq<Step<T>>, i: nat, j: nat, t: Tid)
    requires Run(ss, steps) && i < j <= |steps| && PointOf(ss[i], t) == Signal(true)
    requires forall m :: i <= m < j ==> Broadcasting(PointOf(ss[m], t))
    ensures Own(steps, i, j, t) <= 3 * |ss[i].waiters| + 2
    ensures !Broadcasting(PointOf(ss[j], t)) <==> Own(steps, i, j, t) == 3 * |ss[i].waiters| + 2
    ensures Broadcasting(PointOf(ss[j], t)) ==> CanMove(ss[j], t)
    ensures !Broadcasting(PointOf(ss[j], t)) ==>
              PointOf(ss[j], t) == Leave && ss[j].waiters == [] && forall u <- ss[i].waiters :: Signalled(ss[j], u)
  {
    hide Inv, Init, After, Enabled, Signalled;
    BroadcastProgress(ss, steps, i, j, t);
    RunInv(ss, steps, j);
    InsideMoves(ss[j], t);
  }

  lemma InsideMoves<T>(s: State<T>, t: Tid)
    requires Inv(s)
    ensures Broadcasting(PointOf(s, t)) ==> CanMove(s, t)
  {
    hide LockInv, NoDuplicates, Current, WaiterOk, Covered, Fifo;
    assert InStep(s, t);
  }

  // ---- every step counts ----

  function InAcquire(ph: Phase): nat {
    if ph == Passed then 1 else 2
  }

  function InRelease(ph: Phase): nat {
    if ph == Cleared then 1 else 2
  }

  /** Own steps that a thread has still to take at most, as long as it need not wait. */
  function ToGo<T>(s: State<T>, t: Tid): nat {
    var ph := PhaseOf(s.lock, t);
    match PointOf(s, t)
    case Idle => 0
    case Leave => InRelease(ph)
    case AppendEnter(_) => 7 + InAcquire(ph)
    case AppendRead(_) => 7
    case AppendWrite(_, _) => 6
    case Signal(all) => if all then StepsLeft(s, t) + 2 else 5
    case SignalTake(all, _) => if all then StepsLeft(s, t) + 2 else 4
    case Wake(all, _) => if all then StepsLeft(s, t) + 2 else 3
    case BroadcastEnter => 3 * |s.waiters| + 4 + InAcquire(ph)
    case RemoveEnter => 10 + InAcquire(ph)
    case RemoveTest => 10
    case RemoveTake(_) => 3
    case WaitNew => 9
    case WaitQueue(_) => 8
    case WaitLeave => 5 + InRelease(ph)
    case WaitTest => 5
    case WaitAsleep => 5
    case WaitEnter => 11 + InAcquire(ph)
    case WaitDelete => 11
  }

  lemma EnterProgress<T>(s: State<T>, t: Tid)
    requires CanMove(s, t) && InStep(s, t) && Entering(PointOf(s, t))
    ensures var s' := AfterEnter(s, t);
            ToGo(s', t) < ToGo(s, t) || (PhaseOf(s'.lock, t) == Asleep && s.lock.sem.value == 0)
  {
    hide Goto;
  }

  lemma LeaveProgress<T>(s: State<T>, t: Tid)
    requires InStep(s, t) && Leaving(PointOf(s, t))
    ensures ToGo(AfterLeave(s, t), t) < ToGo(s, t)
  {
    hide Goto;
  }

  lemma WorkProgress<T>(s: State<T>, t: Tid)
    requires InStep(s, t) && Working(PointOf(s, t)) && Current(s, t)
    requires PointOf(s, t).Wake? ==> WaiterOk(s, PointOf(s, t).waiter)
    ensures ToGo(AfterWork(s, t), t) < ToGo(s, t)
  {
    hide Goto, WokenBy, BeingWoken, PhaseOf;
    if PointOf(s, t).Wake? {
      WokenSelf(s, t);
    }
  }

  /** No step is idle: each brings its thread nearer to the end of its call, unless the thread finds the lock taken or
      its semaphore at zero and falls asleep, or uses up a signal and goes back to look at the list. */
  lemma StepProgress<T>(s: State<T>, t: Tid)
    requires Inv(s) && CanMove(s, t)
    ensures var p, s' := PointOf(s, t), After(s, Step.Advance(t));
            || ToGo(s', t) < ToGo(s, t)
            || (Entering(p) && PhaseOf(s'.lock, t) == Asleep && s.lock.sem.value == 0)
            || (p.WaitTest? && t in s.sems && if s.sems[t].value == 0 then PointOf(s', t).WaitAsleep? else PointOf(s', t).WaitEnter?)
  {
    hide LockInv, NoDuplicates, Covered, Fifo, AfterEnter, AfterLeave, AfterWork, Current, BeingWoken, ToGo, Goto;
    WakesWaiter(s, t);
    if Entering(PointOf(s, t)) {
      EnterProgress(s, t);
    } else if Leaving(PointOf(s, t)) {
      LeaveProgress(s, t);
    } else if Working(PointOf(s, t)) {
      WorkProgress(s, t);
    }
  }
}
