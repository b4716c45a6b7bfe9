/** threads/synch.cc, Lock: a semaphore with initial value 1 and a note of who holds it. P, the note, its
    removal and V are separate steps, between which any other thread may run. */
module Locks {
  import opened Collections
  import opened Semaphores

  datatype Holder = Nobody | Thread(t: Tid)

  datatype Phase =
    | Outside
    | Trying(again: bool) // in Acquire, about to test the value; again: after having slept
    | Asleep              // in the semaphore's queue
    | Passed              // past P, lockHolder not yet set
    | Inside
    | Cleared             // lockHolder cleared, before V

  /** Threads not in `phases` are outside. */
  datatype Lock = Lock(sem: Sem, holder: Holder, phases: map<Tid, Phase>)

  const NEW_LOCK: Lock := Lock(NewSem(1), Nobody, map[])

  function PhaseOf(l: Lock, t: Tid): Phase {
    if t in l.phases then l.phases[t] else Outside
  }

  function SetPhase(l: Lock, t: Tid, p: Phase): (l': Lock)
    ensures PhaseOf(l', t) == p
    ensures forall u :: u != t ==> PhaseOf(l', u) == PhaseOf(l, u)
    ensures l'.sem == l.sem && l'.holder == l.holder
  {
    l.(phases := l.phases[t := p])
  }

  /** Acquire begins. */
  function Enter(l: Lock, t: Tid): Lock {
    SetPhase(l, t, Trying(false))
  }

  /** One pass of the test in P. */
  function Test(l: Lock, t: Tid): Lock {
    SetPhase(l, t, if l.sem.value == 0 then Asleep else Passed).(sem := Tested(l.sem, t))
  }

  function Take(l: Lock, t: Tid): Lock {
    SetPhase(l, t, Inside).(holder := Thread(t))
  }

  /** Release clears lockHolder. */
  function Drop(l: Lock, t: Tid): Lock {
    SetPhase(l, t, Cleared).(holder := Nobody)
  }

  /** Release's V; the first in the queue will test again. */
  function Free(l: Lock, t: Tid): Lock {
    var l1 := if l.sem.queue == [] then l else SetPhase(l, l.sem.queue[0], Trying(true));
    SetPhase(l1, t, Outside).(sem := Raised(l.sem))
  }

  /** Past P and not yet at V. */
  predicate Holding(l: Lock, t: Tid) {
    var p := PhaseOf(l, t);
    p == Passed || p == Inside || p == Cleared
  }

  /** The semaphore's value and the number of holding threads add up to one. */
  ghost predicate Exclusive(l: Lock) {
    || (l.sem.value == 1 && forall t :: !Holding(l, t))
    || (l.sem.value == 0 && exists h :: Holding(l, h) && forall t :: Holding(l, t) ==> t == h)
  }

  /** lockHolder names the thread inside, if there is one. */
  ghost predicate HolderRight(l: Lock) {
    forall t :: l.holder == Thread(t) <==> PhaseOf(l, t) == Inside
  }

  ghost predicate QueueRight(l: Lock) {
    NoDuplicates(l.sem.queue) && forall t :: t in l.sem.queue <==> PhaseOf(l, t) == Asleep
  }

  /** With the lock free and someone queued, some woken thread is about to try again. */
  ghost predicate Awaited(l: Lock) {
    l.sem.value > 0 && l.sem.queue != [] ==> exists t :: PhaseOf(l, t) == Trying(true)
  }

  ghost predicate LockInv(l: Lock) {
    Exclusive(l) && HolderRight(l) && QueueRight(l) && Awaited(l)
  }

  lemma NewLockInv()
    ensures LockInv(NEW_LOCK)
  {
  }

  lemma OneHolder(l: Lock, t: Tid, u: Tid)
    requires Exclusive(l) && Holding(l, t) && Holding(l, u)
    ensures t == u && l.sem.value == 0
  {
  }

  lemma EnterInv(l: Lock, t: Tid)
    requires LockInv(l) && PhaseOf(l, t) == Outside
    ensures LockInv(Enter(l, t))
  {
    var l' := Enter(l, t);
    assert forall u :: Holding(l', u) == Holding(l, u);
    if w :| PhaseOf(l, w) == Trying(true) {
      assert PhaseOf(l', w) == Trying(true);
    }
  }

  lemma TestInv(l: Lock, t: Tid)
    requires LockInv(l) && PhaseOf(l, t).Trying?
    ensures LockInv(Test(l, t))
  {
    var l' := Test(l, t);
    if l.sem.value == 0 {
      WithLast(l.sem.queue, t);
      assert forall u :: Holding(l', u) == Holding(l, u);
    } else {
      assert Holding(l', t);
      assert forall u :: u != t ==> Holding(l', u) == Holding(l, u);
    }
  }

  lemma TakeInv(l: Lock, t: Tid)
    requires LockInv(l) && PhaseOf(l, t) == Passed
    ensures LockInv(Take(l, t))
  {
    var l' := Take(l, t);
    assert Holding(l, t);
    assert forall u :: Holding(l', u) == Holding(l, u);
    forall u | PhaseOf(l, u) == Inside ensures u == t {
      OneHolder(l, t, u);
    }
  }

  lemma DropInv(l: Lock, t: Tid)
    requires LockInv(l) && PhaseOf(l, t) == Inside
    ensures LockInv(Drop(l, t))
  {
    var l' := Drop(l, t);
    assert Holding(l, t);
    assert forall u :: Holding(l', u) == Holding(l, u);
    forall u | PhaseOf(l, u) == Inside ensures u == t {
      OneHolder(l, t, u);
    }
  }

  lemma FreeInv(l: Lock, t: Tid)
    requires LockInv(l) && PhaseOf(l, t) == Cleared
    ensures LockInv(Free(l, t))
  {
    var l' := Free(l, t);
    assert Holding(l, t);
    forall u | u != t ensures !Holding(l', u) {
      if Holding(l, u) {
        OneHolder(l, t, u);
      }
    }
    assert !Holding(l', t);
    if l.sem.queue != [] {
      WithoutFirst(l.sem.queue);
      assert PhaseOf(l', l.sem.queue[0]) == Trying(true);
    }
  }

  /** V on the lock moves the first sleeper back into its test, and nobody else. */
  lemma FreeFrame(l: Lock, t: Tid, u: Tid)
    requires LockInv(l) && PhaseOf(l, t) == Cleared
    ensures u == t ==> PhaseOf(Free(l, t), u) == Outside
    ensures u != t ==> PhaseOf(Free(l, t), u) == PhaseOf(l, u) || (PhaseOf(l, u) == Asleep && PhaseOf(Free(l, t), u) == Trying(true))
  {
  }

  // ---- whole runs of any number of threads ----

  datatype Step = Acquire(t: Tid) | Advance(t: Tid) | Release(t: Tid)

  /** Advance takes a thread through the inner steps of Acquire or Release; only a thread that is inside calls
      Release. */
  predicate Enabled(l: Lock, step: Step) {
    match step
    case Acquire(t) => PhaseOf(l, t) == Outside
    case Advance(t) => PhaseOf(l, t).Trying? || PhaseOf(l, t) == Passed || PhaseOf(l, t) == Cleared
    case Release(t) => PhaseOf(l, t) == Inside
  }

  function After(l: Lock, step: Step): Lock
    requires Enabled(l, step)
  {
    match step
    case Acquire(t) => Enter(l, t)
    case Advance(t) =>
      if PhaseOf(l, t).Trying? then Test(l, t) else if PhaseOf(l, t) == Passed then Take(l, t) else Free(l, t)
    case Release(t) => Drop(l, t)
  }

  ghost predicate Run(ls: seq<Lock>, steps: seq<Step>) {
    && |ls| == |steps| + 1 && ls[0] == NEW_LOCK
    && forall i :: 0 <= i < |steps| ==> Enabled(ls[i], steps[i]) && ls[i + 1] == After(ls[i], steps[i])
  }

  lemma {:induction false} RunInv(ls: seq<Lock>, steps: seq<Step>, i: nat)
    requires Run(ls, steps) && i <= |steps|
    ensures LockInv(ls[i])
  {
    hide LockInv, Enter, Test, Take, Drop, Free;
    if i == 0 {
      NewLockInv();
    } else {
      RunInv(ls, steps, i - 1);
      var l := ls[i - 1];
      match steps[i - 1]
      case Acquire(t) => EnterInv(l, t);
      case Release(t) => DropInv(l, t);
      case Advance(t) =>
        if PhaseOf(l, t).Trying? {
          TestInv(l, t);
        } else if PhaseOf(l, t) == Passed {
          TakeInv(l, t);
        } else {
          FreeInv(l, t);
        }
    }
  }

  /** The threads past P and not yet at V. */
  function Holders(l: Lock): set<Tid> {
    set t | t in l.phases && Holding(l, t)
  }

  /** Mutual exclusion, in every state of every run: value plus holders is one, Release's ASSERT holds, and
      lockHolder is either empty or the one thread inside. */
  lemma MutualExclusion(ls: seq<Lock>, steps: seq<Step>, i: nat)
    requires Run(ls, steps) && i <= |steps|
    ensures ls[i].sem.value + |Holders(ls[i])| == 1
    ensures forall t, u :: Holding(ls[i], t) && Holding(ls[i], u) ==> t == u
    ensures forall t :: ls[i].holder == Thread(t) <==> PhaseOf(ls[i], t) == Inside
    ensures i < |steps| && steps[i].Release? ==> ls[i].holder == Thread(steps[i].t)
  {
    hide QueueRight, Awaited;
    RunInv(ls, steps, i);
    var l := ls[i];
    if l.sem.value == 1 {
      assert Holders(l) == {};
    } else {
      var h: Tid :| Holding(l, h) && forall t :: Holding(l, t) ==> t == h;
      assert Holders(l) == {h};
    }
  }

  /** A thread sleeps in Acquire only while another is holding the lock, or one woken is about to try again. */
  lemma NobodyForgotten(ls: seq<Lock>, steps: seq<Step>, i: nat, t: Tid)
    requires Run(ls, steps) && i <= |steps| && PhaseOf(ls[i], t) == Asleep
    ensures exists u :: u != t && (Holding(ls[i], u) || PhaseOf(ls[i], u) == Trying(true))
  {
    RunInv(ls, steps, i);
    var l := ls[i];
    assert t in l.sem.queue;
    if l.sem.value == 0 {
      var h: Tid :| Holding(l, h);
      assert h != t;
    } else {
      var w: Tid :| PhaseOf(l, w) == Trying(true);
      assert w != t;
    }
  }

  /** In Acquire, or past it and not yet in Release. */
  predicate Using(p: Phase) {
    p.Trying? || p == Asleep || p == Passed || p == Inside
  }

  function Users(l: Lock): set<Tid> {
    set t | t in l.phases && Using(PhaseOf(l, t))
  }

  lemma UserStep(l: Lock, step: Step, t: Tid)
    requires LockInv(l) && Enabled(l, step)
    ensures Using(PhaseOf(After(l, step), t)) <==> step == Acquire(t) || (Using(PhaseOf(l, t)) && step != Release(t))
    ensures step == Acquire(t) ==> !Using(PhaseOf(l, t))
    ensures step == Release(t) ==> Using(PhaseOf(l, t))
  {
    hide Exclusive, HolderRight, Awaited, NoDuplicates;
    if l.sem.queue != [] {
      assert l.sem.queue[0] in l.sem.queue;
    }
  }

  lemma UsersStep(l: Lock, step: Step)
    requires LockInv(l) && Enabled(l, step)
    ensures |Users(After(l, step))| == |Users(l)| + (if step.Acquire? then 1 else 0) - (if step.Release? then 1 else 0)
  {
    hide LockInv, After, Enabled, Using;
    var l' := After(l, step);
    forall t ensures t in Users(l') <==> step == Acquire(t) || (t in Users(l) && step != Release(t)) {
      UserStep(l, step, t);
      InUsers(l, t);
      InUsers(l', t);
    }
    UserStep(l, step, step.t);
    InUsers(l, step.t);
    if step.Acquire? {
      assert Users(l') == Users(l) + {step.t};
    } else if step.Release? {
      assert Users(l') == Users(l) - {step.t};
    } else {
      assert Users(l') == Users(l);
    }
  }

  lemma InUsers(l: Lock, t: Tid)
    ensures t in Users(l) <==> Using(PhaseOf(l, t))
  {
  }

  function Acquires(steps: seq<Step>, i: nat): nat
    requires i <= |steps|
  {
    if i == 0 then 0 else Acquires(steps, i - 1) + if steps[i - 1].Acquire? then 1 else 0
  }

  function Releases(steps: seq<Step>, i: nat): nat
    requires i <= |steps|
  {
    if i == 0 then 0 else Releases(steps, i - 1) + if steps[i - 1].Release? then 1 else 0
  }

  /** In every run, whoever has called Acquire is waiting for the lock, has it, or has called Release. */
  lemma {:induction false} CallsCount(ls: seq<Lock>, steps: seq<Step>, i: nat)
    requires Run(ls, steps) && i <= |steps|
    ensures Acquires(steps, i) == Releases(steps, i) + |Users(ls[i])|
  {
    hide After, Enabled, LockInv, Using;
    if i == 0 {
      NobodyUses();
    } else {
      CallsCount(ls, steps, i - 1);
      RunInv(ls, steps, i - 1);
      UsersStep(ls[i - 1], steps[i - 1]);
    }
  }

  lemma NobodyUses()
    ensures Users(NEW_LOCK) == {}
  {
  }

  /** Only a thread asleep in Acquire cannot go on. */
  lemma OnlySleepersWait(l: Lock, t: Tid)
    ensures PhaseOf(l, t) != Asleep <==> Enabled(l, Acquire(t)) || Enabled(l, Advance(t)) || Enabled(l, Release(t))
  {
  }

  /** Where each step takes its thread: a test gets it past P exactly when the lock is free, and otherwise to sleep. */
  lemma StepPhases(l: Lock, step: Step)
    requires Enabled(l, step)
    ensures var p, p' := PhaseOf(l, step.t), PhaseOf(After(l, step), step.t);
            && (p == Outside ==> p' == Trying(false))
            && (p.Trying? ==> p' == if l.sem.value > 0 then Passed else Asleep)
            && (p == Passed ==> p' == Inside)
            && (p == Inside ==> p' == Cleared)
            && (p == Cleared ==> p' == Outside)
  {
  }
}
