/** threads/scheduler.cc, thread.cc and synch.cc as they are written: routines that update the kernel's
    objects in place, each interrupts-off region up to its SWITCH proved equal to one step of the machine. */
module Schedulers {
  import opened Collections
  import opened Semaphores
  import opened Kernels

  class System {
    var currentThread: Tid
    var readyList: seq<Tid>
    var toBeDestroyed: Option<Tid>
    var threads: map<Tid, Thread>
    var sems: map<SemId, Sem>
    const initial: map<SemId, nat>

    function State(): Kernel
      reads this
    {
      Kernel(currentThread, readyList, toBeDestroyed, threads, sems, initial)
    }

    constructor (main: Tid, initial: map<SemId, nat>)
      ensures Init(State()) && currentThread == main
    {
      currentThread := main;
      readyList := [];
      toBeDestroyed := None;
      threads := map[main := Thread(Running, Code)];
      sems := map s | s in initial :: NewSem(initial[s]);
      this.initial := initial;
    }

    method SetStatus(t: Tid, status: Status)
      requires t in threads
      modifies this`threads
      ensures State() == Kernels.SetStatus(old(State()), t, status)
    {
      threads := threads[t := threads[t].(status := status)];
    }

    method ReadyToRun(t: Tid)
      requires t in threads
      modifies this`threads, this`readyList
      ensures State() == Kernels.ReadyToRun(old(State()), t)
    {
      SetStatus(t, Ready);
      readyList := readyList + [t];
    }

    method FindNextToRun() returns (next: Option<Tid>)
      modifies this`readyList
      ensures next == if old(readyList) == [] then None else Some(old(readyList)[0])
      ensures readyList == if old(readyList) == [] then [] else old(readyList)[1..]
    {
      if readyList == [] {
        return None;
      }
      next := Some(readyList[0]);
      readyList := readyList[1..];
    }

    /** Scheduler::Run up to SWITCH: the old thread will go on at `resume`. */
    method Run(next: Tid, finishing: bool, resume: Point)
      requires currentThread in threads && next in threads
      requires finishing ==> toBeDestroyed == None
      modifies this`currentThread, this`toBeDestroyed, this`threads
      ensures State() == Kernels.SetStatus(Goto(old(State()), old(currentThread), resume), next, Running)
                         .(current := next, toBeDestroyed := if finishing then Some(old(currentThread)) else old(toBeDestroyed))
    {
      var oldThread := currentThread;
      if finishing {
        assert toBeDestroyed == None;
        toBeDestroyed := Some(oldThread);
      }
      currentThread := next;
      threads := threads[oldThread := threads[oldThread].(at := resume)];
      SetStatus(next, Running);
    }

    method CheckToBeDestroyed()
      requires toBeDestroyed != Some(currentThread)
      modifies this`toBeDestroyed, this`threads
      ensures State() == CleanUp(old(State()))
    {
      match toBeDestroyed
      case None =>
      case Some(t) =>
        assert t != currentThread;
        threads := threads - {t};
        toBeDestroyed := None;
    }

    /** Semaphore::V */
    method V(s: SemId)
      requires s in sems && forall t <- sems[s].queue :: t in threads
      modifies this`threads, this`readyList, this`sems
      ensures State() == Raise(old(State()), s)
    {
      var sem := sems[s];
      if sem.queue != [] {
        var t := sem.queue[0];
        sem := sem.(queue := sem.queue[1..]);
        ReadyToRun(t);
      }
      sems := sems[s := sem.(value := sem.value + 1)];
    }

    /** One pass of the loop in Semaphore::P, up to the search for another thread. */
    method TestValue(s: SemId)
      requires s in sems && currentThread in threads
      modifies this`threads, this`sems
      ensures State() == AfterTest(old(State()), s)
    {
      var sem := sems[s];
      if sem.value == 0 {
        sems := sems[s := sem.(queue := sem.queue + [currentThread])];
        threads := threads[currentThread := threads[currentThread].(at := Sleeping(s))];
        SetStatus(currentThread, Blocked);
      } else {
        sems := sems[s := sem.(value := sem.value - 1)];
        threads := threads[currentThread := threads[currentThread].(at := Code)];
      }
    }

    /** Thread::Yield up to SWITCH */
    method Yield()
      requires Inv(State()) && Enabled(State(), Step.Yield)
      modifies this
      ensures State() == After(old(State()), Step.Yield)
    {
      hide Placed, QueueOk, Woken, NoLostWakeup;
      var next := FindNextToRun();
      if next.Some? {
        ReadyToRun(currentThread);
        Run(next.value, false, Switched(ToCode));
      }
    }

    /** The loop of Thread::Sleep, once it has found a thread to run */
    method Dispatch()
      requires Inv(State()) && Enabled(State(), Step.Dispatch)
      modifies this
      ensures State() == After(old(State()), Step.Dispatch)
    {
      hide QueueOk, Woken, NoLostWakeup;
      assert Placed(State(), currentThread);
      var at := threads[currentThread].at;
      var next := FindNextToRun();
      Run(next.value, at == Finishing, ResumeAt(at));
    }

    /** The thread just switched to cleans up, and returns from SWITCH or begins. */
    method Proceed()
      requires Inv(State()) && Enabled(State(), Step.Proceed)
      modifies this
      ensures State() == After(old(State()), Step.Proceed)
    {
      hide QueueOk, Woken, NoLostWakeup;
      assert Placed(State(), currentThread);
      var resumed := Resumed(threads[currentThread].at);
      CheckToBeDestroyed();
      threads := threads[currentThread := threads[currentThread].(at := resumed)];
    }

    /** Any one step. */
    method Take(step: Step)
      requires Inv(State()) && Enabled(State(), step)
      modifies this
      ensures State() == After(old(State()), step) && Inv(State())
    {
      hide Inv, Shape;
      StepInv(State(), step);
      match step
      case NewThread(t) => threads := threads[t := Thread(JustCreated, Fresh)];
      case Fork(t) =>
        threads := threads[t := threads[t].(at := Start)];
        ReadyToRun(t);
      case CallP(s) => threads := threads[currentThread := threads[currentThread].(at := Testing(s, false))];
      case Test => TestValue(threads[currentThread].at.s);
      case CallV(s) => V(s);
      case IdleInterrupt(s) => V(s);
      case Yield => Yield();
      case Finish =>
        threads := threads[currentThread := threads[currentThread].(at := Finishing)];
        SetStatus(currentThread, Blocked);
      case Dispatch => Dispatch();
      case Proceed => Proceed();
    }

    /** Runs any schedule from any good state, skipping what is not possible. The ASSERTs in the routines hold
        throughout, and every state on the way satisfies the invariant. */
    method Execute(schedule: seq<Step>) returns (ghost ks: seq<Kernel>, ghost steps: seq<Step>)
      requires Inv(State())
      modifies this
      ensures Inv(State()) && |ks| == |steps| + 1 && ks[0] == old(State()) && ks[|steps|] == State()
      ensures forall i :: 0 <= i < |steps| ==> Enabled(ks[i], steps[i]) && ks[i + 1] == After(ks[i], steps[i])
      ensures forall k <- ks :: Inv(k)
    {
      hide Inv, After, Enabled;
      ks, steps := [State()], [];
      for i := 0 to |schedule|
        invariant Inv(State()) && |ks| == |steps| + 1 && ks[0] == old(State()) && ks[|steps|] == State()
        invariant forall j :: 0 <= j < |steps| ==> Enabled(ks[j], steps[j]) && ks[j + 1] == After(ks[j], steps[j])
        invariant forall k <- ks :: Inv(k)
      {
        if Enabled(State(), schedule[i]) {
          Take(schedule[i]);
          ks, steps := ks + [State()], steps + [schedule[i]];
        }
      }
    }
  }
}
