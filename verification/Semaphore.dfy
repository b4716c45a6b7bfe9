/** threads/synch.cc, Semaphore: what the two interrupts-off regions do to the object. P is a loop around
    `Tested`: a thread that finds the value zero queues itself and sleeps, and tests again once it runs. */
module Semaphores {

  type Tid = nat

  datatype Sem = Sem(value: nat, queue: seq<Tid>)

  function NewSem(value: nat): Sem {
    Sem(value, [])
  }

  /** One pass of P's test by thread t: take a unit, or join the queue. */
  function Tested(sem: Sem, t: Tid): Sem {
    if sem.value == 0 then sem.(queue := sem.queue + [t])
    else sem.(value := sem.value - 1)
  }

  /** V: the first waiter, if any, leaves the queue, and the value goes up. */
  function Raised(sem: Sem): Sem {
    sem.(value := sem.value + 1, queue := if sem.queue == [] then [] else sem.queue[1..])
  }
}
