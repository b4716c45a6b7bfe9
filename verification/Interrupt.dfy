/** machine/interrupt.cc: the queue of pending interrupts, the simulated clock and the dispatch loop. Handlers
    are arbitrary, but like every device they may only schedule strictly in the future. */
module Interrupts {
  import opened Lists

  /** Interrupts are numbered in the order in which they are scheduled. */
  datatype PendingInterrupt = Pending(id: nat, due: int)

  /** PendingCompare */
  function CompareDue(x: PendingInterrupt, y: PendingInterrupt): int {
    if x.due < y.due then -1 else if x.due > y.due then 1 else 0
  }

  /** Earlier, or at the same time but scheduled before. */
  predicate Before(x: PendingInterrupt, y: PendingInterrupt) {
    x.due < y.due || (x.due == y.due && x.id < y.id)
  }

  ghost predicate InOrder(s: seq<PendingInterrupt>) {
    forall i, j :: 0 <= i < j < |s| ==> Before(s[i], s[j])
  }

  /** Inserting by due time alone keeps ties in the order of scheduling, since the new one is the latest. */
  lemma InsertInOrder(s: seq<PendingInterrupt>, e: PendingInterrupt)
    requires InOrder(s) && forall p <- s :: p.id < e.id
    ensures InOrder(Inserted(s, e, CompareDue))
    ensures multiset(Inserted(s, e, CompareDue)) == multiset(s) + multiset{e}
  {
    var k, r := PlaceFor(s, e, CompareDue), Inserted(s, e, CompareDue);
    InsertedItems(s, e, CompareDue);
    forall i, j | 0 <= i < j < |r| ensures Before(r[i], r[j]) {
      InsertPair(s, e, i, j);
    }
  }

  lemma InsertPair(s: seq<PendingInterrupt>, e: PendingInterrupt, i: nat, j: nat)
    requires InOrder(s) && (forall p <- s :: p.id < e.id) && i < j <= |s|
    ensures Before(Inserted(s, e, CompareDue)[i], Inserted(s, e, CompareDue)[j])
  {
    hide PlaceFor;
    var k, r := PlaceFor(s, e, CompareDue), Inserted(s, e, CompareDue);
    if i < k {
      assert r[i] == s[i];
      assert CompareDue(e, s[i]) >= 0;
      if j > k {
        assert r[j] == s[j - 1];
      } else if j < k {
        assert r[j] == s[j];
      }
    } else if i == k {
      assert r[j] == s[j - 1] && CompareDue(e, s[k]) < 0;
      assert k == j - 1 || Before(s[k], s[j - 1]);
    } else {
      assert r[i] == s[i - 1] && r[j] == s[j - 1];
    }
  }

  /** How many are due at this time; in a sorted queue they are at the front. */
  function Due(s: seq<PendingInterrupt>, now: int): nat {
    if s == [] then 0 else Due(s[1..], now) + if s[0].due <= now then 1 else 0
  }

  lemma {:induction false} DueOfConcat(s: seq<PendingInterrupt>, t: seq<PendingInterrupt>, now: int)
    ensures Due(s + t, now) == Due(s, now) + Due(t, now)
  {
    if s == [] {
      assert s + t == t;
    } else {
      assert (s + t)[1..] == s[1..] + t;
      DueOfConcat(s[1..], t, now);
    }
  }

  /** Scheduling in the future makes nothing due. */
  lemma DueAfterInsert(s: seq<PendingInterrupt>, e: PendingInterrupt, now: int)
    requires e.due > now
    ensures Due(Inserted(s, e, CompareDue), now) == Due(s, now)
  {
    var k := PlaceFor(s, e, CompareDue);
    assert s == s[..k] + s[k..];
    DueOfConcat(s[..k], s[k..], now);
    DueOfConcat(s[..k] + [e], s[k..], now);
    DueOfConcat(s[..k], [e], now);
  }

  datatype IntStatus = IntOff | IntOn

  datatype MachineStatus = IdleMode | SystemMode | UserMode

  const SYSTEM_TICK: int := 10
  const USER_TICK: int := 1

  type Delay = d: int | d > 0 witness 1

  /** An interrupt that has been delivered, and when. */
  datatype Firing = Firing(what: PendingInterrupt, at: int)

  function Events(log: seq<Firing>): (s: seq<PendingInterrupt>)
    ensures |s| == |log| && forall i :: 0 <= i < |s| ==> s[i] == log[i].what
  {
    seq(|log|, i requires 0 <= i < |log| => log[i].what)
  }

  /** Number i at index i. */
  ghost predicate Numbered(scheduled: seq<PendingInterrupt>) {
    forall i :: 0 <= i < |scheduled| ==> scheduled[i].id == i
  }

  lemma NumbersBelow(scheduled: seq<PendingInterrupt>, s: seq<PendingInterrupt>, rest: multiset<PendingInterrupt>)
    requires Numbered(scheduled) && rest + multiset(s) == multiset(scheduled)
    ensures forall p <- s :: p.id < |scheduled|
  {
    forall p <- s ensures p.id < |scheduled| {
      assert p in multiset(s);
      assert p in multiset(scheduled);
      assert p in scheduled;
    }
  }

  lemma Suffix(done: seq<PendingInterrupt>, s: seq<PendingInterrupt>)
    requires InOrder(done + s)
    ensures InOrder(s) && forall i, j :: 0 <= i < |done| && 0 <= j < |s| ==> Before(done[i], s[j])
  {
    forall i, j | 0 <= i < j < |s| ensures Before(s[i], s[j]) {
      assert (done + s)[|done| + i] == s[i] && (done + s)[|done| + j] == s[j];
    }
    forall i, j | 0 <= i < |done| && 0 <= j < |s| ensures Before(done[i], s[j]) {
      assert (done + s)[i] == done[i] && (done + s)[|done| + j] == s[j];
    }
  }

  /** A new interrupt, due after everything delivered so far, takes its place behind it. */
  lemma StillInOrder(done: seq<PendingInterrupt>, s: seq<PendingInterrupt>, e: PendingInterrupt)
    requires InOrder(done + s) && (forall p <- s :: p.id < e.id) && forall d <- done :: d.due < e.due
    ensures InOrder(done + Inserted(s, e, CompareDue))
  {
    Suffix(done, s);
    InsertInOrder(s, e);
    var r := Inserted(s, e, CompareDue);
    forall i, j | 0 <= i < j < |done| ensures Before(done[i], done[j]) {
      assert (done + s)[i] == done[i] && (done + s)[j] == done[j];
    }
    forall i, j | 0 <= i < |done| && 0 <= j < |r| ensures Before(done[i], r[j]) {
      Members(s, e, j);
      assert done[i] in done;
    }
  }

  lemma Members(s: seq<PendingInterrupt>, e: PendingInterrupt, j: nat)
    requires j <= |s|
    ensures Inserted(s, e, CompareDue)[j] == e || Inserted(s, e, CompareDue)[j] in s
  {
    var k, r := PlaceFor(s, e, CompareDue), Inserted(s, e, CompareDue);
    assert j < k ==> r[j] == s[j];
    assert j > k ==> r[j] == s[j - 1];
  }

  class Interrupt {
    var level: IntStatus
    var pending: seq<PendingInterrupt> // a SortedList
    var inHandler: bool
    var yieldOnReturn: bool
    var status: MachineStatus
    var totalTicks: int
    var numScheduled: nat
    ghost var scheduled: seq<PendingInterrupt> // everything ever scheduled
    ghost var fired: seq<Firing>               // everything delivered, in order

    /** Every interrupt scheduled is either pending or has been delivered, once; deliveries were never early,
        and the deliveries followed by the queue are in order of due time, ties in order of scheduling. */
    ghost predicate Valid()
      reads `pending, `totalTicks, `numScheduled, `scheduled, `fired
    {
      && Numbered(scheduled) && numScheduled == |scheduled|
      && multiset(Events(fired)) + multiset(pending) == multiset(scheduled)
      && InOrder(Events(fired) + pending)
      && (forall f <- fired :: f.what.due <= f.at <= totalTicks)
      && (forall i, j :: 0 <= i < j < |fired| ==> fired[i].at <= fired[j].at)
    }

    /** Nothing is overdue. */
    ghost predicate Caught()
      reads `pending, `totalTicks
    {
      forall p <- pending :: p.due > totalTicks
    }

    constructor ()
      ensures Valid() && Caught() && level == IntOff && !inHandler && totalTicks == 0 && scheduled == [] && fired == []
    {
      level, pending, inHandler, yieldOnReturn, status, totalTicks := IntOff, [], false, false, SystemMode, 0;
      numScheduled, scheduled, fired := 0, [], [];
    }

    method Schedule(fromNow: Delay)
      requires Valid()
      modifies this`pending, this`numScheduled, this`scheduled
      ensures Valid()
      ensures scheduled == old(scheduled) + [Pending(|old(scheduled)|, totalTicks + fromNow)]
      ensures Due(pending, totalTicks) == Due(old(pending), totalTicks)
    {
      hide Inserted, InOrder;
      var toOccur := Pending(numScheduled, totalTicks + fromNow);
      NumbersBelow(scheduled, pending, multiset(Events(fired)));
      StillInOrder(Events(fired), pending, toOccur);
      InsertedItems(pending, toOccur, CompareDue);
      DueAfterInsert(pending, toOccur, totalTicks);
      pending := Inserted(pending, toOccur, CompareDue);
      numScheduled := numScheduled + 1;
      scheduled := scheduled + [toOccur];
    }

    /** Some device's handler: it may schedule any number of interrupts in the future, and ask for a context
        switch. */
    method CallBack()
      requires Valid() && inHandler && level == IntOff
      modifies this`pending, this`numScheduled, this`scheduled, this`yieldOnReturn
      ensures Valid() && old(scheduled) <= scheduled
      ensures Due(pending, totalTicks) == Due(old(pending), totalTicks)
    {
      var delays: seq<Delay> := *;
      var yielding: bool := *;
      for i := 0 to |delays|
        invariant Valid() && old(scheduled) <= scheduled
        invariant Due(pending, totalTicks) == Due(old(pending), totalTicks)
      {
        Schedule(delays[i]);
      }
      yieldOnReturn := yieldOnReturn || yielding;
    }

    /** Takes the first interrupt off the queue and calls its handler. */
    method FireFirst()
      requires Valid() && inHandler && level == IntOff && pending != [] && pending[0].due <= totalTicks
      modifies this`pending, this`numScheduled, this`scheduled, this`yieldOnReturn, this`fired
      ensures Valid() && old(scheduled) <= scheduled
      ensures fired == old(fired) + [Firing(old(pending)[0], totalTicks)]
      ensures Due(pending, totalTicks) == Due(old(pending), totalTicks) - 1
    {
      hide InOrder, Numbered, Before, Events;
      ghost var before := pending;
      var next := pending[0];
      pending := pending[1..];
      fired := fired + [Firing(next, totalTicks)];
      FrontMoves(before, Events(old(fired)), Events(fired));
      CallBack();
    }

    /** The dispatch loop. It ends because handlers only schedule in the future: with every delivery there is
        one interrupt less that is due. */
    method Dispatch()
      requires Valid() && level == IntOff && !inHandler && pending != [] && pending[0].due <= totalTicks
      modifies this`pending, this`numScheduled, this`scheduled, this`yieldOnReturn, this`fired, this`inHandler
      ensures Valid() && !inHandler && Caught() && Delivered(old(scheduled), old(fired), old(pending))
    {
      hide InOrder, Numbered, Before, Valid, Due;
      ghost var scheduled0, fired0, pending0 := scheduled, fired, pending;
      inHandler := true;
      DueAtFront(pending, totalTicks);
      FireFirst();
      while pending != [] && pending[0].due <= totalTicks
        invariant Valid() && inHandler && Delivered(scheduled0, fired0, pending0)
        decreases Due(pending, totalTicks)
      {
        DueAtFront(pending, totalTicks);
        FireFirst();
      }
      NothingDue();
      inHandler := false;
    }

    /** The queue is sorted, so its front decides. */
    lemma NothingDue()
      requires Valid() && (pending == [] || pending[0].due > totalTicks)
      ensures Caught()
    {
      FrontIsFirst(Events(fired), pending);
    }

    /** Since the state given, interrupts have been delivered at the present time, the first in the queue first. */
    ghost predicate Delivered(scheduled0: seq<PendingInterrupt>, fired0: seq<Firing>, pending0: seq<PendingInterrupt>)
      reads `totalTicks, `scheduled, `fired
    {
      && scheduled0 <= scheduled && fired0 <= fired
      && |fired| > |fired0| && pending0 != [] && fired[|fired0|].what == pending0[0]
      && forall i :: |fired0| <= i < |fired| ==> fired[i].at == totalTicks
    }

    /** Fires what is due, first moving the clock to the next interrupt if there is nothing else to do. */
    method CheckIfDue(advanceClock: bool) returns (any: bool)
      requires Valid() && level == IntOff && !inHandler
      modifies this`pending, this`numScheduled, this`scheduled, this`yieldOnReturn, this`fired, this`inHandler, this`totalTicks
      ensures Valid() && !inHandler && Caught()
      ensures any <==> old(pending) != [] && (advanceClock || old(pending)[0].due <= old(totalTicks))
      ensures !any ==> totalTicks == old(totalTicks) && fired == old(fired) && pending == old(pending) && scheduled == old(scheduled)
      ensures any ==> Delivered(old(scheduled), old(fired), old(pending))
      ensures old(scheduled) <= scheduled && old(fired) <= fired
      ensures any ==> totalTicks == if old(pending)[0].due > old(totalTicks) then old(pending)[0].due else old(totalTicks)
    {
      hide InOrder, Numbered, Before;
      FrontIsFirst(Events(fired), pending);
      if pending == [] {
        return false;
      }
      if pending[0].due > totalTicks {
        if !advanceClock {
          return false;
        }
        totalTicks := pending[0].due;
      }
      Dispatch();
      any := true;
    }

    /** ChangeLevel */
    method ChangeLevel(now: IntStatus)
      modifies this`level
      ensures level == now
    {
      level := now;
    }

    method Advance(ticks: nat)
      requires Valid()
      modifies this`totalTicks
      ensures Valid() && totalTicks == old(totalTicks) + ticks
    {
      hide InOrder, Numbered;
      totalTicks := totalTicks + ticks;
    }

    /** One tick of the clock, after which nothing is overdue. The yield that a handler may have asked for
        belongs to the thread machine. */
    method OneTick()
      requires Valid() && !inHandler && level == IntOn
      modifies this
      ensures Valid() && !inHandler && level == IntOn && Caught() && !yieldOnReturn
      ensures totalTicks == old(totalTicks) + if old(status) == SystemMode then SYSTEM_TICK else USER_TICK
      ensures old(scheduled) <= scheduled && old(fired) <= fired && status == old(status)
    {
      hide InOrder, Numbered, Before, Caught, Valid, Delivered;
      Advance(if status == SystemMode then SYSTEM_TICK else USER_TICK);
      ChangeLevel(IntOff);
      var _ := CheckIfDue(false);
      ChangeLevel(IntOn);
      yieldOnReturn := false;
    }

    /** Enabling interrupts costs a tick; handlers may not do it, but they may turn interrupts off. */
    method SetLevel(now: IntStatus) returns (before: IntStatus)
      requires Valid() && (now == IntOff || !inHandler)
      modifies this
      ensures Valid() && inHandler == old(inHandler) && level == now && before == old(level)
      ensures old(scheduled) <= scheduled && old(fired) <= fired
      ensures now == IntOn && before == IntOff ==>
                Caught() && totalTicks == old(totalTicks) + if old(status) == SystemMode then SYSTEM_TICK else USER_TICK
      ensures !(now == IntOn && before == IntOff) ==> totalTicks == old(totalTicks) && fired == old(fired) && pending == old(pending)
    {
      hide InOrder, Numbered, Before;
      before := level;
      ChangeLevel(now);
      if now == IntOn && before == IntOff {
        OneTick();
      }
    }

    /** Idle: returns whether an interrupt was delivered; without any, the machine halts. */
    method Idle() returns (any: bool)
      requires Valid() && !inHandler && level == IntOff
      modifies this
      ensures Valid() && !inHandler && Caught() && level == IntOff
      ensures old(scheduled) <= scheduled && old(fired) <= fired
      ensures any <==> old(pending) != []
      ensures any ==> |fired| > |old(fired)| && status == SystemMode
      ensures any ==> totalTicks == if old(pending)[0].due > old(totalTicks) then old(pending)[0].due else old(totalTicks)
    {
      hide InOrder, Numbered, Before, Caught;
      status := IdleMode;
      any := CheckIfDue(true);
      if any {
        status := SystemMode;
      }
    }

    // ---- what every run shows ----

    /** No interrupt is delivered twice or early; deliveries are in order of due time, ties in order of
        scheduling; and one that is not pending any more has been delivered. */
    lemma Deliveries(i: nat, j: nat, n: nat)
      requires Valid() && i < j < |fired| && n < |scheduled|
      ensures Before(fired[i].what, fired[j].what) && fired[i].what != fired[j].what
      ensures fired[i].at >= fired[i].what.due
      ensures scheduled[n] in pending || exists k :: 0 <= k < |fired| && fired[k].what == scheduled[n]
    {
      var all := Events(fired) + pending;
      assert all[i] == fired[i].what && all[j] == fired[j].what;
      assert fired[i] in fired;
      assert scheduled[n] in multiset(scheduled);
      if scheduled[n] !in pending {
        assert scheduled[n] in Events(fired);
        var k :| 0 <= k < |fired| && Events(fired)[k] == scheduled[n];
        assert fired[k].what == scheduled[n];
      }
    }

    /** Once the queue has been caught up with, everything due by now has been delivered. */
    lemma NothingMissed(n: nat)
      requires Valid() && Caught() && n < |scheduled| && scheduled[n].due <= totalTicks
      ensures exists k :: 0 <= k < |fired| && fired[k].what == scheduled[n]
    {
      assert scheduled[n] in multiset(scheduled);
      assert scheduled[n] in Events(fired);
      var k :| 0 <= k < |fired| && Events(fired)[k] == scheduled[n];
      assert fired[k].what == scheduled[n];
    }
  }

  lemma FrontMoves(pending: seq<PendingInterrupt>, done: seq<PendingInterrupt>, done': seq<PendingInterrupt>)
    requires pending != [] && done' == done + [pending[0]]
    ensures done' + pending[1..] == done + pending
    ensures multiset(done') + multiset(pending[1..]) == multiset(done) + multiset(pending)
  {
    assert pending == [pending[0]] + pending[1..];
  }

  lemma FrontIsFirst(done: seq<PendingInterrupt>, pending: seq<PendingInterrupt>)
    requires InOrder(done + pending)
    ensures forall p <- pending :: pending[0].due <= p.due
  {
    Suffix(done, pending);
  }

  lemma DueAtFront(pending: seq<PendingInterrupt>, now: int)
    requires pending != [] && pending[0].due <= now
    ensures Due(pending, now) > 0
  {
  }
}
