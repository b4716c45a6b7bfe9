/** machine/disk.cc: how long a request takes on a disk that turns all the time, and what its track buffer
    holds. The head is over sector slot k of a track from k * ROTATION_TIME on. */
module DiskTiming {
  import opened Layout
  import opened SectorStores

  const SECTORS_PER_TRACK: nat := 32
  const NUM_TRACKS: nat := 32
  const ROTATION_TIME: nat := 500
  const SEEK_TIME: nat := 500

  type SectorNumber = s: nat | s < NUM_SECTORS

  /** The sector passes under the head in this slot. */
  predicate Passes(sector: SectorNumber, slot: nat) {
    slot % SECTORS_PER_TRACK == sector % SECTORS_PER_TRACK
  }

  /** Sectors to go from the head's position to the target. */
  function ModuloDiff(to: nat, from: nat): nat {
    ((to % SECTORS_PER_TRACK - from % SECTORS_PER_TRACK) + SECTORS_PER_TRACK) % SECTORS_PER_TRACK
  }

  /** ModuloDiff leads to the next slot, from this one on, in which the sector passes. */
  lemma NextPass(sector: SectorNumber, from: nat, slot: nat)
    requires from <= slot
    ensures Passes(sector, from + ModuloDiff(sector, from))
    ensures ModuloDiff(sector, from) < SECTORS_PER_TRACK
    ensures Passes(sector, slot) ==> from + ModuloDiff(sector, from) <= slot
  {
    var t, f, q := sector % SECTORS_PER_TRACK, from % SECTORS_PER_TRACK, from / SECTORS_PER_TRACK;
    var d := ModuloDiff(sector, from);
    assert d == if t >= f then t - f else t - f + SECTORS_PER_TRACK;
    assert from == SECTORS_PER_TRACK * q + f;
    assert from + d == SECTORS_PER_TRACK * (if t >= f then q else q + 1) + t;
    if Passes(sector, slot) {
      var m := slot / SECTORS_PER_TRACK;
      assert slot == SECTORS_PER_TRACK * m + t;
      assert m >= if t >= f then q else q + 1;
    }
  }

  function TrackOf(sector: SectorNumber): nat {
    sector / SECTORS_PER_TRACK
  }

  function SeekFor(from: SectorNumber, to: SectorNumber): nat {
    (if TrackOf(to) >= TrackOf(from) then TrackOf(to) - TrackOf(from) else TrackOf(from) - TrackOf(to)) * SEEK_TIME
  }

  lemma TrackHolds(sector: SectorNumber)
    ensures TrackOf(sector) < NUM_TRACKS
    ensures SECTORS_PER_TRACK * TrackOf(sector) <= sector < SECTORS_PER_TRACK * (TrackOf(sector) + 1)
  {
  }

  /** Seeking costs 500 ticks from one track to the next, as much in one direction as in the other, and adds up
      along the way. */
  lemma SeekAddsUp(a: SectorNumber, b: SectorNumber, c: SectorNumber)
    ensures TrackOf(b) == TrackOf(a) ==> SeekFor(a, b) == 0
    ensures TrackOf(b) == TrackOf(a) + 1 ==> SeekFor(a, b) == 500
    ensures SeekFor(a, b) == SeekFor(b, a)
    ensures TrackOf(a) <= TrackOf(b) <= TrackOf(c) ==> SeekFor(a, c) == SeekFor(a, b) + SeekFor(b, c)
  {
  }

  /** So it costs 500 ticks for every track crossed. */
  lemma {:induction false} SeekOver(a: SectorNumber, b: SectorNumber, n: nat)
    requires TrackOf(b) == TrackOf(a) + n || TrackOf(a) == TrackOf(b) + n
    ensures SeekFor(a, b) == 500 * n
    decreases n
  {
    hide SeekFor, TrackOf;
    SeekAddsUp(a, b, b);
    if n > 0 {
      var low, high := if TrackOf(a) < TrackOf(b) then a else b, if TrackOf(a) < TrackOf(b) then b else a;
      TrackHolds(low);
      TrackHolds(high);
      var next := SECTORS_PER_TRACK * (TrackOf(low) + 1);
      OnTrack(TrackOf(low) + 1);
      SeekOver(next, high, n - 1);
      SeekAddsUp(low, next, high);
    }
  }

  lemma OnTrack(track: nat)
    requires track < NUM_TRACKS
    ensures SECTORS_PER_TRACK * track < NUM_SECTORS && TrackOf(SECTORS_PER_TRACK * track) == track
  {
  }

  /** The first slot that begins at this time or later. */
  function FirstSlot(time: nat): (k: nat)
    ensures (k - 1) * ROTATION_TIME < time <= k * ROTATION_TIME
  {
    (time + ROTATION_TIME - 1) / ROTATION_TIME
  }

  /** The first slot from k on in which the sector passes. */
  function FirstPass(sector: SectorNumber, k: nat): (slot: nat)
    ensures slot >= k && slot < k + SECTORS_PER_TRACK && Passes(sector, slot)
    ensures forall j :: k <= j < slot ==> !Passes(sector, j)
  {
    NextPass(sector, k, k);
    assert forall j :: k <= j && Passes(sector, j) ==> k + ModuloDiff(sector, k) <= j by {
      forall j | k <= j && Passes(sector, j) ensures k + ModuloDiff(sector, k) <= j {
        NextPass(sector, k, j);
      }
    }
    k + ModuloDiff(sector, k)
  }

  /** The track buffer has the sector: it passed under the head in full after the buffer was last emptied and
      before the next sector boundary. */
  ghost predicate Buffered(sector: SectorNumber, bufferInit: nat, boundary: nat) {
    exists k :: bufferInit <= k * ROTATION_TIME && (k + 1) * ROTATION_TIME <= boundary && Passes(sector, k)
  }

  /** Going over n tracks, the sector cannot pass in full before the head has got there. */
  lemma NoEarlier(from: SectorNumber, to: SectorNumber, now: nat, ticks: nat)
    requires var start := FirstSlot(now + SeekFor(from, to));
             ticks == (FirstPass(to, start) + 1) * ROTATION_TIME - now || (SeekFor(from, to) == 0 && ticks == ROTATION_TIME)
    ensures forall n: nat :: TrackOf(to) == TrackOf(from) + n || TrackOf(from) == TrackOf(to) + n ==>
              now + ticks >= now + 500 * n + ROTATION_TIME
  {
    hide SeekFor, FirstPass;
    forall n: nat | TrackOf(to) == TrackOf(from) + n || TrackOf(from) == TrackOf(to) + n
      ensures now + ticks >= now + 500 * n + ROTATION_TIME
    {
      SeekOver(from, to, n);
    }
  }

  class Disk {
    const store: SectorStore // the file that holds the sectors
    var lastSector: SectorNumber
    var bufferInit: nat
    var active: bool
    ghost var doneAt: nat // when the last request completes or completed

    /** The buffer was emptied at a sector boundary that lies in the past, or, during a request, before its end. */
    ghost predicate Valid(now: nat)
      reads this
    {
      && bufferInit % ROTATION_TIME == 0
      && bufferInit <= (if active then doneAt else now)
      && (!active ==> doneAt <= now)
    }

    constructor (store: SectorStore)
      ensures forall now :: Valid(now)
      ensures !active && bufferInit == 0 && this.store == store
    {
      this.store := store;
      lastSector, bufferInit, active := 0, 0, false;
      doneAt := 0;
    }

    /** The time to get to the right track, and then to the next sector boundary. */
    method TimeToSeek(newSector: SectorNumber, now: nat) returns (seek: nat, rotation: nat)
      ensures seek == SeekFor(lastSector, newSector)
      ensures now + seek + rotation == FirstSlot(now + seek) * ROTATION_TIME && rotation < ROTATION_TIME
    {
      var newTrack, oldTrack := newSector / SECTORS_PER_TRACK, lastSector / SECTORS_PER_TRACK;
      seek := (if newTrack >= oldTrack then newTrack - oldTrack else oldTrack - newTrack) * SEEK_TIME;
      var over := (now + seek) % ROTATION_TIME;
      rotation := 0;
      if over > 0 {
        rotation := ROTATION_TIME - over;
      }
      Boundary(now + seek, rotation);
    }

    /** ComputeLatency: one slot for a buffer hit; otherwise exactly until the sector has passed in full for the
        first time after the head is on its track and at a boundary. */
    method ComputeLatency(newSector: SectorNumber, writing: bool, now: nat) returns (ticks: nat)
      requires Valid(now) && !active
      ensures var seek := SeekFor(lastSector, newSector);
              var start := FirstSlot(now + seek);
              var hit := !writing && seek == 0 && Buffered(newSector, bufferInit, start * ROTATION_TIME);
              ticks == if hit then ROTATION_TIME else (FirstPass(newSector, start) + 1) * ROTATION_TIME - now
    {
      var seek, rotation := TimeToSeek(newSector, now);
      var timeAfter := now + seek + rotation;
      assert timeAfter / ROTATION_TIME == FirstSlot(now + seek);
      BufferTest(newSector, bufferInit, FirstSlot(now + seek));
      if !writing && seek == 0 && (timeAfter - bufferInit) / ROTATION_TIME > ModuloDiff(newSector, bufferInit / ROTATION_TIME) {
        return ROTATION_TIME;
      }
      rotation := rotation + ModuloDiff(newSector, timeAfter / ROTATION_TIME) * ROTATION_TIME;
      ticks := seek + rotation + ROTATION_TIME;
    }

    /** Keeps track of what is in the buffer. */
    method UpdateLast(newSector: SectorNumber, now: nat)
      modifies this`lastSector, this`bufferInit
      ensures lastSector == newSector
      ensures bufferInit == if TrackOf(newSector) == TrackOf(old(lastSector)) then old(bufferInit)
                            else FirstSlot(now + SeekFor(old(lastSector), newSector)) * ROTATION_TIME
    {
      var seek, rotate := TimeToSeek(newSector, now);
      if seek != 0 {
        bufferInit := now + seek + rotate;
      }
      lastSector := newSector;
    }

    /** ReadRequest or WriteRequest: the data move at once; the result is the ticks after which the disk will
        interrupt. */
    method Request(sector: SectorNumber, data: array<byte>, writing: bool, now: nat) returns (ticks: nat)
      requires Valid(now) && !active && data.Length >= SECTOR_SIZE
      modifies this, data, store
      ensures Valid(now) && active && doneAt == now + ticks && lastSector == sector
      ensures ROTATION_TIME <= ticks < (NUM_TRACKS - 1) * SEEK_TIME + (SECTORS_PER_TRACK + 1) * ROTATION_TIME
      ensures var seek := SeekFor(old(lastSector), sector);
              var start := FirstSlot(now + seek);
              var hit := !writing && seek == 0 && Buffered(sector, old(bufferInit), start * ROTATION_TIME);
              doneAt == if hit then now + ROTATION_TIME else (FirstPass(sector, start) + 1) * ROTATION_TIME
      ensures forall n: nat :: TrackOf(sector) == TrackOf(old(lastSector)) + n || TrackOf(old(lastSector)) == TrackOf(sector) + n ==>
                doneAt >= now + 500 * n + ROTATION_TIME
      ensures store.sectors == if writing then old(store.sectors)[sector := old(data[..SECTOR_SIZE])] else old(store.sectors)
      ensures data[..] == if writing then old(data[..]) else Overlay(old(data[..]), 0, old(store.sectors)[sector])
    {
      hide FirstSlot, Buffered;
      ticks := ComputeLatency(sector, writing, now);
      NoEarlier(lastSector, sector, now, ticks);
      assert !active;
      if writing {
        store.WriteSector(sector, data, 0);
      } else {
        store.ReadSector(sector, data, 0);
      }
      active := true;
      UpdateLast(sector, now);
      doneAt := now + ticks;
    }

    /** The interrupt for the request in progress. */
    method CallBack(now: nat)
      requires active && doneAt <= now && Valid(now)
      modifies this`active
      ensures !active && Valid(now)
    {
      active := false;
    }
  }

  lemma Boundary(time: nat, rotation: nat)
    requires rotation == if time % ROTATION_TIME > 0 then ROTATION_TIME - time % ROTATION_TIME else 0
    ensures time + rotation == FirstSlot(time) * ROTATION_TIME
  {
  }

  /** The code's test, a count of slots against a distance, says whether the sector is in the buffer. */
  lemma BufferTest(sector: SectorNumber, bufferInit: nat, start: nat)
    requires bufferInit % ROTATION_TIME == 0
    ensures Buffered(sector, bufferInit, start * ROTATION_TIME) <==>
            (start * ROTATION_TIME - bufferInit) / ROTATION_TIME > ModuloDiff(sector, bufferInit / ROTATION_TIME)
  {
    var first := bufferInit / ROTATION_TIME;
    assert bufferInit == first * ROTATION_TIME;
    assert (start * ROTATION_TIME - bufferInit) / ROTATION_TIME == start - first;
    var k := first + ModuloDiff(sector, first);
    NextPass(sector, first, first);
    if start - first > ModuloDiff(sector, first) {
      assert bufferInit <= k * ROTATION_TIME && (k + 1) * ROTATION_TIME <= start * ROTATION_TIME && Passes(sector, k);
    }
    if Buffered(sector, bufferInit, start * ROTATION_TIME) {
      var j :| bufferInit <= j * ROTATION_TIME && (j + 1) * ROTATION_TIME <= start * ROTATION_TIME && Passes(sector, j);
      NextPass(sector, first, j);
    }
  }
}
