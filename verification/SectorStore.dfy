/** filesys/synchdisk.cc and machine/disk.cc as the file system sees them: a synchronous store of whole sectors.
    (The asynchronous handshake behind it is modelled in SynchDisk.dfy.) */
module SectorStores {
  import opened Layout

  const SECTOR_SIZE: nat := 128
  const NUM_SECTORS: nat := 1024

  type Sector = s: seq<byte> | |s| == SECTOR_SIZE witness seq(SECTOR_SIZE, _ => 0)

  const BLANK: Sector := seq(SECTOR_SIZE, _ => 0)

  type Sectors = s: seq<Sector> | |s| == NUM_SECTORS witness seq(NUM_SECTORS, _ => BLANK)

  /** `base` with `patch` written over it from position `at` on. */
  function Overlay<T>(base: seq<T>, at: nat, patch: seq<T>): (r: seq<T>)
    requires at + |patch| <= |base|
    ensures |r| == |base|
    ensures forall k :: 0 <= k < |r| ==> r[k] == if at <= k < at + |patch| then patch[k - at] else base[k]
  {
    base[..at] + patch + base[at + |patch|..]
  }

  class SectorStore {
    var sectors: Sectors

    constructor (contents: Sectors)
      ensures sectors == contents
    {
      sectors := contents;
    }

    method ReadSector(sector: int, into: array<byte>, at: nat)
      requires 0 <= sector < NUM_SECTORS && at + SECTOR_SIZE <= into.Length
      modifies into
      ensures into[..] == Overlay(old(into[..]), at, sectors[sector])
    {
      var data := sectors[sector];
      forall k | 0 <= k < SECTOR_SIZE {
        into[at + k] := data[k];
      }
    }

    method WriteSector(sector: int, from: array<byte>, at: nat)
      requires 0 <= sector < NUM_SECTORS && at + SECTOR_SIZE <= from.Length
      modifies this
      ensures sectors == old(sectors)[sector := from[at..at + SECTOR_SIZE]]
    {
      sectors := sectors[sector := from[at..at + SECTOR_SIZE]];
    }
  }
}
