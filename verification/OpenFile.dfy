/** filesys/openfile.cc: byte-granular reads and writes over whole-sector disk transfers, refining
    an array of bytes of fixed length. */
module OpenFiles {
  import opened Layout
  import opened SectorStores
  import opened FileHeaders

  /** The byte at offset k of the file that header h describes. */
  function FileByte(disk: Sectors, h: Header, k: nat): byte
    requires h.Ok() && k < h.Length()
  {
    disk[SectorOf(h, k)][k % SECTOR_SIZE]
  }

  /** The byte array that a file stands for. */
  function FileBytes(disk: Sectors, h: Header): (b: seq<byte>)
    requires h.Ok()
    ensures |b| == h.Length()
    ensures forall k :: 0 <= k < |b| ==> b[k] == FileByte(disk, h, k)
  {
    seq(h.Length(), k requires 0 <= k < h.Length() => FileByte(disk, h, k))
  }

  /** How many bytes a request for `numBytes` at `position` transfers in a file of length `length`. */
  function Clip(length: int, numBytes: int, position: int): (n: nat)
    ensures n > 0 ==> position + n <= length && n <= numBytes
  {
    if numBytes <= 0 || position >= length then 0
    else if position + numBytes > length then length - position
    else numBytes
  }

  /** It transfers every byte that is both in the range asked for and in the file, and no other. */
  lemma ClipMeans(length: int, numBytes: int, position: int, k: int)
    requires position <= k
    ensures k < position + Clip(length, numBytes, position) <==> k < position + numBytes && k < length
  {
  }

  /** A request that gets past the first test starts inside the file, and the sum in the test for clipping stays
      an int. */
  predicate InRange(length: int, numBytes: int, position: int) {
    0 < numBytes && position < length ==> 0 <= position && position + numBytes < INT_LIMIT
  }

  /** With a sum that wraps around, the test `position + numBytes > length` gives the right answer exactly when
      the sum does not overflow: otherwise it finds nothing to clip. */
  lemma ClipTest(length: CInt, numBytes: CInt, position: nat)
    requires 0 < numBytes && position < length
    ensures (Wrap(position + numBytes) > length <==> position + numBytes > length) <==> InRange(length, numBytes, position)
  {
  }

  /** `after` differs from `before` only in data sectors of the file that h describes. */
  ghost predicate OnlyData(before: Sectors, after: Sectors, h: Header) {
    forall s :: 0 <= s < NUM_SECTORS && s !in h.Data() ==> after[s] == before[s]
  }

  /** A file's contents depend only on its own data sectors. */
  lemma BytesFrame(d: Sectors, d': Sectors, h: Header)
    requires h.Ok()
    requires forall s <- h.Data() :: 0 <= s < NUM_SECTORS ==> d[s] == d'[s]
    ensures FileBytes(d, h) == FileBytes(d', h)
  {
    OkFacts(h);
    forall k | 0 <= k < h.Length() ensures FileByte(d, h, k) == FileByte(d', h, k) {
      assert h.dataSectors[k / SECTOR_SIZE] in h.Data();
    }
  }

  /** The buffer holds sectors first..i of the file, end to end. */
  ghost predicate Loaded(buf: seq<byte>, disk: Sectors, h: Header, first: nat, i: nat)
    requires h.Ok()
  {
    && first <= i && (i - first) * SECTOR_SIZE <= |buf|
    && forall k :: first * SECTOR_SIZE <= k < i * SECTOR_SIZE && k < h.Length() ==>
         buf[k - first * SECTOR_SIZE] == FileByte(disk, h, k)
  }

  lemma LoadOne(buf: seq<byte>, disk: Sectors, h: Header, first: nat, i: nat)
    requires h.Ok() && Loaded(buf, disk, h, first, i)
    requires i < h.Count() && (i + 1 - first) * SECTOR_SIZE <= |buf|
    ensures h.Count() <= NUM_DIRECT
    ensures Loaded(Overlay(buf, (i - first) * SECTOR_SIZE, disk[h.dataSectors[i]]), disk, h, first, i + 1)
  {
    OkFacts(h);
    var after := Overlay(buf, (i - first) * SECTOR_SIZE, disk[h.dataSectors[i]]);
    forall k | first * SECTOR_SIZE <= k < (i + 1) * SECTOR_SIZE && k < h.Length()
      ensures after[k - first * SECTOR_SIZE] == FileByte(disk, h, k)
    {
      if k >= i * SECTOR_SIZE {
        assert k / SECTOR_SIZE == i;
      }
    }
  }

  /** The disk after sectors first..i of the file have been written from the buffer. */
  function Stored(disk: Sectors, h: Header, buf: seq<byte>, first: nat, i: nat): Sectors
    requires h.Ok() && first <= i <= h.Count() && (i - first) * SECTOR_SIZE <= |buf|
  {
    OkFacts(h);
    if i == first then disk
    else
      Stored(disk, h, buf, first, i - 1)[h.dataSectors[i - 1] := buf[(i - 1 - first) * SECTOR_SIZE..(i - first) * SECTOR_SIZE]]
  }

  /** Storing touches exactly the chosen sectors of the file. */
  lemma {:induction false} StoredSector(disk: Sectors, h: Header, buf: seq<byte>, first: nat, i: nat, s: nat)
    requires h.Ok() && first <= i <= h.Count() && (i - first) * SECTOR_SIZE <= |buf|
    requires s < NUM_SECTORS && s !in h.dataSectors[first..i]
    ensures Stored(disk, h, buf, first, i)[s] == disk[s]
  {
    OkFacts(h);
    if i > first {
      assert h.dataSectors[first..i] == h.dataSectors[first..i - 1] + [h.dataSectors[i - 1]];
      StoredSector(disk, h, buf, first, i - 1, s);
    }
  }

  lemma {:induction false} StoredData(disk: Sectors, h: Header, buf: seq<byte>, first: nat, i: nat, j: nat)
    requires h.Ok() && first <= i <= h.Count() && (i - first) * SECTOR_SIZE <= |buf|
    requires j < h.Count()
    ensures 0 <= h.dataSectors[j] < NUM_SECTORS
    ensures Stored(disk, h, buf, first, i)[h.dataSectors[j]] ==
            if first <= j < i then buf[(j - first) * SECTOR_SIZE..(j + 1 - first) * SECTOR_SIZE]
            else disk[h.dataSectors[j]]
  {
    OkFacts(h);
    if i > first {
      StoredData(disk, h, buf, first, i - 1, j);
    }
  }

  lemma StoredByte(disk: Sectors, h: Header, buf: seq<byte>, first: nat, last: nat, k: nat)
    requires h.Ok() && first <= last < h.Count() && (last + 1 - first) * SECTOR_SIZE <= |buf|
    requires k < h.Length()
    ensures FileByte(Stored(disk, h, buf, first, last + 1), h, k) ==
            if first * SECTOR_SIZE <= k < (last + 1) * SECTOR_SIZE then buf[k - first * SECTOR_SIZE]
            else FileByte(disk, h, k)
  {
    OkFacts(h);
    hide Stored, Header.Ok;
    StoredData(disk, h, buf, first, last + 1, k / SECTOR_SIZE);
  }

  /** The buffer, whose first sector is `first`, agrees with the file throughout sector j. */
  ghost predicate SectorIn(buf: seq<byte>, bytes: seq<byte>, first: nat, j: nat) {
    && first <= j && (j + 1 - first) * SECTOR_SIZE <= |buf|
    && forall k :: j * SECTOR_SIZE <= k < (j + 1) * SECTOR_SIZE && k < |bytes| ==> buf[k - first * SECTOR_SIZE] == bytes[k]
  }

  lemma SectorRead(buf: seq<byte>, bytes: seq<byte>, first: nat, j: nat)
    requires first <= j && (j + 1 - first) * SECTOR_SIZE <= |buf| && j * SECTOR_SIZE < |bytes|
    ensures var n := Clip(|bytes|, SECTOR_SIZE, j * SECTOR_SIZE);
            var after := Overlay(buf, (j - first) * SECTOR_SIZE, bytes[j * SECTOR_SIZE..j * SECTOR_SIZE + n]);
            && SectorIn(after, bytes, first, j)
            && (first < j && SectorIn(buf, bytes, first, first) ==> SectorIn(after, bytes, first, first))
  {
  }

  /** Outside the range to be changed, the buffer agrees with the file's present contents. */
  ghost predicate Prefetched(buf: seq<byte>, bytes: seq<byte>, first: nat, last: nat, position: nat, count: nat) {
    && first <= last && (last + 1 - first) * SECTOR_SIZE <= |buf|
    && position + count <= (last + 1) * SECTOR_SIZE
    && position <= |bytes|
    && (forall k :: first * SECTOR_SIZE <= k < position ==> buf[k - first * SECTOR_SIZE] == bytes[k])
    && (forall k :: position + count <= k < (last + 1) * SECTOR_SIZE && k < |bytes|
          ==> k >= first * SECTOR_SIZE && buf[k - first * SECTOR_SIZE] == bytes[k])
  }

  /** The code reads at most the two end sectors; that is enough. */
  lemma EndsAreEnough(buf: seq<byte>, bytes: seq<byte>, first: nat, last: nat, position: nat, count: nat)
    requires 0 < count && position + count <= |bytes|
    requires first == position / SECTOR_SIZE && last == (position + count - 1) / SECTOR_SIZE
    requires |buf| == (last + 1 - first) * SECTOR_SIZE
    requires position == first * SECTOR_SIZE || SectorIn(buf, bytes, first, first)
    requires position + count == (last + 1) * SECTOR_SIZE || SectorIn(buf, bytes, first, last)
    ensures Prefetched(buf, bytes, first, last, position, count)
  {
  }

  lemma CopyIn(buf: seq<byte>, bytes: seq<byte>, first: nat, last: nat, position: nat, patch: seq<byte>)
    requires first * SECTOR_SIZE <= position
    requires Prefetched(buf, bytes, first, last, position, |patch|)
    ensures Prefetched(Overlay(buf, position - first * SECTOR_SIZE, patch), bytes, first, last, position, |patch|)
  {
    var after := Overlay(buf, position - first * SECTOR_SIZE, patch);
    forall k | first * SECTOR_SIZE <= k < position
      ensures k < |bytes| && after[k - first * SECTOR_SIZE] == bytes[k]
    {
      assert k < |bytes| && bytes[k] == buf[k - first * SECTOR_SIZE];
    }
    forall k | position + |patch| <= k < (last + 1) * SECTOR_SIZE && k < |bytes|
      ensures after[k - first * SECTOR_SIZE] == bytes[k]
    {
      assert bytes[k] == buf[k - first * SECTOR_SIZE];
    }
  }

  /** Writing a prefetched buffer with the new bytes in place changes the file by exactly those bytes. */
  lemma StoredBytes(disk: Sectors, h: Header, buf: seq<byte>, first: nat, last: nat, position: nat, patch: seq<byte>)
    requires h.Ok() && first <= last < h.Count() && (last + 1 - first) * SECTOR_SIZE <= |buf|
    requires patch != [] && position + |patch| <= h.Length()
    requires first == position / SECTOR_SIZE && last == (position + |patch| - 1) / SECTOR_SIZE
    requires Prefetched(buf, FileBytes(disk, h), first, last, position, |patch|)
    requires position - first * SECTOR_SIZE + |patch| <= |buf|
    requires patch == buf[position - first * SECTOR_SIZE..position - first * SECTOR_SIZE + |patch|]
    ensures FileBytes(Stored(disk, h, buf, first, last + 1), h) == Overlay(FileBytes(disk, h), position, patch)
  {
    hide Stored, FileByte, Header.Ok;
    var after := Stored(disk, h, buf, first, last + 1);
    var want := Overlay(FileBytes(disk, h), position, patch);
    forall k | 0 <= k < h.Length() ensures FileByte(after, h, k) == want[k] {
      StoredByte(disk, h, buf, first, last, k);
      assert FileBytes(disk, h)[k] == FileByte(disk, h, k);
    }
  }

  lemma StoredElsewhere(disk: Sectors, h: Header, buf: seq<byte>, first: nat, i: nat)
    requires h.Ok() && first <= i <= h.Count() && (i - first) * SECTOR_SIZE <= |buf|
    ensures OnlyData(disk, Stored(disk, h, buf, first, i), h)
  {
    OkFacts(h);
    forall s | 0 <= s < NUM_SECTORS && s !in h.Data() ensures Stored(disk, h, buf, first, i)[s] == disk[s] {
      StoredSector(disk, h, buf, first, i, s);
    }
  }

  class OpenFile {
    const disk: SectorStore
    const hdr: FileHeader
    var seekPosition: int

    ghost predicate Valid()
      reads hdr
    {
      hdr.Valid() && hdr.Image().Ok()
    }

    function Bytes(): seq<byte>
      requires Valid()
      reads this, disk, hdr
    {
      FileBytes(disk.sectors, hdr.Image())
    }

    constructor (disk: SectorStore, sector: int)
      requires 0 <= sector < NUM_SECTORS
      ensures this.disk == disk && fresh(hdr) && hdr.Valid()
      ensures hdr.Image() == DecodeHeader(disk.sectors[sector])
      ensures seekPosition == 0
    {
      this.disk := disk;
      hdr := new FileHeader();
      seekPosition := 0;
      new;
      hdr.FetchFrom(disk, sector);
    }

    /** Reads sectors first..last of the file into the buffer. */
    method LoadSectors(buf: array<byte>, first: nat, last: nat)
      requires Valid()
      requires first <= last < hdr.Image().Count() && (last + 1 - first) * SECTOR_SIZE <= buf.Length
      modifies buf
      ensures Loaded(buf[..], disk.sectors, hdr.Image(), first, last + 1)
    {
      hide Header.Ok, FileByte, Overlay;
      OkFacts(hdr.Image());
      var i := first;
      while i <= last
        invariant first <= i <= last + 1
        invariant Loaded(buf[..], disk.sectors, hdr.Image(), first, i)
      {
        LoadOne(buf[..], disk.sectors, hdr.Image(), first, i);
        var sector := hdr.ByteToSector(i * SECTOR_SIZE);
        disk.ReadSector(sector, buf, (i - first) * SECTOR_SIZE);
        i := i + 1;
      }
    }

    method ReadAt(into: array<byte>, at: nat, numBytes: int, position: int) returns (count: nat)
      requires Valid()
      requires InRange(hdr.numBytes, numBytes, position)
      requires at + Clip(hdr.numBytes, numBytes, position) <= into.Length
      modifies into
      ensures count == Clip(hdr.numBytes, numBytes, position)
      ensures count == 0 ==> into[..] == old(into[..])
      ensures count > 0 ==> into[..] == Overlay(old(into[..]), at, Bytes()[position..position + count])
    {
      hide FileBytes, Header.Ok;
      var fileLength := hdr.numBytes;
      if numBytes <= 0 || position >= fileLength {
        return 0;
      }
      count := if position + numBytes > fileLength then fileLength - position else numBytes;
      var firstSector := position / SECTOR_SIZE;
      var lastSector := (position + count - 1) / SECTOR_SIZE;
      var numSectors := 1 + lastSector - firstSector;
      OkFacts(hdr.Image());
      var buf := new byte[numSectors * SECTOR_SIZE];
      LoadSectors(buf, firstSector, lastSector);
      var start := position - firstSector * SECTOR_SIZE;
      CopyOut(buf, start, into, at, count, position);
    }

    /** Copies the part of the buffer we want. */
    method CopyOut(buf: array<byte>, start: nat, into: array<byte>, at: nat, count: nat, position: nat)
      requires Valid() && buf != into && start + count <= buf.Length && at + count <= into.Length
      requires position + count <= hdr.numBytes
      requires forall k :: position <= k < position + count ==> buf[start + k - position] == FileByte(disk.sectors, hdr.Image(), k)
      modifies into
      ensures into[..] == Overlay(old(into[..]), at, Bytes()[position..position + count])
    {
      hide FileByte, Header.Ok;
      ghost var bytes := Bytes();
      forall k | 0 <= k < count {
        into[at + k] := buf[start + k];
      }
    }

    /** Reads in the first and last sector when they will be only partly overwritten. */
    method Prefetch(buf: array<byte>, first: nat, last: nat, position: nat, count: nat)
      requires Valid() && 0 < count && position + count <= hdr.numBytes
      requires first == position / SECTOR_SIZE && last == (position + count - 1) / SECTOR_SIZE
      requires buf.Length == (last + 1 - first) * SECTOR_SIZE
      modifies buf
      ensures Prefetched(buf[..], Bytes(), first, last, position, count)
    {
      hide FileBytes, Header.Ok, Overlay, SectorIn, Prefetched;
      OkFacts(hdr.Image());
      var firstAligned := position == first * SECTOR_SIZE;
      var lastAligned := position + count == (last + 1) * SECTOR_SIZE;
      if !firstAligned {
        SectorRead(buf[..], Bytes(), first, first);
        var _ := ReadAt(buf, 0, SECTOR_SIZE, first * SECTOR_SIZE);
      }
      if !lastAligned && (first != last || firstAligned) {
        SectorRead(buf[..], Bytes(), first, last);
        var _ := ReadAt(buf, (last - first) * SECTOR_SIZE, SECTOR_SIZE, last * SECTOR_SIZE);
      }
      EndsAreEnough(buf[..], Bytes(), first, last, position, count);
    }

    /** Writes sectors first..last of the file from the buffer. */
    method StoreSectors(buf: array<byte>, first: nat, last: nat)
      requires Valid()
      requires first <= last < hdr.Image().Count() && (last + 1 - first) * SECTOR_SIZE <= buf.Length
      modifies disk
      ensures disk.sectors == Stored(old(disk.sectors), hdr.Image(), buf[..], first, last + 1)
    {
      OkFacts(hdr.Image());
      var i := first;
      while i <= last
        invariant first <= i <= last + 1
        invariant disk.sectors == Stored(old(disk.sectors), hdr.Image(), buf[..], first, i)
      {
        var sector := hdr.ByteToSector(i * SECTOR_SIZE);
        disk.WriteSector(sector, buf, (i - first) * SECTOR_SIZE);
        i := i + 1;
      }
    }

    method WriteAt(from: array<byte>, at: nat, numBytes: int, position: int) returns (count: nat)
      requires Valid()
      requires InRange(hdr.numBytes, numBytes, position)
      requires at + Clip(hdr.numBytes, numBytes, position) <= from.Length
      modifies disk
      ensures Valid() && count == Clip(hdr.numBytes, numBytes, position)
      ensures count == 0 ==> disk.sectors == old(disk.sectors)
      ensures count > 0 ==> Bytes() == Overlay(old(Bytes()), position, from[at..at + count])
      ensures OnlyData(old(disk.sectors), disk.sectors, hdr.Image())
    {
      hide FileBytes, Header.Ok;
      var fileLength := hdr.numBytes;
      if numBytes <= 0 || position >= fileLength {
        return 0;
      }
      count := if position + numBytes > fileLength then fileLength - position else numBytes;
      WriteRange(from, at, count, position);
    }

    /** WriteAt, once the request has been clipped to the file. */
    method WriteRange(from: array<byte>, at: nat, count: nat, position: nat)
      requires Valid() && 0 < count && position + count <= hdr.numBytes && at + count <= from.Length
      modifies disk
      ensures Valid() && Bytes() == Overlay(old(Bytes()), position, from[at..at + count])
      ensures OnlyData(old(disk.sectors), disk.sectors, hdr.Image())
    {
      hide FileBytes, Header.Ok, Stored, Prefetched, OnlyData, Overlay;
      var firstSector := position / SECTOR_SIZE;
      var lastSector := (position + count - 1) / SECTOR_SIZE;
      var numSectors := 1 + lastSector - firstSector;
      OkFacts(hdr.Image());
      var buf := new byte[numSectors * SECTOR_SIZE];
      FillBuffer(buf, from, at, count, position, firstSector, lastSector);
      StoredBytes(disk.sectors, hdr.Image(), buf[..], firstSector, lastSector, position, from[at..at + count]);
      StoredElsewhere(disk.sectors, hdr.Image(), buf[..], firstSector, lastSector + 1);
      StoreSectors(buf, firstSector, lastSector);
    }

    /** Gets the sectors to be written ready: what must survive, with the new bytes copied in. */
    method FillBuffer(buf: array<byte>, from: array<byte>, at: nat, count: nat, position: nat, first: nat, last: nat)
      requires Valid() && 0 < count && position + count <= hdr.numBytes && at + count <= from.Length && buf != from
      requires first == position / SECTOR_SIZE && last == (position + count - 1) / SECTOR_SIZE
      requires buf.Length == (last + 1 - first) * SECTOR_SIZE
      modifies buf
      ensures Prefetched(buf[..], Bytes(), first, last, position, count)
      ensures var start := position - first * SECTOR_SIZE;
              start + count <= buf.Length && buf[start..start + count] == from[at..at + count]
    {
      hide FileBytes, Header.Ok, Prefetched;
      Prefetch(buf, first, last, position, count);
      var start := position - first * SECTOR_SIZE;
      ghost var fetched, patch, bytes := buf[..], from[at..at + count], Bytes();
      assert |patch| == count;
      CopyIn(fetched, bytes, first, last, position, patch);
      forall k | 0 <= k < count {
        buf[start + k] := from[at + k];
      }
      assert buf[..] == Overlay(fetched, start, patch);
      assert from[at..at + count] == patch && Bytes() == bytes;
    }

    /** Reads on from the seek position, and moves it past what was read. */
    method Read(into: array<byte>, numBytes: int) returns (count: nat)
      requires Valid() && InRange(hdr.numBytes, numBytes, seekPosition)
      requires Clip(hdr.numBytes, numBytes, seekPosition) <= into.Length
      requires into as object != this
      modifies this, into
      ensures seekPosition == old(seekPosition) + count && count == Clip(hdr.numBytes, numBytes, old(seekPosition))
      ensures count == 0 ==> into[..] == old(into[..])
      ensures count > 0 ==> into[..] == Overlay(old(into[..]), 0, Bytes()[old(seekPosition)..seekPosition])
    {
      hide FileBytes, Header.Ok;
      count := ReadAt(into, 0, numBytes, seekPosition);
      seekPosition := seekPosition + count;
    }

    /** Writes on from the seek position, and moves it past what was written. */
    method Write(from: array<byte>, numBytes: int) returns (count: nat)
      requires Valid() && InRange(hdr.numBytes, numBytes, seekPosition)
      requires Clip(hdr.numBytes, numBytes, seekPosition) <= from.Length
      modifies this, disk
      ensures Valid() && seekPosition == old(seekPosition) + count
      ensures count == Clip(hdr.numBytes, numBytes, old(seekPosition))
      ensures count == 0 ==> disk.sectors == old(disk.sectors)
      ensures count > 0 ==> Bytes() == Overlay(old(Bytes()), old(seekPosition), from[..count])
      ensures OnlyData(old(disk.sectors), disk.sectors, hdr.Image())
    {
      hide FileBytes, Header.Ok;
      count := WriteAt(from, 0, numBytes, seekPosition);
      seekPosition := seekPosition + count;
    }

    method Seek(position: int)
      modifies this
      ensures seekPosition == position
    {
      seekPosition := position;
    }
  }
}
