/** filesys/filehdr.cc: the header that says where a file's data sectors are. */
module FileHeaders {
  import opened Layout
  import opened SectorStores
  import opened Bitmaps

  const NUM_DIRECT: nat := 30
  const MAX_FILE_SIZE: nat := NUM_DIRECT * SECTOR_SIZE

  datatype Header = Header(numBytes: CInt, numSectors: CInt, dataSectors: seq<CInt>) {
    /** Length of the byte array the file stands for. */
    function Length(): nat {
      if numBytes < 0 then 0 else numBytes
    }

    function Count(): nat {
      if numSectors < 0 then 0 else numSectors
    }

    /** The entries of the table that are in use. */
    function Data(): seq<CInt> {
      if Count() <= |dataSectors| then dataSectors[..Count()] else []
    }

    /** What Allocate establishes and every later use relies on. */
    ghost predicate Ok() {
      && numBytes <= MAX_FILE_SIZE
      && numSectors == DivRoundUp(numBytes, SECTOR_SIZE)
      && |dataSectors| == NUM_DIRECT
      && (forall i :: 0 <= i < Count() ==> 0 <= dataSectors[i] < NUM_SECTORS)
      && (forall i, j :: 0 <= i < j < Count() ==> dataSectors[i] != dataSectors[j])
    }
  }

  ghost function Elements(s: seq<int>): set<int> {
    set x <- s
  }

  lemma {:induction false} ElementsSize(s: seq<int>)
    requires forall i, j :: 0 <= i < j < |s| ==> s[i] != s[j]
    ensures |Elements(s)| == |s|
  {
    if s != [] {
      var n := |s| - 1;
      ElementsSize(s[..n]);
      assert Elements(s) == Elements(s[..n]) + {s[n]};
    }
  }

  lemma CountFits(h: Header)
    requires h.numBytes <= MAX_FILE_SIZE && h.numSectors == DivRoundUp(h.numBytes, SECTOR_SIZE)
    ensures h.Count() <= NUM_DIRECT && h.Length() <= h.Count() * SECTOR_SIZE
    ensures h.Count() > 0 ==> h.Length() > (h.Count() - 1) * SECTOR_SIZE
  {
  }

  lemma SectorsNeeded(fileSize: CInt)
    ensures -INT_LIMIT <= DivRoundUp(fileSize, SECTOR_SIZE) < INT_LIMIT
    ensures DivRoundUp(fileSize, SECTOR_SIZE) <= NUM_DIRECT <==> fileSize <= MAX_FILE_SIZE
  {
  }

  /** Allocate, with this many sectors clear, stores into entry i of its table, inside or not. */
  predicate StoresAt(fileSize: CInt, clear: int, i: nat) {
    i < DivRoundUp(fileSize, SECTOR_SIZE) <= clear
  }

  /** The loop does not look at the size of its table. It stays inside exactly when the size is at most
      MAX_FILE_SIZE or the test of the free map turns the request down. */
  lemma TableSuffices(fileSize: CInt, clear: int)
    ensures (forall i: nat :: StoresAt(fileSize, clear, i) ==> i < NUM_DIRECT) <==>
            fileSize <= MAX_FILE_SIZE || clear < DivRoundUp(fileSize, SECTOR_SIZE)
  {
    hide DivRoundUp;
    SectorsNeeded(fileSize);
    if fileSize > MAX_FILE_SIZE && DivRoundUp(fileSize, SECTOR_SIZE) <= clear {
      assert StoresAt(fileSize, clear, NUM_DIRECT);
    }
  }

  /** One byte more than fits, on a disk with room for it: the last store is outside the table. */
  lemma OverrunExample(clear: int)
    requires clear >= NUM_DIRECT + 1
    ensures StoresAt(MAX_FILE_SIZE + 1, clear, NUM_DIRECT)
  {
  }

  /** A size that the disk has no room for is refused, however large. */
  lemma RefusedExample(i: nat)
    ensures !StoresAt(200000, NUM_SECTORS, i)
  {
  }

  /** The first i entries name distinct sectors that were free in `before`, and `now` is `before` with them. */
  ghost predicate Taken(entries: seq<CInt>, i: nat, before: set<int>, now: set<int>) {
    && i <= |entries|
    && (forall k :: 0 <= k < i ==> 0 <= entries[k] < NUM_SECTORS && entries[k] !in before)
    && (forall j, k :: 0 <= j < k < i ==> entries[j] != entries[k])
    && now == before + Elements(entries[..i])
  }

  lemma NothingTaken(entries: seq<CInt>, before: set<int>)
    ensures Taken(entries, 0, before, before)
  {
  }

  lemma TakeOne(entries: seq<CInt>, i: nat, sector: CInt, before: set<int>, now: set<int>)
    requires Taken(entries, i, before, now) && i < |entries|
    requires 0 <= sector < NUM_SECTORS && sector !in now
    ensures Taken(entries[i := sector], i + 1, before, now + {sector})
  {
    var after := entries[i := sector];
    assert after[..i + 1] == entries[..i] + [sector];
    forall k | 0 <= k < i ensures after[k] != sector {
      assert entries[k] in entries[..i];
    }
  }

  lemma AllTaken(h: Header, before: set<int>, now: set<int>)
    requires h.numBytes <= MAX_FILE_SIZE && h.numSectors == DivRoundUp(h.numBytes, SECTOR_SIZE)
    requires |h.dataSectors| == NUM_DIRECT && h.Count() <= NUM_DIRECT
    requires Taken(h.dataSectors, h.Count(), before, now)
    ensures h.Ok() && Elements(h.Data()) !! before && now == before + Elements(h.Data())
  {
  }

  /** What an Ok header promises about single entries of its table. */
  lemma OkFacts(h: Header)
    requires h.Ok()
    ensures h.Count() <= NUM_DIRECT == |h.dataSectors| && h.Length() <= h.Count() * SECTOR_SIZE <= MAX_FILE_SIZE
    ensures h.Count() > 0 ==> h.Length() > (h.Count() - 1) * SECTOR_SIZE
    ensures forall i :: 0 <= i < h.Count() ==> 0 <= h.dataSectors[i] < NUM_SECTORS
  {
    CountFits(h);
  }

  /** The sector that holds the byte at this offset of the file. */
  function SectorOf(h: Header, offset: nat): (sector: int)
    requires h.Ok() && offset < h.Length()
    ensures 0 <= sector < NUM_SECTORS && sector in h.Data()
  {
    OkFacts(h);
    assert h.dataSectors[offset / SECTOR_SIZE] == h.Data()[offset / SECTOR_SIZE];
    h.dataSectors[offset / SECTOR_SIZE]
  }

  /** Two bytes are in the same sector exactly when they are in the same block of SECTOR_SIZE bytes. */
  lemma SectorPerBlock(h: Header, a: nat, b: nat)
    requires h.Ok() && a < h.Length() && b < h.Length()
    ensures SectorOf(h, a) == SectorOf(h, b) <==> a / SECTOR_SIZE == b / SECTOR_SIZE
  {
    OkFacts(h);
  }

  /** No data sector is there for nothing. */
  lemma EverySectorUsed(h: Header, sector: int)
    requires h.Ok() && sector in h.Data()
    ensures exists offset: nat :: offset < h.Length() && SectorOf(h, offset) == sector
  {
    CountFits(h);
    var i :| 0 <= i < h.Count() && h.Data()[i] == sector;
    assert i * SECTOR_SIZE < h.Length();
    assert SectorOf(h, i * SECTOR_SIZE) == sector;
  }

  function EncodeHeader(h: Header): (s: Sector)
    requires |h.dataSectors| == NUM_DIRECT
  {
    Pack([h.numBytes, h.numSectors] + h.dataSectors, EncodeInt, WORD_BYTES)
  }

  function DecodeHeader(s: Sector): (h: Header)
    ensures |h.dataSectors| == NUM_DIRECT
  {
    var ints := Unpack(s, 32, DecodeInt, WORD_BYTES);
    Header(ints[0], ints[1], ints[2..])
  }

  lemma HeaderRoundTrip(h: Header)
    requires |h.dataSectors| == NUM_DIRECT
    ensures DecodeHeader(EncodeHeader(h)) == h
  {
    var ints := [h.numBytes, h.numSectors] + h.dataSectors;
    forall x <- ints ensures DecodeInt(EncodeInt(x)) == x {
      IntRoundTrip(x);
    }
    UnpackPack(ints, EncodeInt, DecodeInt, WORD_BYTES);
    assert ints[2..] == h.dataSectors;
  }

  class FileHeader {
    var numBytes: CInt
    var numSectors: CInt
    var dataSectors: seq<CInt> // embedded in the object, as in the C++ class

    ghost predicate Valid()
      reads this
    {
      |dataSectors| == NUM_DIRECT
    }

    function Image(): Header
      reads this
    {
      Header(numBytes, numSectors, dataSectors)
    }

    constructor ()
      ensures Valid()
    {
      var garbage: seq<CInt> := *;
      dataSectors := if |garbage| == NUM_DIRECT then garbage else seq(NUM_DIRECT, _ => 0);
    }

    /** Takes data sectors for `fileSize` bytes out of the free map, or none at all. The caller must not ask for
        more than the table holds when the disk has room for it. */
    method Allocate(freeMap: Bitmap, fileSize: CInt) returns (ok: bool)
      requires Valid() && freeMap.Valid() && freeMap.numBits <= NUM_SECTORS
      requires fileSize <= MAX_FILE_SIZE || freeMap.numBits - |freeMap.Marked()| < DivRoundUp(fileSize, SECTOR_SIZE)
      modifies this, freeMap.words
      ensures Valid()
      ensures ok <==> freeMap.numBits - |old(freeMap.Marked())| >= DivRoundUp(fileSize, SECTOR_SIZE)
      ensures !ok ==> freeMap.Marked() == old(freeMap.Marked())
      ensures ok ==> Image().Ok() && numBytes == fileSize
      ensures ok ==> Elements(Image().Data()) !! old(freeMap.Marked())
      ensures ok ==> freeMap.Marked() == old(freeMap.Marked()) + Elements(Image().Data())
      ensures forall i: nat :: i < NUM_DIRECT && dataSectors[i] != old(dataSectors)[i] ==>
                StoresAt(fileSize, freeMap.numBits - |old(freeMap.Marked())|, i)
    {
      hide MarkedIn, TestBit, Header.Ok, DivRoundUp, Elements;
      SectorsNeeded(fileSize);
      numBytes := fileSize;
      numSectors := DivRoundUp(fileSize, SECTOR_SIZE);
      var clear := freeMap.NumClear();
      if clear < numSectors {
        return false;
      }
      TakeSectors(freeMap);
      return true;
    }

    /** The loop of Allocate. */
    method TakeSectors(freeMap: Bitmap)
      requires Valid() && freeMap.Valid() && freeMap.numBits <= NUM_SECTORS
      requires numBytes <= MAX_FILE_SIZE && numSectors == DivRoundUp(numBytes, SECTOR_SIZE)
      requires freeMap.numBits - |freeMap.Marked()| >= numSectors
      modifies this`dataSectors, freeMap.words
      ensures Valid() && Image().Ok()
      ensures Elements(Image().Data()) !! old(freeMap.Marked())
      ensures freeMap.Marked() == old(freeMap.Marked()) + Elements(Image().Data())
      ensures forall i: nat :: Image().Count() <= i < NUM_DIRECT ==> dataSectors[i] == old(dataSectors)[i]
    {
      hide MarkedIn, TestBit, Header.Ok, DivRoundUp, Elements, Taken;
      CountFits(Image());
      ghost var before := freeMap.Marked();
      NothingTaken(dataSectors, before);
      var i := 0;
      while i < numSectors
        invariant 0 <= i <= Image().Count() && Valid()
        invariant Taken(dataSectors, i, before, freeMap.Marked())
        invariant |freeMap.Marked()| == |before| + i
        invariant forall k: nat :: i <= k < NUM_DIRECT ==> dataSectors[k] == old(dataSectors)[k]
      {
        ghost var now := freeMap.Marked();
        var sector := TakeClear(freeMap);
        assert sector != -1;
        TakeOne(dataSectors, i, sector, before, now);
        dataSectors := dataSectors[i := sector];
        i := i + 1;
      }
      AllTaken(Image(), before, freeMap.Marked());
    }

    /** Gives every data sector back; each one ought to be marked. */
    method Deallocate(freeMap: Bitmap)
      requires Valid() && freeMap.Valid() && Image().Ok()
      requires Elements(Image().Data()) <= freeMap.Marked()
      modifies freeMap.words
      ensures freeMap.Marked() == old(freeMap.Marked()) - Elements(Image().Data())
    {
      hide MarkedIn, TestBit;
      ghost var h := Image();
      ghost var before := freeMap.Marked();
      CountFits(h);
      var i := 0;
      while i < numSectors
        invariant 0 <= i <= h.Count()
        invariant freeMap.Marked() == before - Elements(h.dataSectors[..i])
      {
        assert h.dataSectors[i] == h.Data()[i];
        assert h.dataSectors[i] in Elements(h.Data());
        assert h.dataSectors[i] !in Elements(h.dataSectors[..i]);
        var on := freeMap.Test(dataSectors[i]);
        assert on;
        freeMap.Clear(dataSectors[i]);
        assert h.dataSectors[..i + 1] == h.dataSectors[..i] + [h.dataSectors[i]];
        i := i + 1;
      }
      assert h.dataSectors[..i] == h.Data();
    }

    method FetchFrom(disk: SectorStore, sector: int)
      requires Valid() && 0 <= sector < NUM_SECTORS
      modifies this
      ensures Valid()
      ensures Image() == DecodeHeader(disk.sectors[sector])
    {
      var h := DecodeHeader(disk.sectors[sector]);
      numBytes := h.numBytes;
      numSectors := h.numSectors;
      dataSectors := h.dataSectors;
    }

    method WriteBack(disk: SectorStore, sector: int)
      requires Valid() && 0 <= sector < NUM_SECTORS
      modifies disk
      ensures disk.sectors == old(disk.sectors)[sector := EncodeHeader(Image())]
    {
      var buf := new byte[SECTOR_SIZE];
      var bytes := EncodeHeader(Image());
      forall k | 0 <= k < SECTOR_SIZE {
        buf[k] := bytes[k];
      }
      assert buf[0..SECTOR_SIZE] == bytes;
      disk.WriteSector(sector, buf, 0);
    }

    /** The disk sector that stores the byte at `offset` of the file. */
    method ByteToSector(offset: nat) returns (sector: int)
      requires Valid() && Image().Ok() && offset < Image().Length()
      ensures sector == SectorOf(Image(), offset)
    {
      OkFacts(Image());
      sector := dataSectors[offset / SECTOR_SIZE];
    }
  }
}
