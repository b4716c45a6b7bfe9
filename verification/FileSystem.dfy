/** filesys/filesys.cc: format, create, open and remove, over a disk whose free map and directory are
    files of that same disk. */
module FileSystems {
  import opened Layout
  import opened Bitmaps
  import opened SectorStores
  import opened FileHeaders
  import opened OpenFiles
  import opened Directories
  import opened DiskStates
  import PersistentBitmaps

  /** Bytes in a file created with this size; a negative size makes an empty file. */
  function Size(initialSize: int): nat {
    if initialSize < 0 then 0 else initialSize
  }

  /** Data sectors taken for it. */
  function SectorsFor(initialSize: int): nat {
    (Size(initialSize) + SECTOR_SIZE - 1) / SECTOR_SIZE
  }

  /** They hold the file, and one less would not. */
  lemma SectorsHold(initialSize: int)
    ensures Size(initialSize) <= SectorsFor(initialSize) * SECTOR_SIZE < Size(initialSize) + SECTOR_SIZE
  {
  }

  /** When Create succeeds, in terms of the disk alone. */
  ghost predicate CanCreate(d: Sectors, name: Name, initialSize: int)
    requires DiskInv(d)
  {
    && Key(name) !in Files(d)
    && |Files(d)| < NUM_DIR_ENTRIES
    && |MarkedOn(d)| + 1 + SectorsFor(initialSize) <= NUM_SECTORS
  }

  lemma DirectoryRoom(d: Sectors)
    requires DiskInv(d)
    ensures |Files(d)| < NUM_DIR_ENTRIES <==> FirstFree(TableOf(d)) < NUM_DIR_ENTRIES
  {
    hide FileBytes, DecodeTable;
    ListingSize(TableOf(d));
    FullTable(TableOf(d));
    assert |Files(d)| == |Listing(TableOf(d))| by {
      assert Files(d).Keys == Listing(TableOf(d)).Keys;
    }
  }

  lemma ListedSector(d: Sectors, key: seq<byte>)
    requires DiskInv(d)
    ensures key in Listing(TableOf(d)) ==> 0 <= Listing(TableOf(d))[key] < NUM_SECTORS
  {
    if key in Listing(TableOf(d)) {
      ListedFile(d, key);
    }
  }

  lemma SectorsForSize(initialSize: CInt)
    ensures DivRoundUp(initialSize, SECTOR_SIZE) <= SectorsFor(initialSize)
    ensures initialSize >= 0 ==> DivRoundUp(initialSize, SECTOR_SIZE) == SectorsFor(initialSize)
    ensures initialSize < 0 ==> SectorsFor(initialSize) == 0
  {
  }

  /** What Create promises about the new disk when it succeeds. */
  ghost predicate CreateResult(d: Sectors, d': Sectors, name: Name, initialSize: int)
    requires DiskInv(d)
  {
    && DiskInv(d')
    && (exists content: seq<byte> ::
          |content| == Size(initialSize) && Files(d') == Files(d)[Key(name) := content])
    && MarkedOn(d) < MarkedOn(d')
    && |MarkedOn(d')| == |MarkedOn(d)| + 1 + SectorsFor(initialSize)
    && NewlyListed(d, d', name)
    && MetaUpdate(d, d', MarkedOn(d') - MarkedOn(d))
  }

  /** The name is listed with a header whose file owns exactly the newly marked sectors, and no other
      name is affected. */
  ghost predicate NewlyListed(d: Sectors, d': Sectors, name: Name)
    requires DiskInv(d) && DiskInv(d')
  {
    && Key(name) !in Listing(TableOf(d)) && Key(name) in Listing(TableOf(d'))
    && var s := Listing(TableOf(d'))[Key(name)];
       && FileAt(d', s) && FileSectors(d', s) == MarkedOn(d') - MarkedOn(d)
       && Listing(TableOf(d')) == Listing(TableOf(d))[Key(name) := s]
  }

  /** What Create has prepared in memory before it writes anything: header h for sector s, table t' with
      entry i filled in, and a free map marking the new sectors. */
  ghost predicate Planned(t: Table, marked: set<int>, s: int, h: Header, i: nat, t': seq<DirEntry>, words': seq<bv32>, name: Name)
    requires DistinctNames(t)
  {
    && h.Ok() && 0 <= s < NUM_SECTORS && s !in Elements(h.Data())
    && s !in marked && Elements(h.Data()) !! marked
    && |words'| == MAP_WORDS && MarkedIn(words', NUM_SECTORS) == marked + {s} + Elements(h.Data())
    && EntryFor(t, t', i, s, name) && Key(name) !in Listing(t)
  }

  /** Entry i, free before, now lists this name with header sector s. */
  ghost predicate EntryFor(t: Table, t': seq<DirEntry>, i: nat, s: int, name: Name) {
    && OnlyEntry(t, t', i) && !t[i].inUse && t'[i].inUse && t'[i].sector == s && Key(t'[i].name) == Key(name)
  }

  lemma EntryAdded(t: Table, t': seq<DirEntry>, i: nat, s: CInt, name: Name)
    requires i < |t| && !t[i].inUse
    requires t' == t[i := Entry(true, s, StrnCopy(t[i].name, name, FILE_NAME_MAX_LEN))]
    ensures EntryFor(t, t', i, s, name)
  {
    CopyKeepsPrefix(t[i].name, name, FILE_NAME_MAX_LEN);
  }

  lemma PlanCarriedOut(d: Sectors, d': Sectors, s: int, h: Header, i: nat, t': Table, words': seq<bv32>, name: Name)
    requires DiskInv(d) && Planned(TableOf(d), MarkedOn(d), s, h, i, t', words', name)
    requires MetaWritten(d, d', {s} + Elements(h.Data()), t', words') && HeaderAt(d', s) == h
    ensures CreateResult(d, d', name, h.numBytes)
  {
    hide FileBytes, DecodeHeader, DecodeTable, MarkedIn, Disjoint, Exact, SlotsOk, Planned, MetaWritten;
    PlanIsCreated(d, d', s, h, i, t', words', name);
    CreateCounts(d, d', s, h, i, t', words');
    CreateFiles(d, d', s, h, i, t', words', name);
    CreateListing(d, d', s, h, i, t', words', name);
  }

  lemma CreateListing(d: Sectors, d': Sectors, s: int, h: Header, i: nat, t': Table, words': seq<bv32>, name: Name)
    requires Created(d, d', s, h, i, t', words') && Key(t'[i].name) == Key(name)
    requires s !in MarkedOn(d) && Elements(h.Data()) !! MarkedOn(d)
    ensures DiskInv(d') && NewlyListed(d, d', name)
  {
    hide FileBytes, DecodeHeader, DecodeTable, MarkedIn, Disjoint, Exact, SlotsOk, MetaWritten, Header.Ok, Key, MetaOk;
    CreateKeepsInv(d, d', s, h, i, t', words');
    CreatedSlot(d, d', s, h, i, t', words', i + 2);
    ListingAdd(TableOf(d), t', i);
  }

  lemma PlanIsCreated(d: Sectors, d': Sectors, s: int, h: Header, i: nat, t': Table, words': seq<bv32>, name: Name)
    requires DiskInv(d) && Planned(TableOf(d), MarkedOn(d), s, h, i, t', words', name)
    requires MetaWritten(d, d', {s} + Elements(h.Data()), t', words') && HeaderAt(d', s) == h
    ensures Created(d, d', s, h, i, t', words') && Key(t'[i].name) == Key(name)
    ensures s !in MarkedOn(d) && Elements(h.Data()) !! MarkedOn(d)
  {
    hide FileBytes, DecodeHeader, DecodeTable, MarkedIn, Disjoint, Exact, SlotsOk;
  }

  lemma CreateCounts(d: Sectors, d': Sectors, s: int, h: Header, i: nat, t': Table, words': seq<bv32>)
    requires Created(d, d', s, h, i, t', words') && s !in MarkedOn(d) && Elements(h.Data()) !! MarkedOn(d)
    ensures DiskInv(d') && MarkedOn(d) < MarkedOn(d')
    ensures |MarkedOn(d')| == |MarkedOn(d)| + 1 + SectorsFor(h.numBytes)
    ensures MetaUpdate(d, d', MarkedOn(d') - MarkedOn(d))
  {
    hide FileBytes, DecodeHeader, DecodeTable, MarkedIn, Disjoint, Exact, SlotsOk, Header.Ok, Elements, Header.Data, SectorsFor, Listing,
         DistinctNames, MarkedOn, TableOf, HeaderAt, MetaOk, OnlyEntry, MetaUpdate;
    CreateKeepsInv(d, d', s, h, i, t', words');
    DataNeeded(h);
    NewSectors(MarkedOn(d), MarkedOn(d'), s, Elements(h.Data()));
  }

  lemma DataNeeded(h: Header)
    requires h.Ok()
    ensures |Elements(h.Data())| == SectorsFor(h.numBytes)
  {
    OkFacts(h);
    ElementsSize(h.Data());
    SectorsForSize(h.numBytes);
  }

  lemma CreateFiles(d: Sectors, d': Sectors, s: int, h: Header, i: nat, t': Table, words': seq<bv32>, name: Name)
    requires Created(d, d', s, h, i, t', words') && Key(t'[i].name) == Key(name)
    ensures DiskInv(d')
    ensures exists content: seq<byte> ::
              |content| == Size(h.numBytes) && Files(d') == Files(d)[Key(name) := content]
  {
    hide DecodeHeader, DecodeTable, MarkedIn, Disjoint, Exact, SlotsOk;
    FilesAfterCreate(d, d', s, h, i, t', words');
    assert |FileBytes(d', h)| == Size(h.numBytes);
  }

  lemma NewSectors(before: set<int>, after: set<int>, s: int, data: set<int>)
    requires after == before + {s} + data && s !in before && s !in data && before !! data
    ensures before < after && |after| == |before| + 1 + |data| && after - before == {s} + data
  {
  }

  /** What Remove promises about the new disk when it succeeds. */
  ghost predicate RemoveResult(d: Sectors, d': Sectors, name: Name)
    requires DiskInv(d)
  {
    && DiskInv(d') && Key(name) in Listing(TableOf(d)) && FileAt(d, Listing(TableOf(d))[Key(name)])
    && Files(d') == Files(d) - {Key(name)}
    && Listing(TableOf(d')) == Listing(TableOf(d)) - {Key(name)}
    && MarkedOn(d') == MarkedOn(d) - FileSectors(d, Listing(TableOf(d))[Key(name)])
    && MetaUpdate(d, d', {})
  }

  /** Entry i is given up, and the free map loses exactly that file's sectors. */
  lemma RemovalCarriedOut(d: Sectors, d': Sectors, i: nat, t': Table, words': seq<bv32>, name: Name)
    requires Removed(d, d', i, t', words') && Key(TableOf(d)[i].name) == Key(name)
    ensures RemoveResult(d, d', name)
  {
    RemoveKeepsInv(d, d', i, t', words');
    hide FileBytes, DecodeHeader, DecodeTable, MarkedIn, Disjoint, Exact, SlotsOk;
    FilesAfterRemove(d, d', i, t', words');
    ListingEntry(TableOf(d), i);
    ListingRemove(TableOf(d), t', i);
  }

  lemma RemovalIsRemoved(d: Sectors, d': Sectors, i: nat, t': Table, words': seq<bv32>)
    requires MetaWritten(d, d', {}, t', words')
    requires i < NUM_DIR_ENTRIES && TableOf(d)[i].inUse && t' == TableOf(d)[i := TableOf(d)[i].(inUse := false)]
    requires FileAt(d, TableOf(d)[i].sector)
    requires MarkedIn(words', NUM_SECTORS) == MarkedOn(d) - FileSectors(d, TableOf(d)[i].sector)
    ensures Removed(d, d', i, t', words')
  {
    hide FileBytes, DecodeHeader, DecodeTable, MarkedIn, Disjoint, Exact, SlotsOk, FileAt, DistinctNames;
  }

  /** Marking two headers and then two sets of data sectors gives the free map of a new disk. */
  lemma BlankMap(mapHdr: Header, dirHdr: Header, t: Table, words: seq<bv32>)
    requires mapHdr.Ok() && mapHdr.numBytes == FREE_MAP_FILE_SIZE && dirHdr.Ok() && dirHdr.numBytes == DIRECTORY_FILE_SIZE
    requires forall i :: 0 <= i < NUM_DIR_ENTRIES ==> !t[i].inUse
    requires |words| == MAP_WORDS
    requires Elements(mapHdr.Data()) !! {FREE_MAP_SECTOR, DIRECTORY_SECTOR}
    requires Elements(dirHdr.Data()) !! {FREE_MAP_SECTOR, DIRECTORY_SECTOR} + Elements(mapHdr.Data())
    requires MarkedIn(words, NUM_SECTORS) == {FREE_MAP_SECTOR, DIRECTORY_SECTOR} + Elements(mapHdr.Data()) + Elements(dirHdr.Data())
    ensures Blank(mapHdr, dirHdr, t, words)
  {
    hide MarkedIn, Header.Ok, Elements;
  }

  lemma MetaFits(mapHdr: Header)
    requires mapHdr.Ok()
    ensures |{FREE_MAP_SECTOR, DIRECTORY_SECTOR} + Elements(mapHdr.Data())| <= NUM_DIRECT + 2
  {
    DataSize(mapHdr);
    hide Header.Ok, Elements;
    var meta, data := {FREE_MAP_SECTOR, DIRECTORY_SECTOR}, Elements(mapHdr.Data());
    assert |meta| == 2;
    assert |meta + data| <= |meta| + |data|;
  }

  lemma WordsNeeded()
    ensures DivRoundUp(NUM_SECTORS, BITS_IN_WORD) == MAP_WORDS
  {
  }

  /** Format's in-memory half: two headers whose sectors the new free map marks. The ASSERTs on
      Allocate cannot fail. */
  method PlanFormat(ghost t: Table) returns (freeMap: Bitmap, mapHdr: FileHeader, dirHdr: FileHeader)
    requires forall i :: 0 <= i < NUM_DIR_ENTRIES ==> !t[i].inUse
    ensures fresh(freeMap) && fresh(freeMap.words) && fresh(mapHdr) && fresh(dirHdr)
    ensures freeMap.Valid() && freeMap.numBits == NUM_SECTORS && mapHdr.Valid() && dirHdr.Valid()
    ensures Blank(mapHdr.Image(), dirHdr.Image(), t, freeMap.words[..])
  {
    hide MarkedIn, Header.Ok, Elements, Blank, DivRoundUp, StoresAt;
    freeMap := new Bitmap(NUM_SECTORS);
    WordsNeeded();
    mapHdr := new FileHeader();
    dirHdr := new FileHeader();
    freeMap.Mark(FREE_MAP_SECTOR);
    freeMap.Mark(DIRECTORY_SECTOR);
    assert freeMap.Marked() == {FREE_MAP_SECTOR, DIRECTORY_SECTOR};
    SectorsNeeded(FREE_MAP_FILE_SIZE);
    SectorsNeeded(DIRECTORY_FILE_SIZE);
    var mapFits := mapHdr.Allocate(freeMap, FREE_MAP_FILE_SIZE);
    assert mapFits;
    MetaFits(mapHdr.Image());
    var dirFits := dirHdr.Allocate(freeMap, DIRECTORY_FILE_SIZE);
    assert dirFits;
    BlankMap(mapHdr.Image(), dirHdr.Image(), t, freeMap.words[..]);
  }

  lemma DataSize(h: Header)
    requires h.Ok()
    ensures |Elements(h.Data())| == h.Count() <= NUM_DIRECT
  {
    OkFacts(h);
    ElementsSize(h.Data());
  }

  class FileSystem {
    const disk: SectorStore
    const freeMapFile: OpenFile
    const directoryFile: OpenFile

    /** The two files kept open hold the headers that are on disk. */
    ghost predicate Attached()
      reads this, disk, freeMapFile.hdr, directoryFile.hdr
    {
      && freeMapFile.disk == disk && directoryFile.disk == disk
      && freeMapFile.hdr.Valid() && directoryFile.hdr.Valid()
      && freeMapFile.hdr.Image() == HeaderAt(disk.sectors, FREE_MAP_SECTOR)
      && directoryFile.hdr.Image() == HeaderAt(disk.sectors, DIRECTORY_SECTOR)
    }

    ghost predicate Valid()
      reads this, disk, freeMapFile.hdr, directoryFile.hdr
    {
      Attached() && DiskInv(disk.sectors)
    }

    /** Puts an empty file system on a disk, whatever was on it. */
    constructor Format(disk: SectorStore)
      modifies disk
      ensures Valid() && this.disk == disk
      ensures fresh(freeMapFile) && fresh(directoryFile) && fresh(freeMapFile.hdr) && fresh(directoryFile.hdr)
      ensures Files(disk.sectors) == map[] && |MarkedOn(disk.sectors)| == 5
    {
      hide FileBytes, DecodeHeader, EncodeHeader, DecodeTable, EncodeTable, Header.Ok, MarkedIn, DiskInv;
      var directory := new Directory(NUM_DIR_ENTRIES);
      var freeMap, mapHdr, dirHdr := PlanFormat(directory.table[..]);
      assert freeMap.words.Length == MAP_WORDS;
      ghost var d := disk.sectors;
      OkFacts(mapHdr.Image());
      OkFacts(dirHdr.Image());
      HeaderRoundTrip(mapHdr.Image());
      HeaderRoundTrip(dirHdr.Image());
      mapHdr.WriteBack(disk, FREE_MAP_SECTOR);
      dirHdr.WriteBack(disk, DIRECTORY_SECTOR);
      ghost var d1 := disk.sectors;
      this.disk := disk;
      freeMapFile := new OpenFile(disk, FREE_MAP_SECTOR);
      directoryFile := new OpenFile(disk, DIRECTORY_SECTOR);
      new;
      PersistentBitmaps.WriteBack(freeMap, freeMapFile);
      ghost var d2 := disk.sectors;
      directory.WriteBack(directoryFile);
      FormatFlush(d, d1, d2, disk.sectors, mapHdr.Image(), dirHdr.Image(), directory.table[..], freeMap.words[..]);
      FormattedInv(disk.sectors, mapHdr.Image(), dirHdr.Image(), directory.table[..], freeMap.words[..]);
    }

    /** Opens the two metadata files of a disk that has been formatted before. */
    constructor Mount(disk: SectorStore)
      requires DiskInv(disk.sectors)
      ensures Valid() && this.disk == disk
      ensures fresh(freeMapFile) && fresh(directoryFile) && fresh(freeMapFile.hdr) && fresh(directoryFile.hdr)
    {
      this.disk := disk;
      freeMapFile := new OpenFile(disk, FREE_MAP_SECTOR);
      directoryFile := new OpenFile(disk, DIRECTORY_SECTOR);
    }

    /** Reads the directory and the free map off the disk. */
    method FetchDirectory() returns (directory: Directory)
      requires Valid()
      ensures fresh(directory) && fresh(directory.table)
      ensures directory.table[..] == TableOf(disk.sectors)
    {
      hide FileBytes, Header.Ok, DecodeTable;
      directory := new Directory(NUM_DIR_ENTRIES);
      directory.FetchFrom(directoryFile);
    }

    method FetchFreeMap() returns (freeMap: Bitmap)
      requires Valid()
      ensures fresh(freeMap) && fresh(freeMap.words) && freeMap.Valid() && freeMap.numBits == NUM_SECTORS
      ensures freeMap.Marked() == MarkedOn(disk.sectors)
    {
      freeMap := new Bitmap(NUM_SECTORS);
      PersistentBitmaps.FetchFrom(freeMap, freeMapFile);
    }

    /** The disk after a Create that went through, for some header h at sector s. */
    method FlushNewFile(hdr: FileHeader, sector: int, directory: Directory, freeMap: Bitmap)
      requires Valid() && hdr.Valid() && hdr.Image().Ok() && 0 <= sector < NUM_SECTORS
      requires sector !in Elements(hdr.Image().Data()) && sector !in MarkedOn(disk.sectors)
      requires Elements(hdr.Image().Data()) !! MarkedOn(disk.sectors)
      requires directory.table.Length == NUM_DIR_ENTRIES && freeMap.Valid() && freeMap.numBits == NUM_SECTORS
      modifies disk
      ensures Attached()
      ensures MetaWritten(old(disk.sectors), disk.sectors, {sector} + Elements(hdr.Image().Data()),
                          directory.table[..], freeMap.words[..])
      ensures HeaderAt(disk.sectors, sector) == hdr.Image()
    {
      hide FileBytes, DecodeHeader, EncodeHeader, DecodeTable, EncodeTable, Header.Ok, MarkedIn, MarkedOn, MetaUpdate, OnlyData,
           Disjoint, Exact, SlotsOk;
      OkFacts(hdr.Image());
      WordsNeeded();
      ghost var d := disk.sectors;
      hdr.WriteBack(disk, sector);
      ghost var d1 := disk.sectors;
      directory.WriteBack(directoryFile);
      ghost var d2 := disk.sectors;
      PersistentBitmaps.WriteBack(freeMap, freeMapFile);
      FlushCreate(d, d1, d2, disk.sectors, sector, hdr.Image(), directory.table[..], freeMap.words[..]);
      MetaRebuilt(d, disk.sectors, {sector} + Elements(hdr.Image().Data()), directory.table[..], freeMap.words[..]);
    }

    /** The in-memory half of Create: a sector for the header, a directory entry, sectors for the data. */
    static method Plan(name: Name, initialSize: CInt, directory: Directory, freeMap: Bitmap, ghost t: Table, ghost marked: set<int>)
      returns (ok: bool, sector: int, hdr: FileHeader)
      requires directory.table[..] == t && DistinctNames(t) && Key(name) !in Listing(t)
      requires freeMap.Valid() && freeMap.numBits == NUM_SECTORS && freeMap.Marked() == marked
      requires initialSize <= MAX_FILE_SIZE || !(FirstFree(t) < NUM_DIR_ENTRIES && |marked| + 1 + SectorsFor(initialSize) <= NUM_SECTORS)
      requires directory.table as object != freeMap.words
      modifies directory.table, freeMap.words
      ensures fresh(hdr) && hdr.Valid()
      ensures ok <==> FirstFree(t) < NUM_DIR_ENTRIES && |marked| + 1 + SectorsFor(initialSize) <= NUM_SECTORS
      ensures ok ==> hdr.numBytes == initialSize
      ensures ok ==> Planned(t, marked, sector, hdr.Image(), FirstFree(t), directory.table[..], freeMap.words[..], name)
    {
      hide EncodeHeader, Header.Ok, MarkedIn, DivRoundUp, Listing, DistinctNames, Key, StrnCopy, EntryFor, FindIn, StoresAt, Elements;
      WordsNeeded();
      SectorsForSize(initialSize);
      ListingFind(t, Key(name));
      hdr := new FileHeader();
      sector := TakeClear(freeMap);
      if sector == -1 {
        return false, sector, hdr;
      }
      var added := directory.Add(name, sector);
      if !added {
        return false, sector, hdr;
      }
      EntryAdded(t, directory.table[..], FirstFree(t), sector, name);
      ok := hdr.Allocate(freeMap, initialSize);
    }

    /** Create, once the name is known to be new. */
    method CreateNew(name: Name, initialSize: CInt, directory: Directory) returns (success: bool)
      requires Valid() && Key(name) !in Listing(TableOf(disk.sectors))
      requires initialSize <= MAX_FILE_SIZE || !CanCreate(disk.sectors, name, initialSize)
      requires directory.table[..] == TableOf(disk.sectors)
      modifies disk, directory.table
      ensures Valid()
      ensures success <==> CanCreate(old(disk.sectors), name, initialSize)
      ensures !success ==> disk.sectors == old(disk.sectors)
      ensures success ==> CreateResult(old(disk.sectors), disk.sectors, name, initialSize)
    {
      hide FileBytes, DecodeHeader, EncodeHeader, DecodeTable, EncodeTable, Header.Ok, MarkedIn, Disjoint, Exact, SlotsOk;
      ghost var d := disk.sectors;
      DirectoryRoom(d);
      var freeMap := FetchFreeMap();
      var ok, sector, hdr := FileSystem.Plan(name, initialSize, directory, freeMap, TableOf(d), MarkedOn(d));
      if !ok {
        return false;
      }
      FlushNewFile(hdr, sector, directory, freeMap);
      PlanCarriedOut(d, disk.sectors, sector, hdr.Image(), FirstFree(TableOf(d)), directory.table[..], freeMap.words[..], name);
      return true;
    }

    /** Makes a file of a fixed size. It goes through exactly when the name is new, the directory has a
        free entry, and the disk has a sector for the header and enough for the data. Only then does the caller
        have to keep to sizes that a header can hold. */
    method Create(name: Name, initialSize: CInt) returns (success: bool)
      requires Valid() && (initialSize <= MAX_FILE_SIZE || !CanCreate(disk.sectors, name, initialSize))
      modifies disk
      ensures Valid()
      ensures success <==> CanCreate(old(disk.sectors), name, initialSize)
      ensures !success ==> disk.sectors == old(disk.sectors)
      ensures success ==> CreateResult(old(disk.sectors), disk.sectors, name, initialSize)
    {
      hide FileBytes, DecodeHeader, DecodeTable, Header.Ok, MarkedIn, Disjoint, Exact, SlotsOk;
      ListedSector(disk.sectors, Key(name));
      var directory := FetchDirectory();
      var listed := directory.Find(name);
      if listed != -1 {
        return false;
      }
      success := CreateNew(name, initialSize, directory);
    }

    /** A listed file, opened; null when the name is not listed. */
    method Open(name: Name) returns (file: OpenFile?)
      requires Valid()
      ensures file == null <==> Key(name) !in Files(disk.sectors)
      ensures file != null ==>
                && fresh(file) && fresh(file.hdr) && file.disk == disk && file.seekPosition == 0 && file.Valid()
                && Key(name) in Listing(TableOf(disk.sectors))
                && file.hdr.Image() == ListedHeader(disk.sectors, Key(name))
                && file.Bytes() == Files(disk.sectors)[Key(name)]
    {
      hide FileBytes, DecodeHeader, DecodeTable, Header.Ok, MarkedIn, Disjoint, Exact, SlotsOk;
      ListedSector(disk.sectors, Key(name));
      var directory := FetchDirectory();
      var sector := directory.Find(name);
      if sector == -1 {
        return null;
      }
      ListedFile(disk.sectors, Key(name));
      file := new OpenFile(disk, sector);
    }

    method FlushRemoval(directory: Directory, freeMap: Bitmap)
      requires Valid()
      requires directory.table.Length == NUM_DIR_ENTRIES && freeMap.Valid() && freeMap.numBits == NUM_SECTORS
      modifies disk
      ensures Attached()
      ensures MetaWritten(old(disk.sectors), disk.sectors, {}, directory.table[..], freeMap.words[..])
    {
      hide FileBytes, DecodeHeader, EncodeHeader, DecodeTable, EncodeTable, Header.Ok, MarkedIn;
      ghost var d := disk.sectors;
      PersistentBitmaps.WriteBack(freeMap, freeMapFile);
      ghost var d1 := disk.sectors;
      directory.WriteBack(directoryFile);
      FlushRemove(d, d1, disk.sectors, directory.table[..], freeMap.words[..]);
      MetaRebuilt(d, disk.sectors, {}, directory.table[..], freeMap.words[..]);
    }

    /** Clears the bits of a listed file's data and header. */
    method ReleaseSectors(freeMap: Bitmap, sector: int)
      requires Valid() && FileAt(disk.sectors, sector) && freeMap.Valid() && freeMap.numBits == NUM_SECTORS
      requires freeMap.Marked() == MarkedOn(disk.sectors)
      requires FileSectors(disk.sectors, sector) <= MarkedOn(disk.sectors)
      modifies freeMap.words
      ensures freeMap.Marked() == MarkedOn(disk.sectors) - FileSectors(disk.sectors, sector)
    {
      hide FileBytes, DecodeHeader, DecodeTable, MarkedIn, Disjoint, Exact, SlotsOk, MetaOk, DistinctNames;
      var fileHdr := new FileHeader();
      fileHdr.FetchFrom(disk, sector);
      fileHdr.Deallocate(freeMap);
      freeMap.Clear(sector);
    }

    /** Deletes a listed file and gives back exactly its sectors. */
    method Remove(name: Name) returns (ok: bool)
      requires Valid()
      modifies disk
      ensures Valid()
      ensures ok <==> Key(name) in old(Files(disk.sectors))
      ensures !ok ==> disk.sectors == old(disk.sectors)
      ensures ok ==> RemoveResult(old(disk.sectors), disk.sectors, name)
    {
      hide FileBytes, DecodeHeader, DecodeTable, Header.Ok, MarkedIn, Disjoint, Exact, SlotsOk;
      ghost var d := disk.sectors;
      ListedSector(d, Key(name));
      var directory := FetchDirectory();
      var sector := directory.Find(name);
      if sector == -1 {
        return false;
      }
      RemoveListed(name, sector, directory);
      ok := true;
    }

    /** Remove, once the file has been found. */
    method RemoveListed(name: Name, sector: int, directory: Directory)
      requires Valid() && Key(name) in Listing(TableOf(disk.sectors)) && sector == Listing(TableOf(disk.sectors))[Key(name)]
      requires directory.table[..] == TableOf(disk.sectors)
      modifies disk, directory.table
      ensures Valid()
      ensures RemoveResult(old(disk.sectors), disk.sectors, name)
    {
      hide FileBytes, DecodeHeader, DecodeTable, Header.Ok, MarkedIn, Disjoint, Exact, SlotsOk, MetaWritten, Removed, OnlyEntry, Files, Listing;
      ghost var d := disk.sectors;
      ghost var i := FindIn(TableOf(d), Key(name));
      ListedFile(d, Key(name));
      SlotFacts(d, i + 2);
      var freeMap := FetchFreeMap();
      ReleaseSectors(freeMap, sector);
      var _ := directory.Remove(name);
      FlushRemoval(directory, freeMap);
      RemovalIsRemoved(d, disk.sectors, i, directory.table[..], freeMap.words[..]);
      RemovalCarriedOut(d, disk.sectors, i, directory.table[..], freeMap.words[..], name);
    }
  }
}
