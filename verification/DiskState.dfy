/** What a formatted disk looks like (filesys/filesys.cc): which sector belongs to which file, and
    how the free map and the directory, themselves files, describe that. */
module DiskStates {
  import opened Layout
  import opened Collections
  import opened Bitmaps
  import opened SectorStores
  import opened FileHeaders
  import opened OpenFiles
  import opened Directories
  import opened PersistentBitmaps

  const FREE_MAP_SECTOR: int := 0
  const DIRECTORY_SECTOR: int := 1
  const FREE_MAP_FILE_SIZE: nat := 128
  const NUM_DIR_ENTRIES: nat := 10
  const DIRECTORY_FILE_SIZE: nat := ENTRY_BYTES * NUM_DIR_ENTRIES
  const MAP_WORDS: nat := 32
  const SLOTS: nat := NUM_DIR_ENTRIES + 2

  type Table = t: seq<DirEntry> | |t| == NUM_DIR_ENTRIES
    witness seq(NUM_DIR_ENTRIES, _ => Entry(false, 0, seq(NAME_BYTES, _ => 0)))

  function HeaderAt(d: Sectors, s: int): Header
    requires 0 <= s < NUM_SECTORS
  {
    DecodeHeader(d[s])
  }

  /** The two metadata files are where the system expects them and have the sizes it gave them. */
  ghost predicate MetaOk(d: Sectors) {
    && HeaderAt(d, FREE_MAP_SECTOR).Ok() && HeaderAt(d, FREE_MAP_SECTOR).numBytes == FREE_MAP_FILE_SIZE
    && HeaderAt(d, DIRECTORY_SECTOR).Ok() && HeaderAt(d, DIRECTORY_SECTOR).numBytes == DIRECTORY_FILE_SIZE
  }

  function TableOf(d: Sectors): Table
    requires MetaOk(d)
  {
    DecodeTable(FileBytes(d, HeaderAt(d, DIRECTORY_SECTOR)), NUM_DIR_ENTRIES)
  }

  function WordsOf(d: Sectors): (words: seq<bv32>)
    requires MetaOk(d)
    ensures |words| == MAP_WORDS
  {
    DecodeMap(FileBytes(d, HeaderAt(d, FREE_MAP_SECTOR)), MAP_WORDS)
  }

  /** The sectors that the on-disk free map marks as taken. */
  ghost function MarkedOn(d: Sectors): set<int>
    requires MetaOk(d)
  {
    MarkedIn(WordsOf(d), NUM_SECTORS)
  }

  // The files of the disk: slot 0 is the free map, slot 1 the directory, slot k + 2 directory entry k.

  predicate Used(t: Table, k: nat)
    requires k < SLOTS
  {
    k < 2 || t[k - 2].inUse
  }

  function Head(t: Table, k: nat): int
    requires k < SLOTS
  {
    if k < 2 then k else t[k - 2].sector
  }

  ghost predicate FileAt(d: Sectors, s: int) {
    && 0 <= s < NUM_SECTORS && HeaderAt(d, s).Ok() && s !in Elements(HeaderAt(d, s).Data())
  }

  ghost function DataSectors(d: Sectors, s: int): set<int>
    requires FileAt(d, s)
  {
    Elements(HeaderAt(d, s).Data())
  }

  /** A file's header sector together with its data sectors. */
  ghost function FileSectors(d: Sectors, s: int): set<int>
    requires FileAt(d, s)
  {
    {s} + DataSectors(d, s)
  }

  ghost predicate SlotsOk(d: Sectors, t: Table) {
    forall k :: 0 <= k < SLOTS && Used(t, k) ==> FileAt(d, Head(t, k))
  }

  ghost predicate Disjoint(d: Sectors, t: Table)
    requires SlotsOk(d, t)
  {
    forall j, k :: 0 <= j < k < SLOTS && Used(t, j) && Used(t, k) ==>
      FileSectors(d, Head(t, j)) !! FileSectors(d, Head(t, k))
  }

  ghost predicate OwnedBy(d: Sectors, t: Table, x: int, k: nat)
    requires SlotsOk(d, t) && k < SLOTS
  {
    Used(t, k) && x in FileSectors(d, Head(t, k))
  }

  ghost predicate Owned(d: Sectors, t: Table, x: int)
    requires SlotsOk(d, t)
  {
    exists k :: 0 <= k < SLOTS && OwnedBy(d, t, x, k)
  }

  /** The marked sectors are exactly those of the files. */
  ghost predicate Exact(d: Sectors, t: Table, marked: set<int>)
    requires SlotsOk(d, t)
  {
    forall x :: x in marked <==> Owned(d, t, x)
  }

  /** The ownership invariant of the file system. */
  ghost predicate DiskInv(d: Sectors) {
    && MetaOk(d)
    && DistinctNames(TableOf(d))
    && SlotsOk(d, TableOf(d))
    && Disjoint(d, TableOf(d))
    && Exact(d, TableOf(d), MarkedOn(d))
  }

  // ---- frame ----

  /** d' differs from d only in sectors that were free, in the free map's data and in the directory's data. */
  ghost predicate MetaUpdate(d: Sectors, d': Sectors, free: set<int>)
    requires MetaOk(d)
  {
    forall s :: 0 <= s < NUM_SECTORS
                && s !in free
                && s !in Elements(HeaderAt(d, FREE_MAP_SECTOR).Data())
                && s !in Elements(HeaderAt(d, DIRECTORY_SECTOR).Data())
                ==> d'[s] == d[s]
  }

  lemma SlotFacts(d: Sectors, k: nat)
    requires DiskInv(d) && k < SLOTS && Used(TableOf(d), k)
    ensures FileAt(d, Head(TableOf(d), k))
    ensures FileSectors(d, Head(TableOf(d), k)) <= MarkedOn(d)
  {
    hide FileBytes, DecodeHeader, DecodeTable, DecodeMap, MarkedIn, Header.Ok;
    var t := TableOf(d);
    forall x | x in FileSectors(d, Head(t, k)) ensures x in MarkedOn(d) {
      assert OwnedBy(d, t, x, k);
      assert Owned(d, t, x);
    }
  }

  lemma SlotsApart(d: Sectors, j: nat, k: nat)
    requires DiskInv(d) && j < SLOTS && k < SLOTS && j != k && Used(TableOf(d), j) && Used(TableOf(d), k)
    ensures FileAt(d, Head(TableOf(d), j)) && FileAt(d, Head(TableOf(d), k))
    ensures FileSectors(d, Head(TableOf(d), j)) !! FileSectors(d, Head(TableOf(d), k))
  {
  }

  /** A sector of a file is left alone, unless it is data of the two metadata files. */
  lemma Untouched(d: Sectors, d': Sectors, free: set<int>, k: nat, x: int)
    requires DiskInv(d) && free !! MarkedOn(d) && MetaUpdate(d, d', free)
    requires k < SLOTS && Used(TableOf(d), k) && FileAt(d, Head(TableOf(d), k))
    requires x in FileSectors(d, Head(TableOf(d), k)) && (k >= 2 || x == Head(TableOf(d), k))
    requires 0 <= x < NUM_SECTORS
    ensures d'[x] == d[x]
  {
    SlotFacts(d, k);
    if k != 0 { SlotsApart(d, 0, k); }
    if k != 1 { SlotsApart(d, 1, k); }
    SlotFacts(d, 0);
    SlotFacts(d, 1);
    hide DiskInv, MarkedOn, TableOf, HeaderAt;
    assert x !in DataSectors(d, FREE_MAP_SECTOR);
    assert x !in DataSectors(d, DIRECTORY_SECTOR);
  }

  /** Every file keeps its header. */
  lemma HeaderKept(d: Sectors, d': Sectors, free: set<int>, k: nat)
    requires DiskInv(d) && free !! MarkedOn(d) && MetaUpdate(d, d', free)
    requires k < SLOTS && Used(TableOf(d), k)
    ensures FileAt(d, Head(TableOf(d), k)) && FileAt(d', Head(TableOf(d), k))
    ensures HeaderAt(d', Head(TableOf(d), k)) == HeaderAt(d, Head(TableOf(d), k))
    ensures FileSectors(d, Head(TableOf(d), k)) == FileSectors(d', Head(TableOf(d), k))
  {
    hide FileBytes, DecodeHeader, DecodeTable, DecodeMap, MarkedIn, Header.Ok;
    SlotFacts(d, k);
    Untouched(d, d', free, k, Head(TableOf(d), k));
  }

  /** Every listed file keeps its contents. */
  lemma ContentsKept(d: Sectors, d': Sectors, free: set<int>, k: nat)
    requires DiskInv(d) && free !! MarkedOn(d) && MetaUpdate(d, d', free)
    requires 2 <= k < SLOTS && Used(TableOf(d), k)
    ensures FileAt(d, Head(TableOf(d), k)) && FileAt(d', Head(TableOf(d), k))
    ensures FileBytes(d', HeaderAt(d', Head(TableOf(d), k))) == FileBytes(d, HeaderAt(d, Head(TableOf(d), k)))
  {
    hide FileBytes, DecodeHeader, DecodeTable, DecodeMap, MarkedIn, Header.Ok;
    var s := Head(TableOf(d), k);
    HeaderKept(d, d', free, k);
    forall x <- HeaderAt(d, s).Data() | 0 <= x < NUM_SECTORS ensures d[x] == d'[x] {
      Untouched(d, d', free, k, x);
    }
    BytesFrame(d, d', HeaderAt(d, s));
  }

  // ---- what writing the metadata back does ----

  /** d' holds this table and this free map in the two metadata files. */
  ghost predicate MetaWritten(d: Sectors, d': Sectors, free: set<int>, t': Table, words': seq<bv32>) {
    && DiskInv(d) && free !! MarkedOn(d) && MetaUpdate(d, d', free)
    && |words'| == MAP_WORDS
    && FileBytes(d', HeaderAt(d, DIRECTORY_SECTOR)) == EncodeTable(t')
    && FileBytes(d', HeaderAt(d, FREE_MAP_SECTOR)) == EncodeMap(words')
  }

  lemma MetaRebuilt(d: Sectors, d': Sectors, free: set<int>, t': Table, words': seq<bv32>)
    requires MetaWritten(d, d', free, t', words')
    ensures MetaOk(d') && TableOf(d') == t' && WordsOf(d') == words'
    ensures HeaderAt(d', FREE_MAP_SECTOR) == HeaderAt(d, FREE_MAP_SECTOR)
    ensures HeaderAt(d', DIRECTORY_SECTOR) == HeaderAt(d, DIRECTORY_SECTOR)
  {
    hide FileBytes, DecodeHeader, DecodeTable, DecodeMap, MarkedIn, Header.Ok;
    HeaderKept(d, d', free, 0);
    HeaderKept(d, d', free, 1);
    TableRoundTrip(t');
    MapRoundTrip(words');
  }

  /** The inputs and the outcome of a successful Create: header sector s, header h, directory entry i. */
  ghost predicate Created(d: Sectors, d': Sectors, s: int, h: Header, i: nat, t': Table, words': seq<bv32>) {
    && DiskInv(d) && h.Ok() && 0 <= s < NUM_SECTORS && s !in Elements(h.Data())
    && HeaderAt(d', s) == h
    && MetaWritten(d, d', {s} + Elements(h.Data()), t', words')
    && MarkedIn(words', NUM_SECTORS) == MarkedOn(d) + {s} + Elements(h.Data())
    && OnlyEntry(TableOf(d), t', i) && !TableOf(d)[i].inUse && t'[i].inUse && t'[i].sector == s
    && Key(t'[i].name) !in Listing(TableOf(d))
  }

  lemma CreatedSlot(d: Sectors, d': Sectors, s: int, h: Header, i: nat, t': Table, words': seq<bv32>, k: nat)
    requires Created(d, d', s, h, i, t', words') && k < SLOTS && Used(t', k)
    ensures FileAt(d', Head(t', k))
    ensures k == i + 2 ==> FileSectors(d', Head(t', k)) == {s} + Elements(h.Data())
    ensures k != i + 2 ==> Used(TableOf(d), k) && Head(TableOf(d), k) == Head(t', k) && FileAt(d, Head(t', k))
                           && FileSectors(d', Head(t', k)) == FileSectors(d, Head(t', k))
                           && FileSectors(d, Head(t', k)) <= MarkedOn(d)
  {
    hide FileBytes, DecodeHeader, DecodeTable, DecodeMap, MarkedIn, Header.Ok;
    if k != i + 2 {
      HeaderKept(d, d', {s} + Elements(h.Data()), k);
      SlotFacts(d, k);
    }
  }

  lemma CreateKeepsInv(d: Sectors, d': Sectors, s: int, h: Header, i: nat, t': Table, words': seq<bv32>)
    requires Created(d, d', s, h, i, t', words')
    ensures DiskInv(d') && TableOf(d') == t' && MarkedOn(d') == MarkedOn(d) + {s} + Elements(h.Data())
  {
    hide FileBytes, DecodeHeader, DecodeTable, DecodeMap, MarkedIn, Header.Ok;
    var t, free := TableOf(d), {s} + Elements(h.Data());
    MetaRebuilt(d, d', free, t', words');
    ListingAdd(t, t', i);
    forall k | 0 <= k < SLOTS && Used(t', k) ensures FileAt(d', Head(t', k)) {
      CreatedSlot(d, d', s, h, i, t', words', k);
    }
    CreateDisjoint(d, d', s, h, i, t', words');
    CreateExact(d, d', s, h, i, t', words');
  }

  lemma CreateDisjoint(d: Sectors, d': Sectors, s: int, h: Header, i: nat, t': Table, words': seq<bv32>)
    requires Created(d, d', s, h, i, t', words') && SlotsOk(d', t')
    ensures Disjoint(d', t')
  {
    hide FileBytes, DecodeHeader, DecodeTable, DecodeMap, MarkedIn, Header.Ok;
    forall j, k | 0 <= j < k < SLOTS && Used(t', j) && Used(t', k)
      ensures FileSectors(d', Head(t', j)) !! FileSectors(d', Head(t', k))
    {
      CreatedSlot(d, d', s, h, i, t', words', j);
      CreatedSlot(d, d', s, h, i, t', words', k);
      if j != i + 2 && k != i + 2 {
        SlotsApart(d, j, k);
      }
    }
  }

  lemma CreateExact(d: Sectors, d': Sectors, s: int, h: Header, i: nat, t': Table, words': seq<bv32>)
    requires Created(d, d', s, h, i, t', words') && SlotsOk(d', t')
    ensures Exact(d', t', MarkedOn(d) + {s} + Elements(h.Data()))
  {
    hide FileBytes, DecodeHeader, DecodeTable, DecodeMap, MarkedIn, Header.Ok;
    var t, free := TableOf(d), {s} + Elements(h.Data());
    forall x ensures x in MarkedOn(d) + {s} + Elements(h.Data()) <==> Owned(d', t', x) {
      if x in free {
        CreatedSlot(d, d', s, h, i, t', words', i + 2);
        assert OwnedBy(d', t', x, i + 2);
      } else if x in MarkedOn(d) {
        var k :| 0 <= k < SLOTS && OwnedBy(d, t, x, k);
        CreatedSlot(d, d', s, h, i, t', words', k);
        assert OwnedBy(d', t', x, k);
      }
      if Owned(d', t', x) {
        var k :| 0 <= k < SLOTS && OwnedBy(d', t', x, k);
        CreatedSlot(d, d', s, h, i, t', words', k);
      }
    }
  }

  /** The outcome of a successful Remove of directory entry i. */
  ghost predicate Removed(d: Sectors, d': Sectors, i: nat, t': Table, words': seq<bv32>) {
    && DiskInv(d) && MetaWritten(d, d', {}, t', words')
    && OnlyEntry(TableOf(d), t', i) && TableOf(d)[i].inUse && !t'[i].inUse
    && FileAt(d, TableOf(d)[i].sector)
    && MarkedIn(words', NUM_SECTORS) == MarkedOn(d) - FileSectors(d, TableOf(d)[i].sector)
  }

  lemma RemainingSlot(d: Sectors, d': Sectors, i: nat, t': Table, words': seq<bv32>, k: nat)
    requires Removed(d, d', i, t', words') && k < SLOTS && Used(t', k)
    ensures k != i + 2 && Used(TableOf(d), k) && Head(TableOf(d), k) == Head(t', k)
    ensures FileAt(d, Head(t', k)) && FileAt(d', Head(t', k))
    ensures FileSectors(d', Head(t', k)) == FileSectors(d, Head(t', k))
    ensures FileSectors(d, Head(t', k)) <= MarkedOn(d) - FileSectors(d, TableOf(d)[i].sector)
  {
    assert k != i + 2;
    SlotStays(d, d', k, i + 2);
    hide *;
  }

  lemma SlotStays(d: Sectors, d': Sectors, k: nat, gone: nat)
    requires DiskInv(d) && MetaUpdate(d, d', {})
    requires k < SLOTS && Used(TableOf(d), k) && gone < SLOTS && Used(TableOf(d), gone) && k != gone
    ensures FileAt(d, Head(TableOf(d), k)) && FileAt(d', Head(TableOf(d), k)) && FileAt(d, Head(TableOf(d), gone))
    ensures FileSectors(d', Head(TableOf(d), k)) == FileSectors(d, Head(TableOf(d), k))
    ensures FileSectors(d, Head(TableOf(d), k)) <= MarkedOn(d) - FileSectors(d, Head(TableOf(d), gone))
  {
    hide FileBytes, DecodeHeader, DecodeTable, DecodeMap, MarkedIn, Header.Ok;
    HeaderKept(d, d', {}, k);
    SlotFacts(d, k);
    SlotsApart(d, k, gone);
  }

  lemma RemoveKeepsInv(d: Sectors, d': Sectors, i: nat, t': Table, words': seq<bv32>)
    requires Removed(d, d', i, t', words')
    ensures DiskInv(d') && TableOf(d') == t'
    ensures MarkedOn(d') == MarkedOn(d) - FileSectors(d, TableOf(d)[i].sector)
  {
    hide FileBytes, DecodeHeader, DecodeTable, DecodeMap, MarkedIn, Header.Ok;
    MetaRebuilt(d, d', {}, t', words');
    RemoveKeepsDistinct(TableOf(d), t', i);
    forall k | 0 <= k < SLOTS && Used(t', k) ensures FileAt(d', Head(t', k)) {
      RemainingSlot(d, d', i, t', words', k);
    }
    forall j, k | 0 <= j < k < SLOTS && Used(t', j) && Used(t', k)
      ensures FileSectors(d', Head(t', j)) !! FileSectors(d', Head(t', k))
    {
      RemainingSlot(d, d', i, t', words', j);
      RemainingSlot(d, d', i, t', words', k);
      SlotsApart(d, j, k);
    }
    RemoveExact(d, d', i, t', words');
  }

  lemma RemoveExact(d: Sectors, d': Sectors, i: nat, t': Table, words': seq<bv32>)
    requires Removed(d, d', i, t', words') && SlotsOk(d', t')
    ensures Exact(d', t', MarkedOn(d) - FileSectors(d, TableOf(d)[i].sector))
  {
    hide FileBytes, DecodeHeader, DecodeTable, DecodeMap, MarkedIn, Header.Ok;
    forall x ensures x in MarkedOn(d) - FileSectors(d, TableOf(d)[i].sector) <==> Owned(d', t', x) {
      RemoveExactAt(d, d', i, t', words', x);
    }
  }

  lemma RemoveExactAt(d: Sectors, d': Sectors, i: nat, t': Table, words': seq<bv32>, x: int)
    requires Removed(d, d', i, t', words') && SlotsOk(d', t')
    ensures x in MarkedOn(d) - FileSectors(d, TableOf(d)[i].sector) <==> Owned(d', t', x)
  {
    hide FileBytes, DecodeHeader, DecodeTable, DecodeMap, MarkedIn, Header.Ok;
    var t := TableOf(d);
    if x in MarkedOn(d) - FileSectors(d, t[i].sector) {
      var k :| 0 <= k < SLOTS && OwnedBy(d, t, x, k);
      assert k != i + 2;
      RemainingSlot(d, d', i, t', words', k);
      assert OwnedBy(d', t', x, k);
    }
    if Owned(d', t', x) {
      var k :| 0 <= k < SLOTS && OwnedBy(d', t', x, k);
      RemainingSlot(d, d', i, t', words', k);
    }
  }

  /** Only data sectors of the listed file k differ. */
  ghost predicate DataWrite(d: Sectors, d': Sectors, k: nat) {
    && DiskInv(d) && 2 <= k < SLOTS && Used(TableOf(d), k) && FileAt(d, Head(TableOf(d), k))
    && forall s :: 0 <= s < NUM_SECTORS && s !in DataSectors(d, Head(TableOf(d), k)) ==> d'[s] == d[s]
  }

  lemma WriteLeaves(d: Sectors, d': Sectors, k: nat, j: nat)
    requires DataWrite(d, d', k) && j < SLOTS && Used(TableOf(d), j)
    ensures FileAt(d, Head(TableOf(d), j)) && FileAt(d', Head(TableOf(d), j))
    ensures HeaderAt(d', Head(TableOf(d), j)) == HeaderAt(d, Head(TableOf(d), j))
    ensures FileSectors(d', Head(TableOf(d), j)) == FileSectors(d, Head(TableOf(d), j))
    ensures j != k ==> FileBytes(d', HeaderAt(d', Head(TableOf(d), j))) == FileBytes(d, HeaderAt(d, Head(TableOf(d), j)))
  {
    hide FileBytes, DecodeHeader, DecodeTable, DecodeMap, MarkedIn, Header.Ok;
    var s := Head(TableOf(d), j);
    SlotFacts(d, j);
    assert s in FileSectors(d, s);
    if j != k {
      SlotsApart(d, j, k);
      forall x <- HeaderAt(d, s).Data() | 0 <= x < NUM_SECTORS ensures d[x] == d'[x] {
        assert x in FileSectors(d, s);
      }
      BytesFrame(d, d', HeaderAt(d, s));
    }
  }

  lemma WriteKeepsInv(d: Sectors, d': Sectors, k: nat)
    requires DataWrite(d, d', k)
    ensures DiskInv(d') && TableOf(d') == TableOf(d) && MarkedOn(d') == MarkedOn(d)
  {
    hide FileBytes, DecodeHeader, DecodeTable, DecodeMap, MarkedIn, Header.Ok;
    WriteLeaves(d, d', k, 0);
    WriteLeaves(d, d', k, 1);
    var t := TableOf(d);
    assert TableOf(d') == t && MarkedOn(d') == MarkedOn(d);
    forall j | 0 <= j < SLOTS && Used(t, j)
      ensures FileAt(d, Head(t, j)) && FileAt(d', Head(t, j))
      ensures FileSectors(d', Head(t, j)) == FileSectors(d, Head(t, j))
    {
      WriteLeaves(d, d', k, j);
    }
    WriteKeepsOwners(d, d', k);
  }

  lemma WriteKeepsOwners(d: Sectors, d': Sectors, k: nat)
    requires DataWrite(d, d', k) && SlotsOk(d', TableOf(d))
    ensures Disjoint(d', TableOf(d)) && Exact(d', TableOf(d), MarkedOn(d))
  {
    hide FileBytes, DecodeHeader, DecodeTable, DecodeMap, MarkedIn, Header.Ok;
    var t := TableOf(d);
    forall i, j | 0 <= i < j < SLOTS && Used(t, i) && Used(t, j)
      ensures FileSectors(d', Head(t, i)) !! FileSectors(d', Head(t, j))
    {
      WriteLeaves(d, d', k, i);
      WriteLeaves(d, d', k, j);
      SlotsApart(d, i, j);
    }
    forall x ensures x in MarkedOn(d) <==> Owned(d', t, x) {
      forall j | 0 <= j < SLOTS ensures OwnedBy(d, t, x, j) <==> OwnedBy(d', t, x, j) {
        if Used(t, j) {
          WriteLeaves(d, d', k, j);
        }
      }
      assert Owned(d, t, x) <==> Owned(d', t, x);
    }
  }

  /** The two metadata files have no sector in common, and neither holds a header. */
  lemma MetaApart(d: Sectors)
    requires DiskInv(d)
    ensures FileAt(d, FREE_MAP_SECTOR) && FileAt(d, DIRECTORY_SECTOR)
    ensures DataSectors(d, FREE_MAP_SECTOR) !! DataSectors(d, DIRECTORY_SECTOR)
    ensures DataSectors(d, FREE_MAP_SECTOR) <= MarkedOn(d) && DataSectors(d, DIRECTORY_SECTOR) <= MarkedOn(d)
  {
    hide FileBytes, DecodeHeader, DecodeTable, DecodeMap, MarkedIn, Header.Ok;
    SlotFacts(d, 0);
    SlotFacts(d, 1);
    SlotsApart(d, 0, 1);
  }

  /** Create's flush: new header, then directory, then free map. */
  lemma FlushCreate(d: Sectors, d1: Sectors, d2: Sectors, d3: Sectors, s: int, h: Header, t': Table, words': seq<bv32>)
    requires DiskInv(d) && h.Ok() && 0 <= s < NUM_SECTORS && s !in Elements(h.Data()) && s !in MarkedOn(d)
    requires Elements(h.Data()) !! MarkedOn(d) && |words'| == MAP_WORDS
    requires HeaderAt(d, FREE_MAP_SECTOR).Ok() && HeaderAt(d, DIRECTORY_SECTOR).Ok()
    requires d1 == d[s := EncodeHeader(h)]
    requires OnlyData(d1, d2, HeaderAt(d, DIRECTORY_SECTOR))
    requires FileBytes(d2, HeaderAt(d, DIRECTORY_SECTOR)) == EncodeTable(t')
    requires OnlyData(d2, d3, HeaderAt(d, FREE_MAP_SECTOR))
    requires FileBytes(d3, HeaderAt(d, FREE_MAP_SECTOR)) == EncodeMap(words')
    ensures MetaWritten(d, d3, {s} + Elements(h.Data()), t', words') && HeaderAt(d3, s) == h
  {
    hide FileBytes, DecodeHeader, EncodeHeader, DecodeTable, DecodeMap, MarkedIn, Header.Ok;
    MetaApart(d);
    OkFacts(h);
    HeaderRoundTrip(h);
    OnlyDataFrame(d2, d3, HeaderAt(d, FREE_MAP_SECTOR), HeaderAt(d, DIRECTORY_SECTOR));
    assert d1[s] == EncodeHeader(h);
    assert s !in DataSectors(d, DIRECTORY_SECTOR) && s !in DataSectors(d, FREE_MAP_SECTOR);
  }

  lemma OnlyDataFrame(before: Sectors, after: Sectors, h: Header, other: Header)
    requires h.Ok() && other.Ok() && OnlyData(before, after, h)
    requires Elements(h.Data()) !! Elements(other.Data())
    ensures FileBytes(after, other) == FileBytes(before, other)
  {
    hide FileBytes, DecodeHeader, DecodeTable, DecodeMap, MarkedIn, Header.Ok;
    forall s <- other.Data() | 0 <= s < NUM_SECTORS ensures before[s] == after[s] {
      assert s in Elements(other.Data());
    }
    BytesFrame(before, after, other);
  }

  /** Remove's flush: free map, then directory. */
  lemma FlushRemove(d: Sectors, d1: Sectors, d2: Sectors, t': Table, words': seq<bv32>)
    requires DiskInv(d) && |words'| == MAP_WORDS
    requires HeaderAt(d, FREE_MAP_SECTOR).Ok() && HeaderAt(d, DIRECTORY_SECTOR).Ok()
    requires OnlyData(d, d1, HeaderAt(d, FREE_MAP_SECTOR))
    requires FileBytes(d1, HeaderAt(d, FREE_MAP_SECTOR)) == EncodeMap(words')
    requires OnlyData(d1, d2, HeaderAt(d, DIRECTORY_SECTOR))
    requires FileBytes(d2, HeaderAt(d, DIRECTORY_SECTOR)) == EncodeTable(t')
    ensures MetaWritten(d, d2, {}, t', words')
  {
    hide FileBytes, DecodeHeader, DecodeTable, DecodeMap, MarkedIn, Header.Ok;
    MetaApart(d);
    OnlyDataFrame(d1, d2, HeaderAt(d, DIRECTORY_SECTOR), HeaderAt(d, FREE_MAP_SECTOR));
  }

  // ---- the abstract view: a map from names to byte arrays ----

  lemma ListedFile(d: Sectors, key: seq<byte>)
    requires DiskInv(d) && key in Listing(TableOf(d))
    ensures FindIn(TableOf(d), key) < NUM_DIR_ENTRIES
    ensures Names(TableOf(d)[FindIn(TableOf(d), key)], key)
    ensures Used(TableOf(d), FindIn(TableOf(d), key) + 2)
    ensures Head(TableOf(d), FindIn(TableOf(d), key) + 2) == Listing(TableOf(d))[key]
    ensures FileAt(d, Listing(TableOf(d))[key])
  {
    hide FileBytes, DecodeHeader, DecodeTable, DecodeMap, MarkedIn, Header.Ok;
    ListingFind(TableOf(d), key);
    SlotFacts(d, FindIn(TableOf(d), key) + 2);
  }

  ghost function ListedHeader(d: Sectors, key: seq<byte>): (h: Header)
    requires DiskInv(d) && key in Listing(TableOf(d))
    ensures h.Ok()
  {
    ListedFile(d, key);
    HeaderAt(d, Listing(TableOf(d))[key])
  }

  /** The contents of the file listed under a key. */
  ghost function Contents(d: Sectors, key: seq<byte>): seq<byte>
    requires DiskInv(d) && key in Listing(TableOf(d))
  {
    FileBytes(d, ListedHeader(d, key))
  }

  ghost function Files(d: Sectors): (m: map<seq<byte>, seq<byte>>)
    requires DiskInv(d)
    ensures m.Keys == Listing(TableOf(d)).Keys
  {
    map key | key in Listing(TableOf(d)) :: Contents(d, key)
  }

  /** The header and data sectors of the file listed under a key. */
  ghost function ListedSectors(d: Sectors, key: seq<byte>): set<int>
    requires DiskInv(d) && key in Listing(TableOf(d))
  {
    ListedFile(d, key);
    FileSectors(d, Listing(TableOf(d))[key])
  }

  /** The free map marks exactly the sectors of the two metadata files and of every listed file. */
  lemma MarkedMeansOwned(d: Sectors, x: int)
    requires DiskInv(d)
    ensures FileAt(d, FREE_MAP_SECTOR) && FileAt(d, DIRECTORY_SECTOR)
    ensures x in MarkedOn(d) <==>
            || x in FileSectors(d, FREE_MAP_SECTOR) || x in FileSectors(d, DIRECTORY_SECTOR)
            || exists key :: key in Listing(TableOf(d)) && x in ListedSectors(d, key)
  {
    hide FileBytes, DecodeHeader, DecodeTable, DecodeMap, MarkedIn, Header.Ok, Disjoint, FileAt, Key, FileSectors, Listing;
    SlotFacts(d, 0);
    SlotFacts(d, 1);
    if x in MarkedOn(d) {
      var k :| 0 <= k < SLOTS && OwnedBy(d, TableOf(d), x, k);
      if k >= 2 {
        SlotListed(d, x, k);
      }
    }
    forall key | key in Listing(TableOf(d)) && x in ListedSectors(d, key) ensures x in MarkedOn(d) {
      ListedFile(d, key);
      SlotFacts(d, FindIn(TableOf(d), key) + 2);
    }
  }

  lemma SlotListed(d: Sectors, x: int, k: nat)
    requires DiskInv(d) && 2 <= k < SLOTS && OwnedBy(d, TableOf(d), x, k)
    ensures var key := Key(TableOf(d)[k - 2].name); key in Listing(TableOf(d)) && x in ListedSectors(d, key)
  {
    hide FileBytes, DecodeHeader, DecodeTable, DecodeMap, MarkedIn, Header.Ok, Disjoint, Exact, FileAt, Key;
    ListingEntry(TableOf(d), k - 2);
  }

  /** No sector belongs to two files. */
  lemma FilesApart(d: Sectors, key: seq<byte>, other: seq<byte>)
    requires DiskInv(d) && key in Listing(TableOf(d)) && other in Listing(TableOf(d)) && key != other
    ensures FileAt(d, FREE_MAP_SECTOR) && FileAt(d, DIRECTORY_SECTOR)
    ensures FileSectors(d, FREE_MAP_SECTOR) !! FileSectors(d, DIRECTORY_SECTOR)
    ensures ListedSectors(d, key) !! FileSectors(d, FREE_MAP_SECTOR) + FileSectors(d, DIRECTORY_SECTOR)
    ensures ListedSectors(d, key) !! ListedSectors(d, other)
  {
    hide FileBytes, DecodeHeader, DecodeTable, DecodeMap, MarkedIn, Header.Ok, Exact, FileAt, Key;
    ListedFile(d, key);
    ListedFile(d, other);
    SlotsApart(d, 0, 1);
    SlotsApart(d, 0, FindIn(TableOf(d), key) + 2);
    SlotsApart(d, 1, FindIn(TableOf(d), key) + 2);
    SlotsApart(d, FindIn(TableOf(d), key) + 2, FindIn(TableOf(d), other) + 2);
  }

  lemma FilesUpdated(d: Sectors, d': Sectors, key: seq<byte>)
    requires DiskInv(d) && DiskInv(d')
    requires Listing(TableOf(d')).Keys == Listing(TableOf(d)).Keys + {key}
    requires forall k :: k in Listing(TableOf(d)).Keys - {key} ==> Contents(d', k) == Contents(d, k)
    ensures Files(d') == Files(d)[key := Contents(d', key)]
  {
    hide DiskInv, Listing, Contents, TableOf;
    MapUpdated(Files(d), Files(d'), key);
  }

  lemma ContentsAfterCreate(d: Sectors, d': Sectors, s: int, h: Header, i: nat, t': Table, words': seq<bv32>, key: seq<byte>)
    requires Created(d, d', s, h, i, t', words') && DiskInv(d') && TableOf(d') == t'
    requires key in Listing(TableOf(d)) && key in Listing(t') && Listing(t')[key] == Listing(TableOf(d))[key]
    ensures Contents(d', key) == Contents(d, key)
  {
    hide FileBytes, DecodeHeader, DecodeTable, DecodeMap, MarkedIn, Header.Ok;
    ListedFile(d, key);
    ListedFile(d', key);
    ContentsKept(d, d', {s} + Elements(h.Data()), FindIn(TableOf(d), key) + 2);
  }

  lemma OldContents(d: Sectors, d': Sectors, s: int, h: Header, i: nat, t': Table, words': seq<bv32>)
    requires Created(d, d', s, h, i, t', words') && DiskInv(d') && TableOf(d') == t'
    ensures forall k :: k in Listing(TableOf(d)) ==> k in Listing(t') && Contents(d', k) == Contents(d, k)
  {
    hide DecodeHeader, DecodeTable, DecodeMap, FileBytes, Header.Ok, MarkedIn;
    ListingAdd(TableOf(d), t', i);
    forall k | k in Listing(TableOf(d)) ensures k in Listing(t') && Contents(d', k) == Contents(d, k) {
      ContentsAfterCreate(d, d', s, h, i, t', words', k);
    }
  }

  lemma FilesAfterCreate(d: Sectors, d': Sectors, s: int, h: Header, i: nat, t': Table, words': seq<bv32>)
    requires Created(d, d', s, h, i, t', words')
    ensures h.Ok() && i < |t'|
    ensures DiskInv(d') && Files(d') == Files(d)[Key(t'[i].name) := FileBytes(d', h)]
  {
    hide Created, Listing, Contents, TableOf, DistinctNames, Key, MetaOk, SlotsOk, Disjoint, Exact, FileBytes, HeaderAt, Header.Ok;
    CreateKeepsInv(d, d', s, h, i, t', words');
    OldContents(d, d', s, h, i, t', words');
    NewContents(d, d', s, h, i, t', words');
    FilesUpdated(d, d', Key(t'[i].name));
  }

  lemma NewContents(d: Sectors, d': Sectors, s: int, h: Header, i: nat, t': Table, words': seq<bv32>)
    requires Created(d, d', s, h, i, t', words') && DiskInv(d') && TableOf(d') == t'
    ensures DiskInv(d) && h.Ok() && i < |t'| && Listing(t') == Listing(TableOf(d))[Key(t'[i].name) := s]
    ensures Contents(d', Key(t'[i].name)) == FileBytes(d', h)
  {
    hide FileBytes, DecodeHeader, DecodeTable, DecodeMap, MarkedIn, Header.Ok;
    ListingAdd(TableOf(d), t', i);
    ListingEntry(t', i);
  }

  lemma ContentsAfterRemove(d: Sectors, d': Sectors, i: nat, t': Table, words': seq<bv32>, key: seq<byte>)
    requires Removed(d, d', i, t', words') && DiskInv(d') && TableOf(d') == t'
    requires key in Listing(TableOf(d)) && key in Listing(t') && Listing(t')[key] == Listing(TableOf(d))[key]
    ensures Contents(d', key) == Contents(d, key)
  {
    hide FileBytes, DecodeHeader, DecodeTable, DecodeMap, MarkedIn, Header.Ok;
    ListedFile(d, key);
    ListedFile(d', key);
    ContentsKept(d, d', {}, FindIn(TableOf(d), key) + 2);
  }

  lemma FilesAfterRemove(d: Sectors, d': Sectors, i: nat, t': Table, words': seq<bv32>)
    requires Removed(d, d', i, t', words')
    ensures DiskInv(d') && Files(d') == Files(d) - {Key(TableOf(d)[i].name)}
  {
    RemoveKeepsInv(d, d', i, t', words');
    ListingRemove(TableOf(d), t', i);
    hide DiskInv, Listing, Contents, TableOf;
    forall k | k in Files(d') ensures Contents(d', k) == Contents(d, k) {
      ContentsAfterRemove(d, d', i, t', words', k);
    }
    MapWithout(Files(d), Files(d'), Key(TableOf(d)[i].name));
  }

  lemma ContentsAfterWrite(d: Sectors, d': Sectors, k: nat)
    requires DataWrite(d, d', k) && DiskInv(d') && TableOf(d') == TableOf(d)
    ensures forall key :: key in Listing(TableOf(d)) && FindIn(TableOf(d), key) + 2 != k ==>
              Contents(d', key) == Contents(d, key)
  {
    hide DecodeHeader, DecodeTable, DecodeMap, FileBytes, Header.Ok, MarkedIn;
    forall key | key in Listing(TableOf(d)) && FindIn(TableOf(d), key) + 2 != k
      ensures Contents(d', key) == Contents(d, key)
    {
      ListedFile(d, key);
      ListedFile(d', key);
      WriteLeaves(d, d', k, FindIn(TableOf(d), key) + 2);
    }
  }

  lemma FilesAfterWrite(d: Sectors, d': Sectors, key: seq<byte>, k: nat)
    requires DataWrite(d, d', k) && FindIn(TableOf(d), key) + 2 == k
    ensures DiskInv(d') && TableOf(d') == TableOf(d) && MarkedOn(d') == MarkedOn(d)
    ensures key in Listing(TableOf(d)) && Files(d') == Files(d)[key := Contents(d', key)]
  {
    hide DecodeHeader, DecodeTable, DecodeMap, FileBytes, Header.Ok, MarkedIn;
    WriteKeepsInv(d, d', k);
    ContentsAfterWrite(d, d', k);
    ListingFind(TableOf(d), key);
    OthersElsewhere(TableOf(d), key);
    FilesUpdated(d, d', key);
  }

  lemma OthersElsewhere(t: Table, key: seq<byte>)
    requires DistinctNames(t) && key in Listing(t)
    ensures forall k :: k in Listing(t).Keys - {key} ==> FindIn(t, k) != FindIn(t, key)
  {
    hide FileBytes, DecodeHeader, DecodeTable, DecodeMap, MarkedIn, Header.Ok;
    forall k | k in Listing(t).Keys - {key} ensures FindIn(t, k) != FindIn(t, key) {
      ListingFind(t, k);
      ListingFind(t, key);
    }
  }

  // ---- formatting ----

  /** The two headers, the empty table and the free map that formatting prepares. */
  ghost predicate Blank(mapHdr: Header, dirHdr: Header, t: Table, words: seq<bv32>) {
    && mapHdr.Ok() && mapHdr.numBytes == FREE_MAP_FILE_SIZE && dirHdr.Ok() && dirHdr.numBytes == DIRECTORY_FILE_SIZE
    && (forall i :: 0 <= i < NUM_DIR_ENTRIES ==> !t[i].inUse)
    && Elements(mapHdr.Data()) !! Elements(dirHdr.Data())
    && {FREE_MAP_SECTOR, DIRECTORY_SECTOR} !! Elements(mapHdr.Data()) + Elements(dirHdr.Data())
    && |words| == MAP_WORDS
    && MarkedIn(words, NUM_SECTORS) == {FREE_MAP_SECTOR, DIRECTORY_SECTOR} + Elements(mapHdr.Data()) + Elements(dirHdr.Data())
  }

  lemma FormatFlush(d: Sectors, d1: Sectors, d2: Sectors, d3: Sectors, mapHdr: Header, dirHdr: Header, t: Table, words: seq<bv32>)
    requires Blank(mapHdr, dirHdr, t, words)
    requires d1 == d[FREE_MAP_SECTOR := EncodeHeader(mapHdr)][DIRECTORY_SECTOR := EncodeHeader(dirHdr)]
    requires OnlyData(d1, d2, mapHdr) && FileBytes(d2, mapHdr) == EncodeMap(words)
    requires OnlyData(d2, d3, dirHdr) && FileBytes(d3, dirHdr) == EncodeTable(t)
    ensures MetaOk(d3) && TableOf(d3) == t && WordsOf(d3) == words
    ensures HeaderAt(d3, FREE_MAP_SECTOR) == mapHdr && HeaderAt(d3, DIRECTORY_SECTOR) == dirHdr
  {
    OkFacts(mapHdr);
    OkFacts(dirHdr);
    HeaderRoundTrip(mapHdr);
    HeaderRoundTrip(dirHdr);
    TableRoundTrip(t);
    MapRoundTrip(words);
    hide FileBytes, DecodeHeader, EncodeHeader, DecodeTable, DecodeMap, MarkedIn, Header.Ok;
    OnlyDataFrame(d2, d3, dirHdr, mapHdr);
    assert d1[FREE_MAP_SECTOR] == EncodeHeader(mapHdr) && d1[DIRECTORY_SECTOR] == EncodeHeader(dirHdr);
    assert FREE_MAP_SECTOR !in Elements(mapHdr.Data()) && FREE_MAP_SECTOR !in Elements(dirHdr.Data());
    assert DIRECTORY_SECTOR !in Elements(mapHdr.Data()) && DIRECTORY_SECTOR !in Elements(dirHdr.Data());
  }

  lemma FormattedInv(d: Sectors, mapHdr: Header, dirHdr: Header, t: Table, words: seq<bv32>)
    requires Blank(mapHdr, dirHdr, t, words)
    requires MetaOk(d) && TableOf(d) == t && WordsOf(d) == words
    requires HeaderAt(d, FREE_MAP_SECTOR) == mapHdr && HeaderAt(d, DIRECTORY_SECTOR) == dirHdr
    ensures DiskInv(d) && Files(d) == map[] && |MarkedOn(d)| == 5
  {
    hide FileBytes, DecodeHeader, DecodeTable, DecodeMap, MarkedIn, Header.Ok, Disjoint, Exact, SlotsOk;
    FormattedExact(d, mapHdr, dirHdr, t, words);
    NothingListed(d, t);
    FormatSize(mapHdr, dirHdr, MarkedIn(words, NUM_SECTORS));
  }

  lemma NothingListed(d: Sectors, t: Table)
    requires forall i :: 0 <= i < NUM_DIR_ENTRIES ==> !t[i].inUse
    ensures DistinctNames(t) && Listing(t) == map[]
    ensures DiskInv(d) && TableOf(d) == t ==> Files(d) == map[]
  {
    hide FileBytes, DecodeHeader, DecodeTable, DecodeMap, MarkedIn, Header.Ok, Disjoint, Exact, SlotsOk;
    assert Listing(t) == map[];
  }

  lemma FormattedExact(d: Sectors, mapHdr: Header, dirHdr: Header, t: Table, words: seq<bv32>)
    requires Blank(mapHdr, dirHdr, t, words)
    requires HeaderAt(d, FREE_MAP_SECTOR) == mapHdr && HeaderAt(d, DIRECTORY_SECTOR) == dirHdr
    ensures SlotsOk(d, t) && Disjoint(d, t) && Exact(d, t, MarkedIn(words, NUM_SECTORS))
  {
    hide FileBytes, DecodeHeader, EncodeHeader, DecodeTable, DecodeMap, MarkedIn, Header.Ok;
    forall x ensures x in MarkedIn(words, NUM_SECTORS) <==> Owned(d, t, x) {
      if x in FileSectors(d, 0) { assert OwnedBy(d, t, x, 0); }
      if x in FileSectors(d, 1) { assert OwnedBy(d, t, x, 1); }
    }
  }

  lemma FormatSize(mapHdr: Header, dirHdr: Header, marked: set<int>)
    requires mapHdr.Ok() && mapHdr.numBytes == FREE_MAP_FILE_SIZE && dirHdr.Ok() && dirHdr.numBytes == DIRECTORY_FILE_SIZE
    requires Elements(mapHdr.Data()) !! Elements(dirHdr.Data())
    requires {FREE_MAP_SECTOR, DIRECTORY_SECTOR} !! Elements(mapHdr.Data()) + Elements(dirHdr.Data())
    requires marked == {FREE_MAP_SECTOR, DIRECTORY_SECTOR} + Elements(mapHdr.Data()) + Elements(dirHdr.Data())
    ensures |marked| == 5
  {
    hide Header.Ok, Elements, Header.Data;
    MetaSize(mapHdr);
    MetaSize(dirHdr);
    var meta := {FREE_MAP_SECTOR, DIRECTORY_SECTOR};
    assert |meta| == 2;
    assert |meta + Elements(mapHdr.Data())| == |meta| + |Elements(mapHdr.Data())|;
    assert |meta + Elements(mapHdr.Data()) + Elements(dirHdr.Data())| == |meta + Elements(mapHdr.Data())| + |Elements(dirHdr.Data())|;
  }

  lemma MetaSize(h: Header)
    requires h.Ok() && (h.numBytes == FREE_MAP_FILE_SIZE || h.numBytes == DIRECTORY_FILE_SIZE)
    ensures |Elements(h.Data())| == if h.numBytes == FREE_MAP_FILE_SIZE then 1 else 2
  {
    ElementsSize(h.Data());
  }
}
