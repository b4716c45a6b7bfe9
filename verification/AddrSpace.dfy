/** userprog/addrspace.cc: address spaces own the page frames they map. Frames are handed out by a bitmap when
    a program is loaded and given back when its space is destroyed. */
module AddrSpaces {
  import opened Layout
  import opened Multiplication
  import opened Bitmaps
  import opened Translation

  const USER_STACK_SIZE: nat := 1024

  // ---- who owns which frame ----

  type PageTable = seq<Entry>

  /** A page table as Load leaves it: page i in entry i, every entry valid and writable, frames that exist. */
  ghost predicate TableOk(table: PageTable) {
    forall i :: 0 <= i < |table| ==>
      table[i].valid && !table[i].readOnly && table[i].virtualPage == i && 0 <= table[i].physicalPage < NUM_PHYS_PAGES
  }

  ghost predicate OneFrameEach(table: PageTable) {
    forall i, j :: 0 <= i < j < |table| ==> table[i].physicalPage != table[j].physicalPage
  }

  ghost function Frames(table: PageTable): set<int> {
    set i | 0 <= i < |table| :: table[i].physicalPage
  }

  /** Live spaces, by number, own disjoint sets of frames, and exactly those are marked. */
  ghost predicate Owned(tables: map<nat, PageTable>, marked: set<int>) {
    && (forall s <- tables :: TableOk(tables[s]) && OneFrameEach(tables[s]))
    && (forall s, t :: s in tables && t in tables && s != t ==> Frames(tables[s]) !! Frames(tables[t]))
    && (forall f :: f in marked <==> exists s :: s in tables && f in Frames(tables[s]))
  }

  lemma LoadKeepsOwned(tables: map<nat, PageTable>, marked: set<int>, s: nat, table: PageTable)
    requires Owned(tables, marked) && s !in tables && TableOk(table) && OneFrameEach(table) && Frames(table) !! marked
    ensures Owned(tables[s := table], marked + Frames(table))
  {
    hide Frames, TableOk, OneFrameEach;
    var tables' := tables[s := table];
    forall f ensures f in marked + Frames(table) <==> exists t :: t in tables' && f in Frames(tables'[t]) {
      if f in Frames(table) {
        assert s in tables' && f in Frames(tables'[s]);
      } else if f in marked {
        var t :| t in tables && f in Frames(tables[t]);
        assert t in tables' && f in Frames(tables'[t]);
      }
    }
    forall t | t in tables ensures Frames(tables[t]) !! Frames(table) {
      forall f | f in Frames(tables[t]) ensures f !in Frames(table) {
        assert f in marked;
      }
    }
  }

  lemma DestroyKeepsOwned(tables: map<nat, PageTable>, marked: set<int>, s: nat)
    requires Owned(tables, marked) && s in tables
    ensures Owned(tables - {s}, marked - Frames(tables[s])) && Frames(tables[s]) <= marked
  {
    hide Frames, TableOk, OneFrameEach;
    var tables' := tables - {s};
    forall f | f in Frames(tables[s]) ensures f in marked {
      assert s in tables && f in Frames(tables[s]);
    }
    forall f ensures f in marked - Frames(tables[s]) <==> exists t :: t in tables' && f in Frames(tables'[t]) {
      if f in marked - Frames(tables[s]) {
        var t :| t in tables && f in Frames(tables[t]);
        assert t in tables' && f in Frames(tables'[t]);
      }
    }
  }

  // ---- translation ----

  /** AddrSpace::Translate, without the use and dirty bits. */
  function SpaceTranslate(table: PageTable, vaddr: nat, writing: bool): (p: Place)
    ensures p.Fault? ==> p.which != NoException
    ensures p.At? ==> p.entry < |table|
  {
    var vpn := vaddr / PAGE_SIZE;
    if vpn >= |table| then Fault(AddressErrorException)
    else if writing && table[vpn].readOnly then Fault(ReadOnlyException)
    else if table[vpn].physicalPage >= NUM_PHYS_PAGES || table[vpn].physicalPage < 0 then Fault(BusErrorException)
    else At(vpn, table[vpn].physicalPage * PAGE_SIZE + vaddr % PAGE_SIZE)
  }

  /** The kernel's translation and the machine's agree wherever the entry is valid, which is the one thing that the
      kernel does not look at: so on all tables that Load makes. */
  lemma TranslationsAgree(table: PageTable, addr: CInt, writing: bool)
    requires PageOf(addr) < |table| ==> table[PageOf(addr)].valid
    ensures SpaceTranslate(table, Unsigned(addr), writing) == Locate(table, false, addr, 1, writing)
  {
  }

  /** Within its size, a space translates every address, into one of its own frames. */
  lemma TranslatesOwnPages(table: PageTable, vaddr: nat, writing: bool)
    requires TableOk(table)
    ensures SpaceTranslate(table, vaddr, writing).At? <==> vaddr < |table| * PAGE_SIZE
    ensures vaddr < |table| * PAGE_SIZE ==>
              var p := SpaceTranslate(table, vaddr, writing).address;
              && p < MEMORY_SIZE && p / PAGE_SIZE in Frames(table) && p % PAGE_SIZE == vaddr % PAGE_SIZE
              && p / PAGE_SIZE == table[vaddr / PAGE_SIZE].physicalPage
  {
    DivMod(vaddr, PAGE_SIZE);
    if vaddr < |table| * PAGE_SIZE {
      var frame := table[vaddr / PAGE_SIZE].physicalPage;
      DivModUnique(frame * PAGE_SIZE + vaddr % PAGE_SIZE, PAGE_SIZE, frame, vaddr % PAGE_SIZE);
    }
  }

  /** Memory isolation: two different (space, address) pairs never meet in physical memory. */
  lemma Isolation(tables: map<nat, PageTable>, marked: set<int>, s: nat, a: nat, t: nat, b: nat, writing: bool, writing': bool)
    requires Owned(tables, marked) && s in tables && t in tables && (s != t || a != b)
    requires SpaceTranslate(tables[s], a, writing).At? && SpaceTranslate(tables[t], b, writing').At?
    ensures SpaceTranslate(tables[s], a, writing).address != SpaceTranslate(tables[t], b, writing').address
  {
    hide TableOk, OneFrameEach, Frames, SpaceTranslate;
    TranslatesOwnPages(tables[s], a, writing);
    TranslatesOwnPages(tables[t], b, writing');
    if s == t {
      SameSpace(tables[s], a, b, writing, writing');
    }
  }

  lemma SameSpace(table: PageTable, a: nat, b: nat, writing: bool, writing': bool)
    requires TableOk(table) && OneFrameEach(table) && a != b && a < |table| * PAGE_SIZE && b < |table| * PAGE_SIZE
    ensures SpaceTranslate(table, a, writing).At? && SpaceTranslate(table, b, writing').At?
    ensures SpaceTranslate(table, a, writing).address != SpaceTranslate(table, b, writing').address
  {
    TranslatesOwnPages(table, a, writing);
    TranslatesOwnPages(table, b, writing');
    var p, q := SpaceTranslate(table, a, writing).address, SpaceTranslate(table, b, writing').address;
    DivMod(a, PAGE_SIZE);
    DivMod(b, PAGE_SIZE);
    if a / PAGE_SIZE != b / PAGE_SIZE {
      assert table[a / PAGE_SIZE].physicalPage != table[b / PAGE_SIZE].physicalPage;
    }
  }

  // ---- the object ----

  /** The first i frames have been taken out of the map. */
  ghost predicate Mapped(table: PageTable, i: nat, before: set<int>, now: set<int>) {
    && i == |table| && TableOk(table) && OneFrameEach(table) && Frames(table) !! before && now == before + Frames(table)
  }

  lemma MapOne(table: PageTable, e: Entry, before: set<int>, now: set<int>)
    requires Mapped(table, |table|, before, now)
    requires e.valid && !e.readOnly && e.virtualPage == |table| && 0 <= e.physicalPage < NUM_PHYS_PAGES && e.physicalPage !in now
    ensures Mapped(table + [e], |table| + 1, before, now + {e.physicalPage})
  {
    FramesGrow(table, e);
    forall i | 0 <= i < |table| ensures table[i].physicalPage != e.physicalPage {
      assert table[i].physicalPage in Frames(table);
    }
  }

  lemma FramesGrow(table: PageTable, e: Entry)
    ensures Frames(table + [e]) == Frames(table) + {e.physicalPage}
  {
    var t := table + [e];
    assert t[|table|] == e;
    assert forall i :: 0 <= i < |table| ==> t[i] == table[i];
  }

  /** Pages needed for a program. */
  function PagesFor(codeSize: nat, initSize: nat, uninitSize: nat): nat {
    DivRoundUp(codeSize + initSize + uninitSize + USER_STACK_SIZE, PAGE_SIZE)
  }

  /** The pages cover code, data and 1024 bytes of stack, with less than a page to spare. */
  lemma PagesCover(codeSize: nat, initSize: nat, uninitSize: nat)
    ensures var size := codeSize + initSize + uninitSize + 1024;
            size <= PagesFor(codeSize, initSize, uninitSize) * PAGE_SIZE < size + PAGE_SIZE
  {
    hide DivRoundUp;
    RoundedUp(codeSize + initSize + uninitSize + 1024, PAGE_SIZE);
  }

  class AddrSpace {
    var pageTable: PageTable // its length is numPages

    constructor ()
      ensures pageTable == []
    {
      pageTable := [];
    }

    /** The part of Load that gives the program its frames. A program larger than memory fails an ASSERT. */
    method Load(frames: Bitmap, codeSize: nat, initSize: nat, uninitSize: nat) returns (ok: bool)
      requires pageTable == [] && frames.Valid() && frames.numBits == NUM_PHYS_PAGES
      requires PagesFor(codeSize, initSize, uninitSize) <= NUM_PHYS_PAGES
      modifies this, frames.words
      ensures ok <==> PagesFor(codeSize, initSize, uninitSize) <= NUM_PHYS_PAGES - |old(frames.Marked())|
      ensures !ok ==> pageTable == [] && frames.Marked() == old(frames.Marked())
      ensures ok ==> |pageTable| == PagesFor(codeSize, initSize, uninitSize)
                     && Mapped(pageTable, |pageTable|, old(frames.Marked()), frames.Marked())
    {
      hide MarkedIn, DivRoundUp, Mapped;
      var numPages := PagesFor(codeSize, initSize, uninitSize);
      var clear := frames.NumClear();
      if numPages > clear {
        return false;
      }
      ghost var before := frames.Marked();
      NothingMapped(before);
      for i := 0 to numPages
        invariant |pageTable| == i && Mapped(pageTable, i, before, frames.Marked())
        invariant |frames.Marked()| == |before| + i
      {
        var frame := TakeClear(frames);
        assert frame != -1;
        var e := Entry(i, frame, true, false, false, false);
        MapOne(pageTable, e, before, frames.Marked() - {frame});
        assert frames.Marked() - {frame} + {frame} == frames.Marked();
        pageTable := pageTable + [e];
      }
      ok := true;
    }

    /** The destructor gives the frames back. */
    method Destroy(frames: Bitmap)
      requires frames.Valid() && frames.numBits == NUM_PHYS_PAGES && TableOk(pageTable)
      modifies frames.words
      ensures frames.Marked() == old(frames.Marked()) - Frames(pageTable)
    {
      hide MarkedIn;
      ghost var before := frames.Marked();
      for i := 0 to |pageTable|
        invariant frames.Marked() == before - Frames(pageTable[..i])
      {
        frames.Clear(pageTable[i].physicalPage);
        FramesGrow(pageTable[..i], pageTable[i]);
        assert pageTable[..i + 1] == pageTable[..i] + [pageTable[i]];
      }
      assert pageTable[..|pageTable|] == pageTable;
    }

    /** No page table holds a negative frame number: Load only stores what FindAndSet has found. */
    method Translate(vaddr: nat, isReadWrite: bool) returns (ex: Exception, paddr: nat)
      requires forall e <- pageTable :: e.physicalPage >= 0
      modifies this
      ensures SameMapping(old(pageTable), pageTable)
      ensures var p := SpaceTranslate(old(pageTable), vaddr, isReadWrite);
              && ex == (if p.Fault? then p.which else NoException)
              && (p.Fault? ==> pageTable == old(pageTable))
              && (p.At? ==> paddr == p.address < MEMORY_SIZE && pageTable == Touched(old(pageTable), p.entry, isReadWrite))
    {
      var vpn, offset := vaddr / PAGE_SIZE, vaddr % PAGE_SIZE;
      paddr := 0;
      if vpn >= |pageTable| {
        return AddressErrorException, 0;
      }
      var pte := pageTable[vpn];
      if isReadWrite && pte.readOnly {
        return ReadOnlyException, 0;
      }
      if pte.physicalPage >= NUM_PHYS_PAGES {
        return BusErrorException, 0;
      }
      pte := pte.(use := true);
      if isReadWrite {
        pte := pte.(dirty := true);
      }
      pageTable := pageTable[vpn := pte];
      paddr := pte.physicalPage * PAGE_SIZE + offset;
      assert paddr < MEMORY_SIZE;
      ex := NoException;
    }
  }

  lemma NothingMapped(before: set<int>)
    ensures Mapped([], 0, before, before)
  {
  }

  // ---- any sequence of programs loaded and destroyed ----

  datatype Op = Start(codeSize: nat, initSize: nat, uninitSize: nat) | Exit(space: nat)

  class Kernel {
    const physPageBitMap: Bitmap
    var spaces: map<nat, AddrSpace> // live spaces
    var nextSpace: nat

    ghost function Tables(): map<nat, PageTable>
      reads this, spaces.Values
    {
      map s | s in spaces :: spaces[s].pageTable
    }

    /** Frames and spaces agree. */
    ghost predicate Valid()
      reads this, spaces.Values, physPageBitMap, physPageBitMap.words
    {
      && physPageBitMap.Valid() && physPageBitMap.numBits == NUM_PHYS_PAGES
      && (forall s <- spaces :: s < nextSpace)
      && (forall s, t :: s in spaces && t in spaces && s != t ==> spaces[s] != spaces[t])
      && Owned(Tables(), physPageBitMap.Marked())
    }

    constructor ()
      ensures Valid() && spaces == map[] && fresh(physPageBitMap) && fresh(physPageBitMap.words)
    {
      physPageBitMap := new Bitmap(NUM_PHYS_PAGES);
      spaces := map[];
      nextSpace := 0;
    }

    /** A program that fits gets a space of its own; one that does not changes nothing. */
    method StartProgram(codeSize: nat, initSize: nat, uninitSize: nat) returns (ok: bool)
      requires Valid() && PagesFor(codeSize, initSize, uninitSize) <= NUM_PHYS_PAGES
      modifies this, physPageBitMap.words
      ensures Valid()
      ensures ok <==> PagesFor(codeSize, initSize, uninitSize) <= NUM_PHYS_PAGES - |old(physPageBitMap.Marked())|
      ensures !ok ==> Tables() == old(Tables()) && physPageBitMap.Marked() == old(physPageBitMap.Marked())
      ensures ok ==> exists table :: |table| == PagesFor(codeSize, initSize, uninitSize) && Tables() == old(Tables())[old(nextSpace) := table]
      ensures forall s <- spaces :: (s in old(spaces) && spaces[s] == old(spaces)[s]) || fresh(spaces[s])
    {
      hide MarkedIn, DivRoundUp, Owned, TableOk, OneFrameEach, Frames, PagesFor;
      ghost var tables, marked := Tables(), physPageBitMap.Marked();
      var space := new AddrSpace();
      ok := space.Load(physPageBitMap, codeSize, initSize, uninitSize);
      if ok {
        LoadKeepsOwned(tables, marked, nextSpace, space.pageTable);
        spaces := spaces[nextSpace := space];
        nextSpace := nextSpace + 1;
        assert Tables() == tables[old(nextSpace) := space.pageTable];
      } else {
        assert Tables() == tables;
      }
    }

    /** A space that goes gives back exactly its frames. */
    method DestroySpace(s: nat)
      requires Valid() && s in spaces
      modifies this, physPageBitMap.words
      ensures Valid() && Tables() == old(Tables()) - {s}
      ensures physPageBitMap.Marked() == old(physPageBitMap.Marked()) - Frames(old(Tables())[s])
      ensures forall t <- spaces :: t in old(spaces) && spaces[t] == old(spaces)[t]
    {
      hide MarkedIn, TableOk, OneFrameEach, Frames;
      ghost var tables, marked := Tables(), physPageBitMap.Marked();
      DestroyKeepsOwned(tables, marked, s);
      assert tables[s] == spaces[s].pageTable;
      spaces[s].Destroy(physPageBitMap);
      spaces := spaces - {s};
      assert Tables() == tables - {s};
    }

    /** Whatever is started and destroyed, in whatever order, frames stay owned as they should. */
    method Execute(ops: seq<Op>)
      requires Valid()
      modifies this, physPageBitMap.words
      ensures Valid()
    {
      hide MarkedIn, DivRoundUp, Owned;
      for i := 0 to |ops|
        invariant Valid()
      {
        match ops[i]
        case Start(c, n, u) =>
          if PagesFor(c, n, u) <= NUM_PHYS_PAGES {
            var _ := StartProgram(c, n, u);
          }
        case Exit(s) =>
          if s in spaces {
            DestroySpace(s);
          }
      }
    }
  }
}
