/** machine/translate.cc: virtual addresses through a linear page table or a TLB, and access to the
    simulated memory. */
module Translation {
  import opened Layout
  import opened Multiplication

  const PAGE_SIZE: nat := 128
  const NUM_PHYS_PAGES: nat := 128
  const MEMORY_SIZE: nat := NUM_PHYS_PAGES * PAGE_SIZE

  datatype Exception =
    | NoException | SyscallException | PageFaultException | ReadOnlyException | BusErrorException
    | AddressErrorException | OverflowException | IllegalInstrException

  datatype Entry = Entry(virtualPage: int, physicalPage: int, valid: bool, readOnly: bool, use: bool, dirty: bool)

  type Memory = m: seq<byte> | |m| == MEMORY_SIZE witness seq(MEMORY_SIZE, _ => 0)

  /** The index of the entry that maps a page: the page itself in a page table, the first valid match in a TLB. */
  function TlbIndex(tlb: seq<Entry>, vpn: nat): (i: nat)
    ensures i <= |tlb|
    ensures i < |tlb| ==> tlb[i].valid && tlb[i].virtualPage == vpn
    ensures forall j :: 0 <= j < i ==> !(tlb[j].valid && tlb[j].virtualPage == vpn)
  {
    if tlb == [] || (tlb[0].valid && tlb[0].virtualPage == vpn) then 0 else TlbIndex(tlb[1..], vpn) + 1
  }

  function PageOf(addr: CInt): nat {
    Unsigned(addr) / PAGE_SIZE
  }

  datatype Place = Fault(which: Exception) | At(entry: nat, address: nat)

  predicate Aligned(addr: CInt, size: nat) {
    (size == 4 ==> addr % 4 == 0) && (size == 2 ==> addr % 2 == 0)
  }

  function Offset(addr: CInt): (o: nat)
    ensures o < PAGE_SIZE
  {
    Unsigned(addr) % PAGE_SIZE
  }

  /** An aligned access stays within its page. */
  lemma OffsetFits(addr: CInt, size: nat)
    requires Aligned(addr, size) && (size == 1 || size == 2 || size == 4)
    ensures Offset(addr) + size <= PAGE_SIZE
  {
    SameRemainder(addr);
    var u := Unsigned(addr);
    if size == 4 {
      InPage(u / 4, 4, u / PAGE_SIZE, Offset(addr));
    } else if size == 2 {
      InPage(u / 2, 2, u / PAGE_SIZE, Offset(addr));
    }
  }

  lemma SameRemainder(n: CInt)
    ensures Unsigned(n) % 4 == n % 4 && Unsigned(n) % 2 == n % 2
  {
    var up := if n < 0 then 1 else 0;
    assert Unsigned(n) == n + up * WORD_LIMIT;
    DivModUnique(n + up * WORD_LIMIT, 4, n / 4 + up * 0x4000_0000, n % 4);
    DivModUnique(n + up * WORD_LIMIT, 2, n / 2 + up * 0x8000_0000, n % 2);
  }

  lemma InPage(m: nat, size: nat, q: nat, o: nat)
    requires (size == 2 || size == 4) && m * size == PAGE_SIZE * q + o && o < PAGE_SIZE
    ensures o + size <= PAGE_SIZE
  {
    if size == 4 {
      assert o == 4 * (m - 32 * q);
    } else {
      assert o == 2 * (m - 64 * q);
    }
  }

  /** Where an access goes, or the exception it causes. */
  function Locate(entries: seq<Entry>, tlb: bool, addr: CInt, size: nat, writing: bool): (p: Place)
    requires size == 1 || size == 2 || size == 4
    ensures p.Fault? ==> p.which != NoException
    ensures p.At? ==> p.entry < |entries| && p.address + size <= MEMORY_SIZE
  {
    var i := if tlb then TlbIndex(entries, PageOf(addr)) else PageOf(addr);
    if !Aligned(addr, size) then Fault(AddressErrorException)
    else if i >= |entries| then Fault(if tlb then PageFaultException else AddressErrorException)
    else if !entries[i].valid then Fault(PageFaultException)
    else if entries[i].readOnly && writing then Fault(ReadOnlyException)
    else if entries[i].physicalPage < 0 || entries[i].physicalPage >= NUM_PHYS_PAGES then Fault(BusErrorException)
    else
      OffsetFits(addr, size);
      At(i, entries[i].physicalPage * PAGE_SIZE + Offset(addr))
  }

  /** The use and dirty bits after an access through entry i. */
  function Touched(entries: seq<Entry>, i: nat, writing: bool): (after: seq<Entry>)
    requires i < |entries|
    ensures |after| == |entries|
  {
    entries[i := entries[i].(use := true, dirty := entries[i].dirty || writing)]
  }

  /** The two tables map addresses alike. */
  predicate SameMapping(a: seq<Entry>, b: seq<Entry>) {
    |a| == |b| && forall i :: 0 <= i < |a| ==>
      a[i].virtualPage == b[i].virtualPage && a[i].physicalPage == b[i].physicalPage && a[i].valid == b[i].valid && a[i].readOnly == b[i].readOnly
  }

  lemma {:induction false} SameTlbIndex(a: seq<Entry>, b: seq<Entry>, vpn: nat)
    requires SameMapping(a, b)
    ensures TlbIndex(a, vpn) == TlbIndex(b, vpn)
  {
    if a != [] {
      SameTlbIndex(a[1..], b[1..], vpn);
    }
  }

  /** Accesses do not change where later accesses go. */
  lemma MapsAlike(a: seq<Entry>, b: seq<Entry>, tlb: bool, addr: CInt, size: nat, writing: bool)
    requires SameMapping(a, b) && (size == 1 || size == 2 || size == 4)
    ensures Locate(a, tlb, addr, size, writing) == Locate(b, tlb, addr, size, writing)
  {
    SameTlbIndex(a, b, PageOf(addr));
  }

  lemma NextByte(addr: CInt, k: nat, size: nat)
    requires (size == 2 || size == 4) && k < size && addr + k < INT_LIMIT && Aligned(addr, size)
    ensures PageOf(addr + k) == PageOf(addr) && Offset(addr + k) == Offset(addr) + k
  {
    hide Unsigned, Aligned;
    OffsetFits(addr, size);
    NextUnsigned(addr, k, size);
    StaysInPage(Unsigned(addr), k);
  }

  /** An aligned access does not go on from the last address to the first. */
  lemma NextUnsigned(addr: CInt, k: nat, size: nat)
    requires (size == 2 || size == 4) && k < size && addr + k < INT_LIMIT && Aligned(addr, size)
    ensures Unsigned(addr + k) == Unsigned(addr) + k
  {
    UnsignedSign(addr);
    UnsignedSign(addr + k);
    if addr < 0 {
      assert addr % size == 0;
      BelowZero(addr, size);
    }
  }

  lemma BelowZero(n: int, size: nat)
    requires n < 0 && (size == 2 || size == 4) && n % size == 0
    ensures n + size <= 0
  {
    assert n == size * (n / size);
  }

  lemma StaysInPage(u: nat, k: nat)
    requires u % PAGE_SIZE + k < PAGE_SIZE
    ensures (u + k) / PAGE_SIZE == u / PAGE_SIZE && (u + k) % PAGE_SIZE == u % PAGE_SIZE + k
  {
    assert u == PAGE_SIZE * (u / PAGE_SIZE) + u % PAGE_SIZE;
    DivModUnique(u + k, PAGE_SIZE, u / PAGE_SIZE, u % PAGE_SIZE + k);
  }

  /** The bytes of one aligned word, or of less, lie in one page: they are found at consecutive addresses. */
  lemma SamePage(entries: seq<Entry>, tlb: bool, addr: CInt, k: nat, size: nat, writing: bool)
    requires (size == 2 || size == 4) && k < size && addr + k < INT_LIMIT
    requires Locate(entries, tlb, addr, size, writing).At?
    ensures Locate(entries, tlb, addr + k, 1, writing).At?
    ensures Locate(entries, tlb, addr + k, 1, writing).address == Locate(entries, tlb, addr, size, writing).address + k
  {
    NextByte(addr, k, size);
    hide Offset, PageOf, Unsigned;
  }

  // ---- contents ----

  /** What ReadMem delivers: a char is signed, a short is not, a word is what it is. */
  function ReadValue(mem: Memory, at: nat, size: nat): CInt
    requires (size == 1 || size == 2 || size == 4) && at + size <= MEMORY_SIZE
  {
    if size == 1 then (if mem[at] < 128 then mem[at] as int else mem[at] as int - 256)
    else if size == 2 then mem[at] as int + 256 * mem[at + 1] as int
    else DecodeInt(mem[at..at + 4])
  }

  /** Memory after WriteMem of the low bytes of a value. */
  function WriteValue(mem: Memory, at: nat, size: nat, value: CInt): (after: Memory)
    requires (size == 1 || size == 2 || size == 4) && at + size <= MEMORY_SIZE
    ensures after[at..at + size] == EncodeInt(value)[..size]
    ensures forall k :: 0 <= k < MEMORY_SIZE && !(at <= k < at + size) ==> after[k] == mem[k]
  {
    mem[..at] + EncodeInt(value)[..size] + mem[at + size..]
  }

  lemma WriteReadWord(mem: Memory, at: nat, value: CInt)
    requires at + 4 <= MEMORY_SIZE
    ensures ReadValue(WriteValue(mem, at, 4, value), at, 4) == value
  {
    IntRoundTrip(value);
    assert EncodeInt(value)[..4] == EncodeInt(value);
  }
}
