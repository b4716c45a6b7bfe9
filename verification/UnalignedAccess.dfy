/** machine/mipssim.cc, LWL, LWR, SWL and SWR: what the pairs do to the bytes at an address that need not be
    aligned, and what any trap leaves unchanged. */
module UnalignedAccess {
  import opened Layout
  import opened Multiplication
  import opened Translation
  import opened Instructions
  import opened Operations
  import opened Machines

  // ---- words as their bytes ----

  function Combine(b0: nat, b1: nat, b2: nat, b3: nat): nat {
    b0 + P8 * b1 + P16 * b2 + P24 * b3
  }

  /** A word whose unsigned value has these digits is made of these bytes. */
  lemma EncodeDigits(n: CInt, b0: byte, b1: byte, b2: byte, b3: byte)
    requires Unsigned(n) == Combine(b0 as int, b1 as int, b2 as int, b3 as int)
    ensures EncodeInt(n) == [b0, b1, b2, b3]
  {
    var u, r1, r2 := Unsigned(n), b1 as int + 256 * (b2 as int + 256 * b3 as int), b2 as int + 256 * b3 as int;
    assert u == b0 as int + 256 * r1 && r1 == b1 as int + 256 * r2;
    assert u / 256 == r1 && r1 / 256 == r2 && r2 / 256 == b3 as int;
  }

  lemma EncodedDigits(n: CInt)
    ensures var e := EncodeInt(n);
            Unsigned(n) == Combine(e[0] as int, e[1] as int, e[2] as int, e[3] as int)
  {
    Digits(Unsigned(n));
  }

  lemma BytesRoundTrip(b: seq<byte>)
    requires |b| == 4
    ensures EncodeInt(DecodeInt(b)) == b
  {
    EncodeDigits(DecodeInt(b), b[0], b[1], b[2], b[3]);
  }

  lemma WrapDigits(n: nat, b0: byte, b1: byte, b2: byte, b3: byte, lost: nat)
    requires n == Combine(b0 as int, b1 as int, b2 as int, b3 as int) + WORD_LIMIT * lost
    ensures EncodeInt(Wrap(n)) == [b0, b1, b2, b3]
  {
    hide EncodeInt, Wrap;
    var c := Combine(b0 as int, b1 as int, b2 as int, b3 as int);
    DivModUnique(n, WORD_LIMIT, lost, c);
    WrapUnsigned(n);
    EncodeDigits(Wrap(n), b0, b1, b2, b3);
  }

  /** Pieces of a number given by its digits. */
  lemma Pieces(u: nat, b0: byte, b1: byte, b2: byte, b3: byte)
    requires u == Combine(b0 as int, b1 as int, b2 as int, b3 as int)
    ensures u % P8 == b0 as int && u / P8 == b1 as int + P8 * b2 as int + P16 * b3 as int
    ensures u % P16 == b0 as int + P8 * b1 as int && u / P16 == b2 as int + P8 * b3 as int
    ensures u % P24 == b0 as int + P8 * b1 as int + P16 * b2 as int && u / P24 == b3 as int
  {
  }

  /** The low bytes of one word under the low bytes of another, moved up. */
  lemma Stacked(low: CInt, high: CInt, keep: nat)
    requires 1 <= keep <= 3
    ensures var size := if keep == 1 then P8 else if keep == 2 then P16 else P24;
            EncodeInt(Wrap(Unsigned(low) % size + Unsigned(high) * size)) == EncodeInt(low)[..keep] + EncodeInt(high)[..4 - keep]
  {
    hide EncodeInt, Wrap, Unsigned;
    var a, b := EncodeInt(low), EncodeInt(high);
    EncodedDigits(low);
    EncodedDigits(high);
    Pieces(Unsigned(low), a[0], a[1], a[2], a[3]);
    if keep == 1 {
      WrapDigits(Unsigned(low) % P8 + Unsigned(high) * P8, a[0], b[0], b[1], b[2], b[3] as int);
    } else if keep == 2 {
      WrapDigits(Unsigned(low) % P16 + Unsigned(high) * P16, a[0], a[1], b[0], b[1], b[2] as int + P8 * b[3] as int);
    } else {
      WrapDigits(Unsigned(low) % P24 + Unsigned(high) * P24, a[0], a[1], a[2], b[0], b[1] as int + P8 * b[2] as int + P16 * b[3] as int);
    }
  }

  /** The high bytes of one word, moved down, under the high bytes of another. */
  lemma Tucked(over: CInt, under: CInt, take: nat)
    requires 1 <= take <= 3
    ensures var size, rest := if take == 1 then P8 else if take == 2 then P16 else P24, if take == 1 then P24 else if take == 2 then P16 else P8;
            EncodeInt(Wrap(Unsigned(over) - Unsigned(over) % size + Unsigned(under) / rest)) == EncodeInt(under)[4 - take..] + EncodeInt(over)[take..]
  {
    hide EncodeInt, Wrap, Unsigned;
    var a, b := EncodeInt(over), EncodeInt(under);
    EncodedDigits(over);
    EncodedDigits(under);
    Pieces(Unsigned(over), a[0], a[1], a[2], a[3]);
    Pieces(Unsigned(under), b[0], b[1], b[2], b[3]);
    if take == 1 {
      WrapDigits(Unsigned(over) - Unsigned(over) % P8 + Unsigned(under) / P24, b[3], a[1], a[2], a[3], 0);
    } else if take == 2 {
      WrapDigits(Unsigned(over) - Unsigned(over) % P16 + Unsigned(under) / P16, b[2], b[3], a[2], a[3], 0);
    } else {
      WrapDigits(Unsigned(over) - Unsigned(over) % P24 + Unsigned(under) / P8, b[1], b[2], b[3], a[3], 0);
    }
  }

  /** LWL at byte k of a word fills the register from the left with the word's bytes up to k. */
  lemma LeftBytes(prior: CInt, word: CInt, k: nat)
    requires k < 4
    ensures EncodeInt(MergeLeft(prior, word, k)) == EncodeInt(prior)[..3 - k] + EncodeInt(word)[..k + 1]
  {
    if k < 3 {
      Stacked(prior, word, 3 - k);
    }
  }

  /** LWR at byte k fills it from the right with the word's bytes from k on. */
  lemma RightBytes(prior: CInt, word: CInt, k: nat)
    requires k < 4
    ensures EncodeInt(MergeRight(prior, word, k)) == EncodeInt(word)[k..] + EncodeInt(prior)[4 - k..]
  {
    if k > 0 {
      Tucked(prior, word, 4 - k);
    }
  }

  /** SWL at byte k puts the register's high bytes into the word's bytes up to k. */
  lemma StoreLeftBytes(word: CInt, value: CInt, k: nat)
    requires k < 4
    ensures EncodeInt(StoreLeft(word, value, k)) == EncodeInt(value)[3 - k..] + EncodeInt(word)[k + 1..]
  {
    if k < 3 {
      Tucked(word, value, k + 1);
    }
  }

  /** SWR at byte k puts its low bytes into the word's bytes from k on. */
  lemma StoreRightBytes(word: CInt, value: CInt, k: nat)
    requires k < 4
    ensures EncodeInt(StoreRight(word, value, k)) == EncodeInt(word)[..k] + EncodeInt(value)[..4 - k]
  {
    if k > 0 {
      Stacked(word, value, k);
    }
  }

  // ---- virtual memory as bytes ----

  /** The byte that the program finds at a virtual address. */
  function ByteAt(mem: Memory, entries: seq<Entry>, tlb: bool, addr: CInt): byte {
    match Locate(entries, tlb, addr, 1, false)
    case At(_, address) => mem[address]
    case Fault(_) => 0
  }

  /** Address arithmetic of the machine, which wraps around. */
  function Plus(a: CInt, k: nat): CInt {
    Wrap(a as int + k)
  }

  lemma PlusSum(a: CInt, j: nat, k: nat)
    ensures Plus(Plus(a, j), k) == Plus(a, j + k)
  {
  }

  lemma PlusPlain(a: CInt, k: nat)
    ensures a as int + k < INT_LIMIT ==> Plus(a, k) == a as int + k
  {
  }

  /** The four bytes that the program finds from an address on. */
  function BytesAt(mem: Memory, entries: seq<Entry>, tlb: bool, addr: CInt): (b: seq<byte>)
    ensures |b| == 4
  {
    [ByteAt(mem, entries, tlb, addr), ByteAt(mem, entries, tlb, Plus(addr, 1)),
     ByteAt(mem, entries, tlb, Plus(addr, 2)), ByteAt(mem, entries, tlb, Plus(addr, 3))]
  }

  /** The word read at an aligned address is made of the four bytes there. */
  lemma AlignedWord(mem: Memory, entries: seq<Entry>, tlb: bool, addr: CInt)
    requires Locate(entries, tlb, addr, 4, false).At?
    ensures EncodeInt(ReadValue(mem, Locate(entries, tlb, addr, 4, false).address, 4)) == BytesAt(mem, entries, tlb, addr)
  {
    hide Locate, EncodeInt, DecodeInt, Plus;
    AlignedRoom(entries, tlb, addr);
    PlusPlain(addr, 1);
    PlusPlain(addr, 2);
    PlusPlain(addr, 3);
    var at := Locate(entries, tlb, addr, 4, false).address;
    SamePage(entries, tlb, addr, 0, 4, false);
    SamePage(entries, tlb, addr, 1, 4, false);
    SamePage(entries, tlb, addr, 2, 4, false);
    SamePage(entries, tlb, addr, 3, 4, false);
    BytesRoundTrip(mem[at..at + 4]);
  }

  lemma AlignedRoom(entries: seq<Entry>, tlb: bool, addr: CInt)
    requires Locate(entries, tlb, addr, 4, false).At?
    ensures addr % 4 == 0 && addr + 3 < INT_LIMIT
  {
  }

  lemma SameByte(mem: Memory, a: seq<Entry>, b: seq<Entry>, tlb: bool, addr: CInt)
    requires SameMapping(a, b)
    ensures ByteAt(mem, a, tlb, addr) == ByteAt(mem, b, tlb, addr)
  {
    MapsAlike(a, b, tlb, addr, 1, false);
  }

  lemma NextWord(base: CInt)
    requires base % 4 == 0
    ensures Plus(base, 4) % 4 == 0 && base + 3 < INT_LIMIT && Plus(base, 4) + 3 < INT_LIMIT
  {
    var q := base / 4;
    assert base == 4 * q;
    assert Plus(base, 4) == 4 * (q + 1) || Plus(base, 4) == 4 * (q + 1 - 0x4000_0000);
  }

  lemma WordRemainder(base: int, off: nat)
    requires base % 4 == 0 && off < 4
    ensures (base + off) % 4 == off
  {
    assert base == 4 * (base / 4);
  }

  /** The aligned words around a and a + 3. */
  lemma Around(a: CInt)
    ensures var off, last := a % 4, Plus(a, 3);
            && -INT_LIMIT <= a - off && a - off + 3 < INT_LIMIT && Plus(a - off, off) == a
            && last % 4 == (if off == 0 then 3 else off - 1)
            && last - last % 4 == if off == 0 then a - off else Plus(a - off, 4)
  {
    hide Plus;
    var off := a % 4;
    var base := a - off;
    assert base == 4 * (a / 4);
    NextWord(base);
    PlusPlain(base, off);
    PlusPlain(base, off + 3);
    if off == 0 {
      WordRemainder(base, 3);
    } else {
      PlusSum(base, off, 3);
      PlusSum(base, 4, off - 1);
      PlusPlain(Plus(base, 4), off - 1);
      WordRemainder(Plus(base, 4), off - 1);
    }
  }

  // ---- a pair of loads ----

  /** A LWL or LWR that went through. */
  ghost predicate Loads(i: Instr, regs: Regs, mem: Memory, entries: seq<Entry>, tlb: bool, regs': Regs) {
    && (i.op == LWL || i.op == LWR) && i.rt != 0 && ExtraOk(i) && 0 <= regs[LOAD] < 32
    && Outcome(i, regs, mem, entries, tlb, NoException, regs', mem)
  }

  /** One of the pair, on the register as the program will see it. */
  lemma LoadBytes(i: Instr, regs: Regs, mem: Memory, entries: seq<Entry>, tlb: bool, regs': Regs)
    requires Loads(i, regs, mem, entries, tlb, regs')
    ensures var k, base := ByteOfWord(i, regs), AccessAddress(i, regs);
            && 0 <= regs'[LOAD] < 32
            && var word, prior, after := BytesAt(mem, entries, tlb, base), EncodeInt(Visible(regs, i.rt)), EncodeInt(Visible(regs', i.rt));
               after == if i.op == LWL then prior[..3 - k] + word[..k + 1] else word[k..] + prior[4 - k..]
  {
    hide Locate, EncodeInt, MergeLeft, MergeRight, AccessAddress, ByteOfWord, BytesAt, ReadValue, ExtraOk, Outcome, Visible;
    LoadedValue(i, regs, mem, entries, tlb, regs');
    var p := Locate(entries, tlb, AccessAddress(i, regs), 4, false);
    AlignedWord(mem, entries, tlb, AccessAddress(i, regs));
    LeftBytes(Visible(regs, i.rt), ReadValue(mem, p.address, 4), ByteOfWord(i, regs));
    RightBytes(Visible(regs, i.rt), ReadValue(mem, p.address, 4), ByteOfWord(i, regs));
  }

  lemma LoadedValue(i: Instr, regs: Regs, mem: Memory, entries: seq<Entry>, tlb: bool, regs': Regs)
    requires Loads(i, regs, mem, entries, tlb, regs')
    ensures var p := Locate(entries, tlb, AccessAddress(i, regs), 4, false);
            && p.At? && p.address + 4 <= MEMORY_SIZE && 0 <= regs'[LOAD] < 32
            && Visible(regs', i.rt) == LoadResult(i.op, ByteOfWord(i, regs), ReadValue(mem, p.address, 4), Visible(regs, i.rt))
  {
    hide Locate, MergeLeft, MergeRight, AccessAddress, ByteOfWord, ReadValue, ExtraOk;
  }

  /** Between the two loads an interrupt may complete the pending one. */
  lemma FlushKeepsVisible(regs: Regs, r: Reg)
    requires 0 <= regs[LOAD] < 32 && r != 0
    ensures Visible(Loaded(regs, 0, 0), r) == Visible(regs, r)
  {
  }

  /** The register's bytes after both merges, the second word being v (w itself when a is aligned). */
  lemma BothMerges(op: Op, prior: seq<byte>, after: seq<byte>, final: seq<byte>, w: seq<byte>, v: seq<byte>, off: nat, last: nat)
    requires |prior| == |w| == |v| == 4 && off < 4 && last == (if off == 0 then 3 else off - 1)
    requires op == LWL || op == LWR
    requires after == if op == LWL then prior[..3 - last] + v[..last + 1] else w[off..] + prior[4 - off..]
    requires final == if op == LWR then after[..3 - last] + v[..last + 1] else w[off..] + after[4 - off..]
    requires off == 0 ==> v == w
    ensures final == w[off..] + v[..off] && |final| == 4
  {
  }

  /** The two aligned words that an unaligned word at a may reach into; the same one twice when a is aligned. */
  function LowWord(a: CInt): CInt {
    Around(a);
    a - a % 4
  }

  function HighWord(a: CInt): (w: CInt)
    ensures a % 4 == 0 ==> w == LowWord(a)
  {
    if a % 4 == 0 then LowWord(a) else Plus(LowWord(a), 4)
  }

  /** One of the pair that works at a. */
  lemma OneLoad(i: Instr, regs: Regs, mem: Memory, entries: seq<Entry>, tlb: bool, regs': Regs, a: CInt)
    requires Loads(i, regs, mem, entries, tlb, regs') && EffectiveAddress(i, regs) == (if i.op == LWR then a else Plus(a, 3))
    ensures var off, last := a % 4, if a % 4 == 0 then 3 else a % 4 - 1;
            && 0 <= regs'[LOAD] < 32
            && var prior, after := EncodeInt(Visible(regs, i.rt)), EncodeInt(Visible(regs', i.rt));
               after == if i.op == LWL then prior[..3 - last] + BytesAt(mem, entries, tlb, HighWord(a))[..last + 1]
                        else BytesAt(mem, entries, tlb, LowWord(a))[off..] + prior[4 - off..]
  {
    hide Locate, EncodeInt, Outcome, BytesAt, Visible, EffectiveAddress, ExtraOk, Plus;
    Around(a);
    LoadBytes(i, regs, mem, entries, tlb, regs');
  }

  lemma UnalignedWord(mem: Memory, entries: seq<Entry>, tlb: bool, a: CInt)
    ensures BytesAt(mem, entries, tlb, a) == BytesAt(mem, entries, tlb, LowWord(a))[a % 4..] + BytesAt(mem, entries, tlb, HighWord(a))[..a % 4]
  {
    hide BytesAt, Plus;
    Around(a);
    TwoWords(mem, entries, tlb, LowWord(a), a % 4);
  }

  /** LWR at a and LWL at a + 3, in either order, and with or without an interrupt in between, leave the register
      equal to the little-endian word made of the four bytes at a. */
  lemma UnalignedLoad(i: Instr, j: Instr, regs: Regs, regs1: Regs, between: Regs, regs2: Regs, mem: Memory,
                      entries: seq<Entry>, entries': seq<Entry>, tlb: bool, a: CInt)
    requires i.rt == j.rt && SameMapping(entries, entries')
    requires Loads(i, regs, mem, entries, tlb, regs1) && (between == regs1 || (0 <= regs1[LOAD] < 32 && between == Loaded(regs1, 0, 0)))
    requires Loads(j, between, mem, entries', tlb, regs2)
    requires i.op != j.op
    requires EffectiveAddress(i, regs) == (if i.op == LWR then a else Plus(a, 3))
    requires EffectiveAddress(j, between) == (if j.op == LWR then a else Plus(a, 3))
    ensures Visible(regs2, i.rt) == DecodeInt(BytesAt(mem, entries, tlb, a))
  {
    hide Locate, EncodeInt, DecodeInt, Outcome, BytesAt, Loaded, Visible, EffectiveAddress, SameMapping, ExtraOk, Plus, LowWord, HighWord;
    OneLoad(i, regs, mem, entries, tlb, regs1, a);
    FlushKeepsVisible(regs1, i.rt);
    OneLoad(j, between, mem, entries', tlb, regs2, a);
    SameBytesAt(mem, entries, entries', tlb, LowWord(a));
    SameBytesAt(mem, entries, entries', tlb, HighWord(a));
    UnalignedWord(mem, entries, tlb, a);
    BothMerges(i.op, EncodeInt(Visible(regs, i.rt)), EncodeInt(Visible(regs1, i.rt)), EncodeInt(Visible(regs2, i.rt)),
               BytesAt(mem, entries, tlb, LowWord(a)), BytesAt(mem, entries, tlb, HighWord(a)), a % 4, if a % 4 == 0 then 3 else a % 4 - 1);
    IntRoundTrip(Visible(regs2, i.rt));
  }

  lemma SameBytesAt(mem: Memory, a: seq<Entry>, b: seq<Entry>, tlb: bool, addr: CInt)
    requires SameMapping(a, b)
    ensures BytesAt(mem, a, tlb, addr) == BytesAt(mem, b, tlb, addr)
  {
    hide ByteAt, Plus;
    SameByte(mem, a, b, tlb, addr);
    SameByte(mem, a, b, tlb, Plus(addr, 1));
    SameByte(mem, a, b, tlb, Plus(addr, 2));
    SameByte(mem, a, b, tlb, Plus(addr, 3));
  }

  /** The bytes from an address on, one by one. */
  lemma ByteFrom(mem: Memory, entries: seq<Entry>, tlb: bool, addr: CInt, t: nat)
    requires t < 4
    ensures BytesAt(mem, entries, tlb, addr)[t] == ByteAt(mem, entries, tlb, Plus(addr, t))
  {
    hide ByteAt;
    PlusPlain(addr, 0);
  }

  lemma ByteAcross(mem: Memory, entries: seq<Entry>, tlb: bool, base: CInt, off: nat, t: nat)
    requires off < 4 && t < 4
    ensures BytesAt(mem, entries, tlb, Plus(base, off))[t] ==
            if off + t < 4 then BytesAt(mem, entries, tlb, base)[off + t] else BytesAt(mem, entries, tlb, Plus(base, 4))[off + t - 4]
  {
    hide ByteAt, BytesAt, Plus;
    ByteFrom(mem, entries, tlb, Plus(base, off), t);
    PlusSum(base, off, t);
    if off + t < 4 {
      ByteFrom(mem, entries, tlb, base, off + t);
    } else {
      ByteFrom(mem, entries, tlb, Plus(base, 4), off + t - 4);
      PlusSum(base, 4, off + t - 4);
    }
  }

  /** Four bytes that straddle two words. */
  lemma TwoWords(mem: Memory, entries: seq<Entry>, tlb: bool, base: CInt, off: nat)
    requires off < 4
    ensures BytesAt(mem, entries, tlb, Plus(base, off)) ==
            BytesAt(mem, entries, tlb, base)[off..] + BytesAt(mem, entries, tlb, Plus(base, 4))[..off]
  {
    hide ByteAt, Plus;
    ByteAcross(mem, entries, tlb, base, off, 0);
    ByteAcross(mem, entries, tlb, base, off, 1);
    ByteAcross(mem, entries, tlb, base, off, 2);
    ByteAcross(mem, entries, tlb, base, off, 3);
  }

  // ---- a pair of stores ----

  /** A SWL or SWR that went through. */
  ghost predicate Stores(i: Instr, regs: Regs, mem: Memory, entries: seq<Entry>, tlb: bool, regs': Regs, mem': Memory) {
    && (i.op == SWL || i.op == SWR) && ExtraOk(i) && 0 <= regs[LOAD] < 32
    && Outcome(i, regs, mem, entries, tlb, NoException, regs', mem')
  }

  /** The byte at position x of memory after value v has been stored by one of the pair in the word at p. */
  function StoredByte(op: Op, mem: Memory, p: nat, k: nat, v: CInt, x: nat): byte
    requires x < MEMORY_SIZE && k < 4
  {
    if op == SWL && p <= x <= p + k then EncodeInt(v)[3 - k + x - p]
    else if op == SWR && p + k <= x < p + 4 then EncodeInt(v)[x - p - k]
    else mem[x]
  }

  lemma WrittenWord(mem: Memory, p: nat, word: CInt, x: nat)
    requires p + 4 <= MEMORY_SIZE && x < MEMORY_SIZE
    ensures WriteValue(mem, p, 4, word)[x] == if p <= x < p + 4 then EncodeInt(word)[x - p] else mem[x]
  {
    hide EncodeInt;
  }

  lemma WordBytesInMemory(mem: Memory, p: nat)
    requires p + 4 <= MEMORY_SIZE
    ensures EncodeInt(ReadValue(mem, p, 4)) == mem[p..p + 4]
  {
    hide EncodeInt, DecodeInt;
    BytesRoundTrip(mem[p..p + 4]);
  }

  lemma StoredMemory(i: Instr, regs: Regs, mem: Memory, entries: seq<Entry>, tlb: bool, regs': Regs, mem': Memory)
    requires Stores(i, regs, mem, entries, tlb, regs', mem')
    ensures var p := Locate(entries, tlb, AccessAddress(i, regs), 4, false);
            && p.At? && p.address + 4 <= MEMORY_SIZE
            && mem' == WriteValue(mem, p.address, 4, StoreResult(i, regs, ReadValue(mem, p.address, 4)))
  {
    hide Locate, StoreResult, AccessAddress, ReadValue, WriteValue, Finished, Trapped, ExtraOk, Overflows, Result, Linked, Target,
         HiLoDone, LoadResult, Prior, Sequential, ByteOfWord;
    SamePlaces(entries, tlb, AccessAddress(i, regs));
  }

  /** What one of the pair does to each byte of memory. */
  lemma StoreBytes(i: Instr, regs: Regs, mem: Memory, p: nat, x: nat)
    requires (i.op == SWL || i.op == SWR) && p + 4 <= MEMORY_SIZE && x < MEMORY_SIZE
    ensures WriteValue(mem, p, 4, StoreResult(i, regs, ReadValue(mem, p, 4)))[x] ==
            StoredByte(i.op, mem, p, ByteOfWord(i, regs), regs[i.rt], x)
  {
    hide EncodeInt, StoreLeft, StoreRight, ByteOfWord, ReadValue, WriteValue;
    var word, k := ReadValue(mem, p, 4), ByteOfWord(i, regs);
    WordBytesInMemory(mem, p);
    WrittenWord(mem, p, StoreResult(i, regs, word), x);
    if i.op == SWL {
      StoreLeftBytes(word, regs[i.rt], k);
    } else {
      StoreRightBytes(word, regs[i.rt], k);
    }
  }

  /** The words at base and at base + 4 do not overlap in memory, even if their pages share a frame. */
  lemma WordsApart(entries: seq<Entry>, tlb: bool, base: CInt)
    requires Locate(entries, tlb, base, 4, false).At? && Locate(entries, tlb, Plus(base, 4), 4, false).At?
    ensures var p, q := Locate(entries, tlb, base, 4, false).address, Locate(entries, tlb, Plus(base, 4), 4, false).address;
            p + 4 <= q || q + 4 <= p
  {
    hide Locate, Offset, Plus;
    InFrame(entries, tlb, base);
    InFrame(entries, tlb, Plus(base, 4));
    OffsetsApart(base);
    MultiplesApart(Locate(entries, tlb, base, 4, false).address, Locate(entries, tlb, Plus(base, 4), 4, false).address);
  }

  lemma InFrame(entries: seq<Entry>, tlb: bool, addr: CInt)
    requires Locate(entries, tlb, addr, 4, false).At?
    ensures Locate(entries, tlb, addr, 4, false).address % PAGE_SIZE == Offset(addr) && addr % 4 == 0
  {
    hide PageOf, TlbIndex;
  }

  lemma OffsetsApart(base: CInt)
    requires base % 4 == 0
    ensures Offset(base) != Offset(Plus(base, 4)) && Offset(base) % 4 == 0 && Offset(Plus(base, 4)) % 4 == 0
  {
    SameRemainder(base);
    NextMultiple(Unsigned(base));
    assert Unsigned(Plus(base, 4)) == if base == -4 then 0 else Unsigned(base) + 4;
  }

  lemma NextMultiple(u: nat)
    requires u % 4 == 0
    ensures u % PAGE_SIZE % 4 == 0 && (u + 4) % PAGE_SIZE != u % PAGE_SIZE && (u + 4) % PAGE_SIZE % 4 == 0
    ensures u == WORD_LIMIT - 4 ==> u % PAGE_SIZE == PAGE_SIZE - 4
  {
    var q, o := u / PAGE_SIZE, u % PAGE_SIZE;
    assert o == 4 * (u / 4 - 32 * q);
    if o + 4 < PAGE_SIZE {
      DivModUnique(u + 4, PAGE_SIZE, q, o + 4);
    } else {
      DivModUnique(u + 4, PAGE_SIZE, q + 1, 0);
    }
  }

  lemma MultiplesApart(p: nat, q: nat)
    requires p % PAGE_SIZE != q % PAGE_SIZE && p % PAGE_SIZE % 4 == 0 && q % PAGE_SIZE % 4 == 0
    ensures p + 4 <= q || q + 4 <= p
  {
  }

  /** The position in memory of the byte at a virtual address. */
  function PositionOf(entries: seq<Entry>, tlb: bool, addr: CInt): int {
    match Locate(entries, tlb, addr, 1, false)
    case At(_, address) => address
    case Fault(_) => -1
  }

  predicate Among(entries: seq<Entry>, tlb: bool, a: CInt, x: nat) {
    || PositionOf(entries, tlb, a) == x || PositionOf(entries, tlb, Plus(a, 1)) == x
    || PositionOf(entries, tlb, Plus(a, 2)) == x || PositionOf(entries, tlb, Plus(a, 3)) == x
  }

  /** Memory after one of the pair, byte by byte: SWR in the word at p, SWL in the word at q. */
  ghost predicate StoredIn(op: Op, mem: Memory, mem': Memory, p: nat, q: nat, off: nat, v: CInt) {
    off < 4 && forall x :: 0 <= x < MEMORY_SIZE ==>
      mem'[x] == if op == SWR then StoredByte(SWR, mem, p, off, v, x)
                 else StoredByte(SWL, mem, q, if off == 0 then 3 else off - 1, v, x)
  }

  /** The two halves together, in either order. */
  lemma BothStores(op: Op, mem: Memory, mem1: Memory, mem2: Memory, p: nat, q: nat, off: nat, v: CInt)
    requires op == SWR || op == SWL
    requires StoredIn(op, mem, mem1, p, q, off, v) && StoredIn(if op == SWR then SWL else SWR, mem1, mem2, p, q, off, v)
    requires p + 4 <= MEMORY_SIZE && q + 4 <= MEMORY_SIZE
    requires if off == 0 then p == q else p + 4 <= q || q + 4 <= p
    ensures forall x :: p + off <= x < p + 4 ==> mem2[x] == EncodeInt(v)[x - p - off]
    ensures forall x :: q <= x < q + off ==> mem2[x] == EncodeInt(v)[4 - off + x - q]
    ensures forall x :: 0 <= x < MEMORY_SIZE && !(p + off <= x < p + 4) && !(q <= x < q + off) ==> mem2[x] == mem[x]
  {
    hide EncodeInt;
  }

  /** The word that an instruction of the pair writes, for a pair that stores at a. */
  predicate WordFor(op: Op, a: CInt, word: CInt) {
    a - a % 4 >= -INT_LIMIT && word == if op == SWR || a % 4 == 0 then a - a % 4 else Plus(a - a % 4, 4)
  }

  lemma OneStore(i: Instr, regs: Regs, mem: Memory, entries: seq<Entry>, tlb: bool, regs': Regs, mem': Memory, a: CInt, word: CInt)
    requires Stores(i, regs, mem, entries, tlb, regs', mem')
    requires EffectiveAddress(i, regs) == (if i.op == SWR then a else Plus(a, 3)) && WordFor(i.op, a, word)
    ensures var p := Locate(entries, tlb, word, 4, false);
            p.At? && p.address + 4 <= MEMORY_SIZE && StoredIn(i.op, mem, mem', p.address, p.address, a % 4, regs[i.rt])
  {
    hide EncodeInt, Outcome, Locate, StoreResult, WriteValue, ReadValue, EffectiveAddress, StoredByte, ExtraOk, Plus;
    StoredMemory(i, regs, mem, entries, tlb, regs', mem');
    Around(a);
    var p := Locate(entries, tlb, word, 4, false).address;
    forall x | 0 <= x < MEMORY_SIZE ensures mem'[x] == StoredByte(i.op, mem, p, ByteOfWord(i, regs), regs[i.rt], x) {
      StoreBytes(i, regs, mem, p, x);
    }
  }

  /** Where the four bytes at a are: the end of one word and the beginning of the next. */
  lemma Positions(entries: seq<Entry>, tlb: bool, base: CInt, off: nat, t: nat)
    requires off < 4 && t < 4
    requires Locate(entries, tlb, base, 4, false).At? && (off > 0 ==> Locate(entries, tlb, Plus(base, 4), 4, false).At?)
    ensures PositionOf(entries, tlb, Plus(Plus(base, off), t)) ==
            if off + t < 4 then Locate(entries, tlb, base, 4, false).address + off + t
            else Locate(entries, tlb, Plus(base, 4), 4, false).address + off + t - 4
  {
    hide Locate, Plus;
    PlusSum(base, off, t);
    if off + t < 4 {
      AlignedRoom(entries, tlb, base);
      PlusPlain(base, off + t);
      SamePage(entries, tlb, base, off + t, 4, false);
    } else {
      AlignedRoom(entries, tlb, Plus(base, 4));
      PlusSum(base, 4, off + t - 4);
      PlusPlain(Plus(base, 4), off + t - 4);
      SamePage(entries, tlb, Plus(base, 4), off + t - 4, 4, false);
    }
  }

  /** SWR of v at a and SWL of v at a + 3, in either order, put the bytes of v at a, and touch no other byte. */
  lemma UnalignedStore(i: Instr, j: Instr, regs: Regs, between: Regs, regs1: Regs, regs2: Regs,
                       mem: Memory, mem1: Memory, mem2: Memory,
                       entries: seq<Entry>, entries': seq<Entry>, tlb: bool, a: CInt)
    requires SameMapping(entries, entries')
    requires Stores(i, regs, mem, entries, tlb, regs1, mem1) && Stores(j, between, mem1, entries', tlb, regs2, mem2)
    requires i.op != j.op && regs[i.rt] == between[j.rt]
    requires EffectiveAddress(i, regs) == (if i.op == SWR then a else Plus(a, 3))
    requires EffectiveAddress(j, between) == (if j.op == SWR then a else Plus(a, 3))
    ensures BytesAt(mem2, entries, tlb, a) == EncodeInt(regs[i.rt])
    ensures forall x :: 0 <= x < MEMORY_SIZE && !Among(entries, tlb, a, x) ==> mem2[x] == mem[x]
  {
    hide EncodeInt, Outcome, Locate, EffectiveAddress, StoredByte, StoredIn, SameMapping, ExtraOk, Plus, BytesAt, Among;
    Around(a);
    var v, off, base := regs[i.rt], a % 4, a - a % 4;
    var next := if off == 0 then base else Plus(base, 4);
    OneStore(i, regs, mem, entries, tlb, regs1, mem1, a, if i.op == SWR then base else next);
    OneStore(j, between, mem1, entries', tlb, regs2, mem2, a, if j.op == SWR then base else next);
    MapsAlike(entries, entries', tlb, base, 4, false);
    if off > 0 {
      MapsAlike(entries, entries', tlb, Plus(base, 4), 4, false);
      WordsApart(entries, tlb, base);
    }
    var p := Locate(entries, tlb, base, 4, false).address;
    var q := if off == 0 then p else Locate(entries, tlb, Plus(base, 4), 4, false).address;
    WiderPair(i.op, mem, mem1, p, q, off, v);
    WiderPair(j.op, mem1, mem2, p, q, off, v);
    StoresMeet(i.op, mem, mem1, mem2, entries, tlb, base, off, p, q, v);
  }

  lemma WiderPair(op: Op, mem: Memory, mem': Memory, p: nat, q: nat, off: nat, v: CInt)
    requires op == SWR || op == SWL
    requires if op == SWR then StoredIn(op, mem, mem', p, p, off, v) else StoredIn(op, mem, mem', q, q, off, v)
    ensures StoredIn(op, mem, mem', p, q, off, v)
  {
    hide StoredByte;
  }

  lemma StoresMeet(op: Op, mem: Memory, mem1: Memory, mem2: Memory, entries: seq<Entry>, tlb: bool,
                   base: CInt, off: nat, p: nat, q: nat, v: CInt)
    requires off < 4 && (op == SWR || op == SWL)
    requires StoredIn(op, mem, mem1, p, q, off, v) && StoredIn(if op == SWR then SWL else SWR, mem1, mem2, p, q, off, v)
    requires Locate(entries, tlb, base, 4, false).At? && p == Locate(entries, tlb, base, 4, false).address
    requires if off == 0 then q == p
             else Locate(entries, tlb, Plus(base, 4), 4, false).At? && q == Locate(entries, tlb, Plus(base, 4), 4, false).address
                  && (p + 4 <= q || q + 4 <= p)
    ensures BytesAt(mem2, entries, tlb, Plus(base, off)) == EncodeInt(v)
    ensures forall x :: 0 <= x < MEMORY_SIZE && !Among(entries, tlb, Plus(base, off), x) ==> mem2[x] == mem[x]
  {
    hide EncodeInt, Locate, StoredByte, StoredIn, PositionOf, ByteAt, Plus;
    BothStores(op, mem, mem1, mem2, p, q, off, v);
    PlusSum(base, off, 0);
    PlusSum(base, 0, off);
    AtPosition(mem2, entries, tlb, base, off, 0, p, q);
    AtPosition(mem2, entries, tlb, base, off, 1, p, q);
    AtPosition(mem2, entries, tlb, base, off, 2, p, q);
    AtPosition(mem2, entries, tlb, base, off, 3, p, q);
  }

  lemma AtPosition(mem: Memory, entries: seq<Entry>, tlb: bool, base: CInt, off: nat, t: nat, p: nat, q: nat)
    requires off < 4 && t < 4
    requires Locate(entries, tlb, base, 4, false).At? && p == Locate(entries, tlb, base, 4, false).address
    requires off > 0 ==> Locate(entries, tlb, Plus(base, 4), 4, false).At? && q == Locate(entries, tlb, Plus(base, 4), 4, false).address
    ensures var x, b := if off + t < 4 then p + off + t else q + off + t - 4, Plus(Plus(base, off), t);
            PositionOf(entries, tlb, b) == x && x < MEMORY_SIZE && ByteAt(mem, entries, tlb, b) == mem[x]
  {
    hide Locate, PositionOf, ByteAt, Plus;
    Positions(entries, tlb, base, off, t);
    ByteAtPosition(mem, entries, tlb, Plus(Plus(base, off), t));
  }

  lemma ByteAtPosition(mem: Memory, entries: seq<Entry>, tlb: bool, addr: CInt)
    ensures var x := PositionOf(entries, tlb, addr);
            x < MEMORY_SIZE && (x >= 0 ==> ByteAt(mem, entries, tlb, addr) == mem[x])
  {
    hide Locate;
  }

  /** What a pair of stores put at a, a later pair of loads brings back: in any order within each pair, at any
      alignment, and with or without an interrupt between the loads. */
  lemma StoredThenLoaded(s1: Instr, s2: Instr, l1: Instr, l2: Instr,
                         regs: Regs, regs1: Regs, regs2: Regs, regs3: Regs, regs4: Regs, regs5: Regs, regs6: Regs, final: Regs,
                         mem: Memory, mem1: Memory, mem2: Memory,
                         e1: seq<Entry>, e2: seq<Entry>, e3: seq<Entry>, e4: seq<Entry>, tlb: bool, a: CInt)
    requires SameMapping(e1, e2) && SameMapping(e1, e3) && SameMapping(e3, e4)
    requires Stores(s1, regs, mem, e1, tlb, regs1, mem1) && Stores(s2, regs2, mem1, e2, tlb, regs3, mem2)
    requires s1.op != s2.op && regs[s1.rt] == regs2[s2.rt]
    requires EffectiveAddress(s1, regs) == (if s1.op == SWR then a else Plus(a, 3))
    requires EffectiveAddress(s2, regs2) == (if s2.op == SWR then a else Plus(a, 3))
    requires Loads(l1, regs4, mem2, e3, tlb, regs5) && Loads(l2, regs6, mem2, e4, tlb, final)
    requires regs6 == regs5 || (0 <= regs5[LOAD] < 32 && regs6 == Loaded(regs5, 0, 0))
    requires l1.op != l2.op && l1.rt == l2.rt
    requires EffectiveAddress(l1, regs4) == (if l1.op == LWR then a else Plus(a, 3))
    requires EffectiveAddress(l2, regs6) == (if l2.op == LWR then a else Plus(a, 3))
    ensures Visible(final, l1.rt) == regs[s1.rt]
  {
    hide Outcome, Locate, EncodeInt, DecodeInt, EffectiveAddress, SameMapping, BytesAt, Loads, Stores, Plus, Visible, Loaded, ExtraOk;
    UnalignedStore(s1, s2, regs, regs2, regs1, regs3, mem, mem1, mem2, e1, e2, tlb, a);
    UnalignedLoad(l1, l2, regs4, regs5, regs6, final, mem2, e3, e4, tlb, a);
    SameBytesAt(mem2, e1, e3, tlb, a);
    IntRoundTrip(regs[s1.rt]);
  }

  // ---- exceptions ----

  /** A trap is precise, also one in the fetch: the program counters, HI and LO are as before the instruction, and
      so is every general register but for the completion of the pending load. */
  lemma TrapIsPrecise(regs: Regs, badVAddr: CInt)
    requires 0 <= regs[LOAD] < 32
    ensures var regs' := Trapped(regs, badVAddr);
            && (forall r :: HI <= r < LOAD ==> regs'[r] == regs[r])
            && (forall r: Reg :: regs'[r] == Visible(regs, r))
            && regs'[LOAD] == 0 && regs'[LOAD_VALUE] == 0 && regs'[BAD_VADDR] == badVAddr
  {
  }

  /** Every exception of every instruction is precise, and leaves memory alone. */
  lemma ExceptionsArePrecise(i: Instr, regs: Regs, mem: Memory, entries: seq<Entry>, tlb: bool, ex: Exception, regs': Regs, mem': Memory)
    requires 0 <= regs[LOAD] < 32 && ExtraOk(i)
    requires Outcome(i, regs, mem, entries, tlb, ex, regs', mem') && ex != NoException
    ensures mem' == mem
    ensures forall r :: HI <= r < LOAD ==> regs'[r] == regs[r]
    ensures forall r: Reg :: regs'[r] == Visible(regs, r)
    ensures regs'[LOAD] == 0 && regs'[LOAD_VALUE] == 0
  {
    hide Locate, Overflows, Result, Linked, Target, HiLoRight, LoadResult, Stored, StorePlace, AccessAddress, ExtraOk, Finished, Trapped;
    TrapIsPrecise(regs, 0);
    TrapIsPrecise(regs, AccessAddress(i, regs));
  }
}
