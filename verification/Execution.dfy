/** machine/mipssim.cc: what the instructions mean to a program, told in terms of the bytes it can address, of its
    registers, and of the addresses it goes on at. */
module Executions {
  import opened Layout
  import opened Multiplication
  import opened Translation
  import opened Instructions
  import opened Operations
  import opened Machines
  import opened UnalignedAccess

  /** An instruction that went through. */
  ghost predicate Ran(i: Instr, regs: Regs, mem: Memory, entries: seq<Entry>, tlb: bool, regs': Regs, mem': Memory) {
    0 <= regs[LOAD] < 32 && ExtraOk(i) && Outcome(i, regs, mem, entries, tlb, NoException, regs', mem')
  }

  /** Equal as 32-bit words. */
  predicate SameWord(a: int, b: int) {
    (a - b) % WORD_LIMIT == 0
  }

  // ---- loads ----

  lemma AddressOf(i: Instr, regs: Regs, a: CInt)
    requires SameWord(a, regs[i.rs] as int + i.extra)
    ensures EffectiveAddress(i, regs) == a
  {
    WrapSame(a, regs[i.rs] as int + i.extra);
  }

  lemma WrapSame(a: CInt, n: int)
    requires SameWord(a, n)
    ensures Wrap(n) == a
  {
    var q := (n - a) / WORD_LIMIT;
    assert n == a + q * WORD_LIMIT;
  }

  /** The bytes from p on in memory are those that the program finds from a on. */
  lemma BytesFrom(mem: Memory, entries: seq<Entry>, tlb: bool, a: CInt, size: nat, writing: bool)
    requires (size == 1 || size == 2 || size == 4) && Locate(entries, tlb, a, size, writing).At?
    ensures var p := Locate(entries, tlb, a, size, writing).address;
            forall k :: 0 <= k < size ==> ByteAt(mem, entries, tlb, Plus(a, k)) == mem[p + k]
                                          && PositionOf(entries, tlb, Plus(a, k)) == p + k
  {
    hide Locate, Plus, ByteAt, PositionOf;
    var p := Locate(entries, tlb, a, size, writing).address;
    ReadableToo(entries, tlb, a, size, writing);
    forall k | 0 <= k < size ensures ByteAt(mem, entries, tlb, Plus(a, k)) == mem[p + k] && PositionOf(entries, tlb, Plus(a, k)) == p + k {
      RoomFor(entries, tlb, a, size);
      PlusPlain(a, k);
      if size > 1 {
        SamePage(entries, tlb, a, k, size, false);
      }
      ByteThere(mem, entries, tlb, a + k);
    }
  }

  lemma ByteThere(mem: Memory, entries: seq<Entry>, tlb: bool, a: CInt)
    requires Locate(entries, tlb, a, 1, false).At?
    ensures ByteAt(mem, entries, tlb, a) == mem[Locate(entries, tlb, a, 1, false).address]
    ensures PositionOf(entries, tlb, a) == Locate(entries, tlb, a, 1, false).address
  {
    hide Locate;
  }

  /** What may be written may be read, at the same place. */
  lemma ReadableToo(entries: seq<Entry>, tlb: bool, a: CInt, size: nat, writing: bool)
    requires (size == 1 || size == 2 || size == 4) && Locate(entries, tlb, a, size, writing).At?
    ensures Locate(entries, tlb, a, size, false) == Locate(entries, tlb, a, size, writing)
  {
  }

  lemma RoomFor(entries: seq<Entry>, tlb: bool, a: CInt, size: nat)
    requires (size == 1 || size == 2 || size == 4) && Locate(entries, tlb, a, size, false).At?
    ensures a + size - 1 < INT_LIMIT
  {
  }

  /** The loads that take a whole byte, halfword or word. */
  predicate WholeLoad(op: Op) {
    op == LB || op == LBU || op == LH || op == LHU || op == LW
  }

  lemma LoadedFrom(i: Instr, regs: Regs, mem: Memory, entries: seq<Entry>, tlb: bool, regs': Regs, mem': Memory, a: CInt)
    requires Ran(i, regs, mem, entries, tlb, regs', mem') && WholeLoad(i.op) && i.rt != 0
    requires SameWord(a, regs[i.rs] as int + i.extra)
    ensures mem' == mem && 0 <= regs'[LOAD] < 32
    ensures var p := Locate(entries, tlb, a, SizeOf(i.op), false);
            p.At? && Visible(regs', i.rt) == LoadResult(i.op, ByteOfWord(i, regs), ReadValue(mem, p.address, SizeOf(i.op)), Prior(regs, i.rt))
  {
    hide Locate, LoadResult, ByteOfWord, ReadValue, ExtraOk, Overflows, Result, Linked, Target, HiLoDone, Stored, StorePlace, Wrap, Prior,
         EffectiveAddress, SameWord;
    AddressOf(i, regs, a);
  }

  lemma PartValue(op: Op, mem: Memory, p: nat, byteOf: nat, prior: CInt)
    requires WholeLoad(op) && p + SizeOf(op) <= MEMORY_SIZE
    ensures var v := LoadResult(op, byteOf, ReadValue(mem, p, SizeOf(op)), prior);
            && (op == LB ==> v == if mem[p] < 0x80 then mem[p] as int else mem[p] as int - 0x100)
            && (op == LBU ==> v == mem[p] as int)
            && (op == LH ==> v == var u := mem[p] as int + 0x100 * mem[p + 1] as int; if u < 0x8000 then u else u - 0x1_0000)
            && (op == LHU ==> v == mem[p] as int + 0x100 * mem[p + 1] as int)
            && (op == LW ==> v == DecodeInt(mem[p..p + 4]))
  {
    hide DecodeInt, MergeLeft, MergeRight, WholeLoad;
    SignedByte(mem[p]);
  }

  lemma SignedByte(b: byte)
    ensures (if b < 128 then b as int else b as int - 256) % 0x100 == b as int
  {
  }

  /** LW delivers the word made of the four bytes at its address, LH and LHU the two, LB and LBU the one, in
      little-endian order, with the sign extended or not. */
  lemma LoadMeans(i: Instr, regs: Regs, mem: Memory, entries: seq<Entry>, tlb: bool, regs': Regs, mem': Memory, a: CInt)
    requires Ran(i, regs, mem, entries, tlb, regs', mem') && WholeLoad(i.op) && i.rt != 0
    requires SameWord(a, regs[i.rs] as int + i.extra)
    ensures mem' == mem
    ensures var v, b, c := Visible(regs', i.rt), ByteAt(mem, entries, tlb, a) as int, ByteAt(mem, entries, tlb, Plus(a, 1)) as int;
            && (i.op == LB ==> v == if b < 0x80 then b else b - 0x100)
            && (i.op == LBU ==> v == b)
            && (i.op == LH ==> v == if b + 0x100 * c < 0x8000 then b + 0x100 * c else b + 0x100 * c - 0x1_0000)
            && (i.op == LHU ==> v == b + 0x100 * c)
            && (i.op == LW ==> v == DecodeInt(BytesAt(mem, entries, tlb, a)))
  {
    hide Ran, Locate, Plus, ByteAt, DecodeInt, Visible, SameWord, LoadResult, ReadValue, PositionOf, Prior, ByteOfWord;
    LoadedFrom(i, regs, mem, entries, tlb, regs', mem', a);
    var p := Locate(entries, tlb, a, SizeOf(i.op), false).address;
    PartValue(i.op, mem, p, ByteOfWord(i, regs), Prior(regs, i.rt));
    BytesFrom(mem, entries, tlb, a, SizeOf(i.op), false);
    PlusPlain(a, 0);
    if i.op == LW {
      assert mem[p..p + 4] == BytesAt(mem, entries, tlb, a);
    }
  }

  // ---- stores ----

  predicate WholeStore(op: Op) {
    op == SB || op == SH || op == SW
  }

  lemma StoredAt(i: Instr, regs: Regs, mem: Memory, entries: seq<Entry>, tlb: bool, regs': Regs, mem': Memory, a: CInt)
    requires Ran(i, regs, mem, entries, tlb, regs', mem') && WholeStore(i.op)
    requires SameWord(a, regs[i.rs] as int + i.extra)
    ensures var p := Locate(entries, tlb, a, SizeOf(i.op), true);
            p.At? && mem' == WriteValue(mem, p.address, SizeOf(i.op), regs[i.rt])
  {
    hide Locate, LoadResult, ByteOfWord, WriteValue, ReadValue, ExtraOk, Overflows, Result, Linked, Target, HiLoDone, Wrap, Prior,
         EffectiveAddress, SameWord, Finished, Trapped;
    AddressOf(i, regs, a);
  }

  /** Position x of memory holds none of the bytes from a on. */
  predicate Elsewhere(entries: seq<Entry>, tlb: bool, a: CInt, size: nat, x: nat) {
    forall k :: 0 <= k < size ==> PositionOf(entries, tlb, Plus(a, k)) != x
  }

  /** A store puts the low bytes of its register at its address, in little-endian order, and touches no other byte
      of memory. */
  lemma StoreMeans(i: Instr, regs: Regs, mem: Memory, entries: seq<Entry>, tlb: bool, regs': Regs, mem': Memory, a: CInt)
    requires Ran(i, regs, mem, entries, tlb, regs', mem') && WholeStore(i.op)
    requires SameWord(a, regs[i.rs] as int + i.extra)
    ensures var size := if i.op == SB then 1 else if i.op == SH then 2 else 4;
            && (forall k :: 0 <= k < size ==> ByteAt(mem', entries, tlb, Plus(a, k)) == EncodeInt(regs[i.rt])[k])
            && (forall x :: 0 <= x < MEMORY_SIZE && Elsewhere(entries, tlb, a, size, x) ==> mem'[x] == mem[x])
  {
    hide Ran, Locate, Plus, ByteAt, EncodeInt, SameWord, WriteValue, PositionOf;
    StoredAt(i, regs, mem, entries, tlb, regs', mem', a);
    var size := SizeOf(i.op);
    var p := Locate(entries, tlb, a, size, true).address;
    BytesFrom(mem', entries, tlb, a, size, true);
    assert mem'[p..p + size] == EncodeInt(regs[i.rt])[..size];
    forall k | 0 <= k < size ensures mem'[p + k] == EncodeInt(regs[i.rt])[k] {
      assert mem'[p..p + size][k] == mem'[p + k];
    }
    forall x | 0 <= x < MEMORY_SIZE && Elsewhere(entries, tlb, a, size, x) ensures mem'[x] == mem[x] {
      Outside(entries, tlb, a, size, p, x);
    }
  }

  lemma Outside(entries: seq<Entry>, tlb: bool, a: CInt, size: nat, p: nat, x: nat)
    requires forall k :: 0 <= k < size ==> PositionOf(entries, tlb, Plus(a, k)) == p + k
    ensures Elsewhere(entries, tlb, a, size, x) ==> !(p <= x < p + size)
  {
    hide PositionOf, Plus;
    if p <= x < p + size {
      assert PositionOf(entries, tlb, Plus(a, x - p)) == x;
    }
  }

  /** A load of the same width brings back what was stored: the word itself, or its low half or byte, with the sign
      extended or not. */
  lemma StoreThenLoad(s: Instr, l: Instr, regs: Regs, mem: Memory, entries: seq<Entry>, regs1: Regs, mem1: Memory,
                      regs2: Regs, entries': seq<Entry>, tlb: bool, regs3: Regs, mem3: Memory, a: CInt)
    requires Ran(s, regs, mem, entries, tlb, regs1, mem1) && WholeStore(s.op) && SameWord(a, regs[s.rs] as int + s.extra)
    requires SameMapping(entries, entries')
    requires Ran(l, regs2, mem1, entries', tlb, regs3, mem3) && WholeLoad(l.op) && l.rt != 0 && SameWord(a, regs2[l.rs] as int + l.extra)
    ensures var v, w := Visible(regs3, l.rt), regs[s.rt];
            && (s.op == SW && l.op == LW ==> v == w)
            && (s.op == SH && l.op == LH ==> -0x8000 <= v < 0x8000 && (v - w) % 0x1_0000 == 0)
            && (s.op == SH && l.op == LHU ==> 0 <= v < 0x1_0000 && (v - w) % 0x1_0000 == 0)
            && (s.op == SB && l.op == LB ==> -0x80 <= v < 0x80 && (v - w) % 0x100 == 0)
            && (s.op == SB && l.op == LBU ==> 0 <= v < 0x100 && (v - w) % 0x100 == 0)
  {
    hide Ran, Locate, Plus, ByteAt, DecodeInt, EncodeInt, Visible, SameWord, BytesAt, SameMapping, PositionOf, Elsewhere;
    StoreMeans(s, regs, mem, entries, tlb, regs1, mem1, a);
    LoadMeans(l, regs2, mem1, entries', tlb, regs3, mem3, a);
    PlusPlain(a, 0);
    SameByte(mem1, entries, entries', tlb, a);
    SameByte(mem1, entries, entries', tlb, Plus(a, 1));
    var w := regs[s.rt];
    if s.op == SW && l.op == LW {
      SameBytesAt(mem1, entries, entries', tlb, a);
      WholeWord(mem1, entries, tlb, a, w);
      IntRoundTrip(w);
    } else if s.op == SB && (l.op == LB || l.op == LBU) {
      NarrowedByte(l.op, Visible(regs3, l.rt), w);
    } else if s.op == SH && (l.op == LH || l.op == LHU) {
      NarrowedHalf(l.op, Visible(regs3, l.rt), w);
    }
  }

  lemma WholeWord(mem: Memory, entries: seq<Entry>, tlb: bool, a: CInt, w: CInt)
    requires forall k :: 0 <= k < 4 ==> ByteAt(mem, entries, tlb, Plus(a, k)) == EncodeInt(w)[k]
    ensures BytesAt(mem, entries, tlb, a) == EncodeInt(w)
  {
    hide ByteAt, Plus, EncodeInt;
    PlusPlain(a, 0);
    assert Plus(a, 0) == a;
  }

  /** The low bytes of a word, with or without their sign, are the word modulo a power of 2. */
  lemma LowBytes(w: CInt)
    ensures var b, c := EncodeInt(w)[0] as int, EncodeInt(w)[1] as int;
            && (b - w) % 0x100 == 0 && (b - 0x100 - w) % 0x100 == 0
            && (b + 0x100 * c - w) % 0x1_0000 == 0 && (b + 0x100 * c - 0x1_0000 - w) % 0x1_0000 == 0
  {
    hide EncodeInt;
    EncodedDigits(w);
    UnsignedSign(w);
    var e := EncodeInt(w);
    var b, c, d, f := e[0] as int, e[1] as int, e[2] as int, e[3] as int;
    var up := if w < 0 then 0x1_0000 else 0;
    var q, r := 0x100 * up - c - 0x100 * d - 0x1_0000 * f, up - d - 0x100 * f;
    Multiple(q);
    Multiple(q - 1);
    Multiple(r);
    Multiple(r - 1);
    assert b - w == 0x100 * q && b + 0x100 * c - w == 0x1_0000 * r;
  }

  lemma Multiple(q: int)
    ensures 0x100 * q % 0x100 == 0 && 0x1_0000 * q % 0x1_0000 == 0
  {
  }

  lemma NarrowedByte(load: Op, v: int, w: CInt)
    requires load == LB || load == LBU
    requires var b := EncodeInt(w)[0] as int; v == if load == LB && b >= 0x80 then b - 0x100 else b
    ensures (if load == LB then -0x80 <= v < 0x80 else 0 <= v < 0x100) && (v - w) % 0x100 == 0
  {
    hide EncodeInt;
    LowBytes(w);
  }

  lemma NarrowedHalf(load: Op, v: int, w: CInt)
    requires load == LH || load == LHU
    requires var u := EncodeInt(w)[0] as int + 0x100 * EncodeInt(w)[1] as int; v == if load == LH && u >= 0x8000 then u - 0x1_0000 else u
    ensures (if load == LH then -0x8000 <= v < 0x8000 else 0 <= v < 0x1_0000) && (v - w) % 0x1_0000 == 0
  {
    hide EncodeInt;
    LowBytes(w);
  }

  // ---- registers and program counters ----

  /** Register d gets v; every other register stays, but for the pending load, which completes now and wins. */
  ghost predicate Gets(regs: Regs, regs': Regs, d: Reg, v: CInt) {
    0 <= regs[LOAD] < 32 && forall r: Reg ::
      regs'[r] == if r == 0 then 0 else if r == regs[LOAD] then regs[LOAD_VALUE] else if r == d then v else regs[r]
  }

  /** Loads, stores, multiplications and divisions change no general register at once: what is loaded can be seen
      one instruction later. */
  lemma LoadsAreDelayed(i: Instr, regs: Regs, mem: Memory, entries: seq<Entry>, tlb: bool, regs': Regs, mem': Memory)
    requires Ran(i, regs, mem, entries, tlb, regs', mem') && (KindOf(i.op) == Load || KindOf(i.op) == Store || KindOf(i.op) == HiLo)
    ensures Gets(regs, regs', 0, 0)
    ensures regs'[LOAD] == if KindOf(i.op) == Load then i.rt else 0
    ensures KindOf(i.op) != HiLo ==> regs'[HI] == regs[HI] && regs'[LO] == regs[LO]
  {
    hide Locate, LoadResult, ReadValue, ByteOfWord, AccessAddress, Stored, StorePlace, Overflows, Result, Linked, Target, HiLoRight, ExtraOk,
         Trapped, KindOf, Prior, Wrap;
  }

  /** After any instruction that is no branch or jump, the delay slot's instruction is next, and then the one after
      it. */
  lemma RunsOn(i: Instr, regs: Regs, mem: Memory, entries: seq<Entry>, tlb: bool, regs': Regs, mem': Memory)
    requires Ran(i, regs, mem, entries, tlb, regs', mem') && KindOf(i.op) != Branch
    ensures regs'[PREV_PC] == regs[PC] && regs'[PC] == regs[NEXT_PC] && SameWord(regs'[NEXT_PC], regs[NEXT_PC] as int + 4)
  {
    hide Locate, LoadResult, ReadValue, ByteOfWord, AccessAddress, Stored, StorePlace, Overflows, Result, Linked, Target, HiLoRight, ExtraOk,
         Trapped, KindOf, Prior, Wrap, SameWord;
    WrapIsSame(regs[NEXT_PC] as int + 4);
    DestIsGeneral(i);
  }

  lemma WrapIsSame(n: int)
    ensures SameWord(Wrap(n), n)
  {
  }

  lemma DestIsGeneral(i: Instr)
    ensures Dest(i) < 32
  {
  }

  // ---- arithmetic ----

  /** Instructions that write rt, not rd. */
  predicate WritesRt(op: Op) {
    op == ADDI || op == ADDIU || op == ANDI || op == LUI || op == ORI || op == SLTI || op == SLTIU || op == XORI
  }

  /** The register that an arithmetic instruction writes. */
  function Into(i: Instr): Reg {
    if WritesRt(i.op) then i.rt else i.rd
  }

  /** The second operand of a bitwise instruction; an immediate is taken without its sign. */
  function Second(i: Instr, regs: Regs): CInt {
    if WritesRt(i.op) then i.extra % 0x1_0000 else regs[i.rt]
  }

  lemma ResultArrives(i: Instr, regs: Regs, mem: Memory, entries: seq<Entry>, tlb: bool, regs': Regs, mem': Memory)
    requires Ran(i, regs, mem, entries, tlb, regs', mem') && KindOf(i.op) == Arith
    ensures Gets(regs, regs', Into(i), Result(i, regs))
    ensures mem' == mem && regs'[LOAD] == 0 && regs'[HI] == regs[HI] && regs'[LO] == regs[LO]
  {
    hide Overflows, Result, ExtraOk, Trapped, KindOf, Wrap, Locate, Linked, Target, HiLoRight, LoadResult, Stored, StorePlace, AccessAddress;
  }

  /** Sums and differences. ADD, ADDI and SUB go through only when the true result is an int, so v is that result. */
  lemma SumMeans(i: Instr, regs: Regs, mem: Memory, entries: seq<Entry>, tlb: bool, regs': Regs, mem': Memory, v: CInt)
    requires Ran(i, regs, mem, entries, tlb, regs', mem')
    requires var a, b := regs[i.rs] as int, regs[i.rt] as int;
             || ((i.op == ADD || i.op == ADDU) && SameWord(v, a + b))
             || ((i.op == ADDI || i.op == ADDIU) && SameWord(v, a + i.extra))
             || ((i.op == SUB || i.op == SUBU) && SameWord(v, a - b))
    ensures Gets(regs, regs', Into(i), v)
  {
    hide Ran, Gets, Result, SameWord, ExtraOk;
    RanOk(i, regs, mem, entries, tlb, regs', mem');
    ResultArrives(i, regs, mem, entries, tlb, regs', mem');
    SumResult(i, regs, v);
  }

  lemma SumResult(i: Instr, regs: Regs, v: CInt)
    requires ExtraOk(i)
    requires var a, b := regs[i.rs] as int, regs[i.rt] as int;
             || ((i.op == ADD || i.op == ADDU) && SameWord(v, a + b))
             || ((i.op == ADDI || i.op == ADDIU) && SameWord(v, a + i.extra))
             || ((i.op == SUB || i.op == SUBU) && SameWord(v, a - b))
    ensures Result(i, regs) == v
  {
    hide Wrap, SameWord, BitAnd, BitOr, BitXor, BitNot, ShiftLeft, ShiftRight, ShiftAmount, ExtraOk, Unsigned;
    if i.op == ADD || i.op == ADDU {
      WrapSame(v, regs[i.rs] as int + regs[i.rt]);
    } else if i.op == ADDI || i.op == ADDIU {
      WrapSame(v, regs[i.rs] as int + i.extra);
    } else {
      WrapSame(v, regs[i.rs] as int - regs[i.rt]);
    }
  }

  lemma RanOk(i: Instr, regs: Regs, mem: Memory, entries: seq<Entry>, tlb: bool, regs': Regs, mem': Memory)
    requires Ran(i, regs, mem, entries, tlb, regs', mem')
    ensures ExtraOk(i) && 0 <= regs[LOAD] < 32
  {
    hide Outcome, ExtraOk;
  }

  /** Comparisons deliver 1 or 0: SLT and SLTI of ints, SLTU and SLTIU of words, the immediate sign-extended. */
  lemma CompareMeans(i: Instr, regs: Regs, mem: Memory, entries: seq<Entry>, tlb: bool, regs': Regs, mem': Memory)
    requires Ran(i, regs, mem, entries, tlb, regs', mem') && (i.op == SLT || i.op == SLTI || i.op == SLTU || i.op == SLTIU)
    ensures var a, b := regs[i.rs] as int, if i.op == SLTI || i.op == SLTIU then i.extra as int else regs[i.rt] as int;
            Gets(regs, regs', Into(i),
                 if (if i.op == SLT || i.op == SLTI then a < b else a % WORD_LIMIT < b % WORD_LIMIT) then 1 else 0)
  {
    hide Ran, Gets, Wrap, BitAnd, BitOr, BitXor, BitNot, ShiftLeft, ShiftRight, ShiftAmount, ExtraOk;
    RanOk(i, regs, mem, entries, tlb, regs', mem');
    ResultArrives(i, regs, mem, entries, tlb, regs', mem');
  }

  /** The truth tables of AND, OR (also used for NOR) and XOR, bit by bit. */
  ghost predicate Truth(op: Op, a: CInt, b: CInt, v: CInt) {
    forall m: bv32 | OneBit(m) ::
      Has(v, m) <==> if op == AND || op == ANDI then Has(a, m) && Has(b, m)
                     else if op == XOR || op == XORI then Has(a, m) != Has(b, m)
                     else Has(a, m) || Has(b, m)
  }

  ghost predicate Delivers(i: Instr, regs: Regs, regs': Regs, v: CInt) {
    Gets(regs, regs', Into(i), if i.op == NOR then -1 - v else v)
  }

  /** The bitwise instructions, by their truth tables. NOR delivers the complement of OR. */
  lemma LogicMeans(i: Instr, regs: Regs, mem: Memory, entries: seq<Entry>, tlb: bool, regs': Regs, mem': Memory)
    requires Ran(i, regs, mem, entries, tlb, regs', mem')
    requires i.op == AND || i.op == ANDI || i.op == OR || i.op == ORI || i.op == XOR || i.op == XORI || i.op == NOR
    ensures exists v :: Truth(i.op, regs[i.rs], Second(i, regs), v) && Delivers(i, regs, regs', v)
  {
    hide Ran, Gets, Result, ExtraOk, Has, BitAnd, BitOr, BitXor;
    RanOk(i, regs, mem, entries, tlb, regs', mem');
    ResultArrives(i, regs, mem, entries, tlb, regs', mem');
    var a, b := regs[i.rs], Second(i, regs);
    LogicResult(i, regs, a, b);
    var v := if i.op == AND || i.op == ANDI then BitAnd(a, b) else if i.op == XOR || i.op == XORI then BitXor(a, b) else BitOr(a, b);
    forall m: bv32 | OneBit(m)
      ensures Has(v, m) <==> if i.op == AND || i.op == ANDI then Has(a, m) && Has(b, m)
                             else if i.op == XOR || i.op == XORI then Has(a, m) != Has(b, m)
                             else Has(a, m) || Has(b, m)
    {
      AndHas(a, b, m);
      OrHas(a, b, m);
      XorHas(a, b, m);
    }
    assert Truth(i.op, a, b, v) && Delivers(i, regs, regs', v);
  }

  lemma LogicResult(i: Instr, regs: Regs, a: CInt, b: CInt)
    requires ExtraOk(i) && a == regs[i.rs] && b == Second(i, regs)
    requires i.op == AND || i.op == ANDI || i.op == OR || i.op == ORI || i.op == XOR || i.op == XORI || i.op == NOR
    ensures Result(i, regs) == if i.op == AND || i.op == ANDI then BitAnd(a, b) else if i.op == XOR || i.op == XORI then BitXor(a, b)
                               else if i.op == NOR then -1 - BitOr(a, b) else BitOr(a, b)
  {
    hide BitAnd, BitOr, BitXor, ShiftLeft, ShiftRight, ShiftAmount, ExtraOk, Unsigned;
  }

  /** The shifts by a register take its value modulo 32, and are otherwise the shifts by a constant. */
  lemma VariableShifts(i: Instr, regs: Regs)
    requires ExtraOk(i) && (i.op == SLLV || i.op == SRAV || i.op == SRLV)
    ensures var fixed := i.(op := if i.op == SLLV then SLL else if i.op == SRAV then SRA else SRL, extra := regs[i.rs] % 32);
            ExtraOk(fixed) && Result(i, regs) == Result(fixed, regs)
  {
    hide ShiftLeft, ShiftRight, Unsigned;
    LowFive(regs[i.rs]);
  }

  lemma LowFive(n: CInt)
    ensures Unsigned(n) % 32 == n % 32
  {
    UnsignedSign(n);
    if n < 0 {
      DivModUnique(n + WORD_LIMIT, 32, n / 32 + 0x800_0000, n % 32);
    }
  }

  // ---- HI and LO ----

  /** MFHI and MFLO deliver HI and LO. */
  lemma MovesFrom(i: Instr, regs: Regs, mem: Memory, entries: seq<Entry>, tlb: bool, regs': Regs, mem': Memory)
    requires Ran(i, regs, mem, entries, tlb, regs', mem') && (i.op == MFHI || i.op == MFLO)
    ensures Gets(regs, regs', i.rd, if i.op == MFHI then regs[HI] else regs[LO])
  {
    hide Ran, Gets, ExtraOk;
    RanOk(i, regs, mem, entries, tlb, regs', mem');
    ResultArrives(i, regs, mem, entries, tlb, regs', mem');
  }

  /** MTHI and MTLO set one of the two and leave the other. */
  lemma MovesTo(i: Instr, regs: Regs, mem: Memory, entries: seq<Entry>, tlb: bool, regs': Regs, mem': Memory)
    requires Ran(i, regs, mem, entries, tlb, regs', mem') && (i.op == MTHI || i.op == MTLO)
    ensures regs'[HI] == (if i.op == MTHI then regs[i.rs] else regs[HI])
    ensures regs'[LO] == (if i.op == MTLO then regs[i.rs] else regs[LO])
  {
    hide ExtraOk, Finished, Trapped, Overflows, Result, Linked, Target, Locate, StorePlace, Stored, LoadResult;
  }

  /** MULT leaves the exact product of two ints in HI and LO, MULTU that of two words. */
  lemma ProductMeans(i: Instr, regs: Regs, mem: Memory, entries: seq<Entry>, tlb: bool, regs': Regs, mem': Memory)
    requires Ran(i, regs, mem, entries, tlb, regs', mem')
    ensures i.op == MULT ==> regs'[HI] as int * WORD_LIMIT + regs'[LO] as int % WORD_LIMIT == regs[i.rs] as int * regs[i.rt] as int
    ensures i.op == MULTU ==> regs'[HI] as int % WORD_LIMIT * WORD_LIMIT + regs'[LO] as int % WORD_LIMIT
                              == (regs[i.rs] as int % WORD_LIMIT) * (regs[i.rt] as int % WORD_LIMIT)
  {
    hide ExtraOk, Double, Product, Finished;
    var a, b := regs[i.rs], regs[i.rt];
    if i.op == MULT {
      SignedProduct(a, b, regs'[HI], regs'[LO]);
    } else if i.op == MULTU {
      UnsignedProduct(a, b, regs'[HI], regs'[LO]);
    }
  }

  lemma SignedProduct(a: CInt, b: CInt, hi: CInt, lo: CInt)
    requires Double(hi, lo) == Product(a, b, true) % DOUBLE_LIMIT
    ensures hi as int * WORD_LIMIT + Unsigned(lo) == a as int * b as int
  {
    UnsignedSign(hi);
    ProductRange(a, b);
    var n := hi as int * WORD_LIMIT + Unsigned(lo);
    DoubleUnique(a as int * b as int, n);
  }

  lemma ProductRange(a: int, b: int)
    requires -INT_LIMIT <= a < INT_LIMIT && -INT_LIMIT <= b < INT_LIMIT
    ensures -0x4000_0000_0000_0000 <= a * b <= 0x4000_0000_0000_0000
  {
    var x, y := if a < 0 then -a else a, if b < 0 then -b else b;
    MulMonotone(x, INT_LIMIT, y);
    MulMonotone(y, INT_LIMIT, INT_LIMIT);
    assert a * b == x * y || a * b == -(x * y);
  }

  lemma DoubleUnique(m: int, n: int)
    requires -0x8000_0000_0000_0000 <= m < 0x8000_0000_0000_0000 && -0x8000_0000_0000_0000 <= n < 0x8000_0000_0000_0000
    requires m % DOUBLE_LIMIT == (if n < 0 then n + DOUBLE_LIMIT else n)
    ensures m == n
  {
  }

  lemma UnsignedProduct(a: CInt, b: CInt, hi: CInt, lo: CInt)
    requires Double(hi, lo) == Product(a, b, false) % DOUBLE_LIMIT
    ensures Unsigned(hi) * WORD_LIMIT + Unsigned(lo) == Unsigned(a) * Unsigned(b)
  {
    hide Unsigned;
    SmallProduct(Unsigned(a), Unsigned(b));
    Small(Unsigned(a) * Unsigned(b));
  }

  lemma SmallProduct(x: nat, y: nat)
    requires x < WORD_LIMIT && y < WORD_LIMIT
    ensures x * y < DOUBLE_LIMIT
  {
    MulMonotone(x, WORD_LIMIT - 1, y);
    assert (WORD_LIMIT - 1) * y < WORD_LIMIT * WORD_LIMIT;
  }

  lemma Small(n: nat)
    requires n < DOUBLE_LIMIT
    ensures n % DOUBLE_LIMIT == n
  {
  }

  function Abs(n: int): nat {
    if n < 0 then -n else n
  }

  lemma AbsProduct(b: int, q: int)
    ensures Abs(b * q) == Abs(b) * Abs(q)
  {
    assert b * q == Abs(b) * Abs(q) || b * q == -(Abs(b) * Abs(q));
  }

  lemma FactorBound(y: nat, z: nat, x: nat)
    requires 1 <= y && y * z <= x <= INT_LIMIT
    ensures z <= INT_LIMIT && (z == INT_LIMIT ==> y == 1 && x == INT_LIMIT)
  {
    MulMonotone(1, y, z);
    if y >= 2 {
      MulMonotone(2, y, z);
    }
  }

  lemma QuotientRange(a: int, b: int, q: int, r: int)
    requires -INT_LIMIT <= a < INT_LIMIT && b != 0 && Divides(a, b, q, r) && !(a == -INT_LIMIT && b == -1)
    ensures -INT_LIMIT <= q < INT_LIMIT
  {
    AbsProduct(b, q);
    if q != 0 {
      MulMonotone(1, Abs(q), Abs(b));
      FactorBound(Abs(b), Abs(q), Abs(a));
    }
  }

  /** DIV and DIVU leave in LO and HI the quotient and the remainder that C defines, of ints or of words, if there is
      a quotient that fits. Dividing by zero they leave zeros. */
  lemma QuotientMeans(i: Instr, regs: Regs, mem: Memory, entries: seq<Entry>, tlb: bool, regs': Regs, mem': Memory)
    requires Ran(i, regs, mem, entries, tlb, regs', mem')
    ensures (i.op == DIV || i.op == DIVU) && regs[i.rt] == 0 ==> regs'[LO] == 0 && regs'[HI] == 0
    ensures i.op == DIV && regs[i.rt] != 0 && !(regs[i.rs] == -INT_LIMIT && regs[i.rt] == -1) ==>
              var a, b, q, r := regs[i.rs] as int, regs[i.rt] as int, regs'[LO] as int, regs'[HI] as int;
              a == b * q + r && (r == 0 || (r < 0) == (a < 0)) && Abs(r) < Abs(b)
    ensures i.op == DIVU && regs[i.rt] != 0 ==>
              var a, b := regs[i.rs] as int % WORD_LIMIT, regs[i.rt] as int % WORD_LIMIT;
              var q, r := regs'[LO] as int % WORD_LIMIT, regs'[HI] as int % WORD_LIMIT;
              a == b * q + r && r < b
  {
    hide ExtraOk, Finished, Trapped, Overflows, Result, Linked, Target, Locate, StorePlace, Stored, LoadResult, Divides, DivRight, DivuRight;
    if (i.op == DIV || i.op == DIVU) && regs[i.rt] == 0 {
      ByZero(regs[i.rs], regs'[HI], regs'[LO]);
    } else if i.op == DIV && !(regs[i.rs] == -INT_LIMIT && regs[i.rt] == -1) {
      SignedQuotient(regs[i.rs], regs[i.rt], regs'[HI], regs'[LO]);
    } else if i.op == DIVU {
      UnsignedQuotient(regs[i.rs], regs[i.rt], regs'[HI], regs'[LO]);
    }
  }

  lemma ByZero(a: CInt, hi: CInt, lo: CInt)
    requires DivRight(a, 0, hi, lo) || DivuRight(a, 0, hi, lo)
    ensures hi == 0 && lo == 0
  {
  }

  lemma SignedQuotient(a: CInt, b: CInt, hi: CInt, lo: CInt)
    requires b != 0 && DivRight(a, b, hi, lo) && !(a == -INT_LIMIT && b == -1)
    ensures a as int == b as int * lo as int + hi && (hi == 0 || (hi < 0) == (a < 0)) && Abs(hi) < Abs(b)
  {
    hide Wrap;
    var q: int :| Divides(a, b, q, hi) && lo == Wrap(q);
    QuotientRange(a, b, q, hi);
    WrapUnsigned(q);
  }

  lemma UnsignedQuotient(a: CInt, b: CInt, hi: CInt, lo: CInt)
    requires b != 0 && DivuRight(a, b, hi, lo)
    ensures Unsigned(a) == Unsigned(b) * Unsigned(lo) + Unsigned(hi) && Unsigned(hi) < Unsigned(b)
  {
    hide Unsigned;
    UnsignedSign(b);
  }

  // ---- branches and jumps ----

  lemma BranchRan(i: Instr, regs: Regs, mem: Memory, entries: seq<Entry>, tlb: bool, regs': Regs, mem': Memory, d: Reg, v: CInt)
    requires Ran(i, regs, mem, entries, tlb, regs', mem') && KindOf(i.op) == Branch
    requires Linked(i, regs) == regs[d := v] || (d == 0 && Linked(i, regs) == regs)
    ensures regs'[NEXT_PC] == Target(i, Linked(i, regs)) && Gets(regs, regs', d, v)
  {
    hide Target, Wrap, ExtraOk, Locate, Overflows, Result, StorePlace, Stored, LoadResult, HiLoRight, KindOf, Linked;
  }

  /** The conditional branches and their conditions. */
  predicate Decides(op: Op, a: CInt, b: CInt) {
    match op
    case BEQ => a == b
    case BNE => a != b
    case BGEZ => a >= 0
    case BGEZAL => a >= 0
    case BLTZ => a < 0
    case BLTZAL => a < 0
    case BGTZ => a > 0
    case _ => a <= 0
  }

  /** A conditional branch goes on, after its delay slot, at the address extra words beyond the delay slot if its
      condition holds, and behind the delay slot if not. The linking ones put that address into r31 first, whether
      they branch or not, and so test it if r31 is their operand. */
  lemma BranchMeans(i: Instr, regs: Regs, mem: Memory, entries: seq<Entry>, tlb: bool, regs': Regs, mem': Memory, back: CInt)
    requires Ran(i, regs, mem, entries, tlb, regs', mem') && SameWord(back, regs[NEXT_PC] as int + 4)
    requires i.op in {BEQ, BNE, BGEZ, BGEZAL, BLTZ, BLTZAL, BGTZ, BLEZ}
    ensures var links := i.op == BGEZAL || i.op == BLTZAL;
            && (if links then Gets(regs, regs', 31, back) else Gets(regs, regs', 0, 0))
            && var a := if links && i.rs == 31 then back else regs[i.rs];
               if Decides(i.op, a, regs[i.rt]) then SameWord(regs'[NEXT_PC], regs[NEXT_PC] as int + 4 * i.extra)
               else regs'[NEXT_PC] == back
  {
    hide Ran, Linked, Target, Gets, SameWord;
    RanOk(i, regs, mem, entries, tlb, regs', mem');
    BranchTarget(i, regs, back);
    if i.op == BGEZAL || i.op == BLTZAL {
      BranchRan(i, regs, mem, entries, tlb, regs', mem', 31, back);
    } else {
      BranchRan(i, regs, mem, entries, tlb, regs', mem', 0, 0);
    }
  }

  lemma BranchTarget(i: Instr, regs: Regs, back: CInt)
    requires SameWord(back, regs[NEXT_PC] as int + 4)
    requires i.op in {BEQ, BNE, BGEZ, BGEZAL, BLTZ, BLTZAL, BGTZ, BLEZ}
    ensures var links := i.op == BGEZAL || i.op == BLTZAL;
            && Linked(i, regs) == (if links then regs[31 := back] else regs)
            && var a, t := if links && i.rs == 31 then back else regs[i.rs], Target(i, Linked(i, regs));
               if Decides(i.op, a, regs[i.rt]) then SameWord(t, regs[NEXT_PC] as int + 4 * i.extra) else t == back
  {
    hide Wrap, SameWord, Unsigned;
    WrapSame(back, regs[NEXT_PC] as int + 4);
    WrapIsSame(regs[NEXT_PC] as int + i.extra as int * 4);
  }

  /** J and JAL go to the word with this index in the 256 MB around the delay slot, JR and JALR to the address in a
      register, after JALR has put the return address into its other register. */
  lemma JumpMeans(i: Instr, regs: Regs, mem: Memory, entries: seq<Entry>, tlb: bool, regs': Regs, mem': Memory, back: CInt)
    requires Ran(i, regs, mem, entries, tlb, regs', mem') && SameWord(back, regs[NEXT_PC] as int + 4)
    requires i.op == J || i.op == JAL || i.op == JR || i.op == JALR
    ensures (i.op == JAL ==> Gets(regs, regs', 31, back)) && (i.op == J || i.op == JR ==> Gets(regs, regs', 0, 0))
    ensures i.op == JALR ==> Gets(regs, regs', i.rd, back)
    ensures i.op == JR ==> regs'[NEXT_PC] == regs[i.rs]
    ensures i.op == JALR ==> regs'[NEXT_PC] == if i.rs == i.rd then back else regs[i.rs]
    ensures i.op == J || i.op == JAL ==>
              && Unsigned(regs'[NEXT_PC]) / 0x1000_0000 == Unsigned(back) / 0x1000_0000
              && Unsigned(regs'[NEXT_PC]) % 0x1000_0000 == 4 * i.extra
  {
    hide Ran, Linked, Target, Gets, SameWord, Unsigned, ExtraOk;
    RanOk(i, regs, mem, entries, tlb, regs', mem');
    JumpPlaces(i, regs, back);
    if i.op == JAL || i.op == JALR {
      BranchRan(i, regs, mem, entries, tlb, regs', mem', if i.op == JAL then 31 else i.rd, back);
    } else {
      BranchRan(i, regs, mem, entries, tlb, regs', mem', 0, 0);
    }
  }

  lemma JumpPlaces(i: Instr, regs: Regs, back: CInt)
    requires SameWord(back, regs[NEXT_PC] as int + 4) && ExtraOk(i)
    requires i.op == J || i.op == JAL || i.op == JR || i.op == JALR
    ensures Linked(i, regs) == if i.op == JAL then regs[31 := back] else if i.op == JALR then regs[i.rd := back] else regs
    ensures var t := Target(i, Linked(i, regs));
            if i.op == JR then t == regs[i.rs]
            else if i.op == JALR then t == if i.rs == i.rd then back else regs[i.rs]
            else Unsigned(t) / 0x1000_0000 == Unsigned(back) / 0x1000_0000 && Unsigned(t) % 0x1000_0000 == 4 * i.extra
  {
    hide Wrap, SameWord, Unsigned, Taken;
    WrapSame(back, regs[NEXT_PC] as int + 4);
    if i.op == J || i.op == JAL {
      InRegion(back, i.extra);
    }
  }

  lemma InRegion(back: CInt, index: nat)
    requires index < 0x400_0000
    ensures var t := Wrap(Unsigned(back) - Unsigned(back) % 0x1000_0000 + index as int * 4);
            Unsigned(t) / 0x1000_0000 == Unsigned(back) / 0x1000_0000 && Unsigned(t) % 0x1000_0000 == 4 * index
  {
    hide Wrap, Unsigned;
    JumpTarget(Unsigned(back), index);
    WrapUnsigned(Unsigned(back) - Unsigned(back) % 0x1000_0000 + index * 4);
  }

  lemma JumpTarget(back: nat, index: nat)
    requires back < WORD_LIMIT && index < 0x400_0000
    ensures var t := back - back % 0x1000_0000 + index * 4;
            0 <= t < WORD_LIMIT && t / 0x1000_0000 == back / 0x1000_0000 && t % 0x1000_0000 == 4 * index
  {
    var q := back / 0x1000_0000;
    assert back == 0x1000_0000 * q + back % 0x1000_0000;
    DivModUnique(0x1000_0000 * q + index * 4, 0x1000_0000, q, index * 4);
  }

  // ---- exceptions ----

  /** When an instruction traps and why: SYSCALL always, an unknown one always, ADD, ADDI and SUB when the true result is
      no int, and otherwise only loads and stores. */
  lemma TrapsMean(i: Instr, regs: Regs, mem: Memory, entries: seq<Entry>, tlb: bool, ex: Exception, regs': Regs, mem': Memory)
    requires 0 <= regs[LOAD] < 32 && ExtraOk(i) && Outcome(i, regs, mem, entries, tlb, ex, regs', mem')
    ensures i.op == SYSCALL ==> ex == SyscallException
    ensures KindOf(i.op) == Trap && i.op != SYSCALL ==> ex == IllegalInstrException
    ensures var a, b := regs[i.rs] as int, regs[i.rt] as int;
            && (i.op == ADD ==> ex == if -INT_LIMIT <= a + b < INT_LIMIT then NoException else OverflowException)
            && (i.op == ADDI ==> ex == if -INT_LIMIT <= a + i.extra < INT_LIMIT then NoException else OverflowException)
            && (i.op == SUB ==> ex == if -INT_LIMIT <= a - b < INT_LIMIT then NoException else OverflowException)
    ensures KindOf(i.op) == Arith && i.op != ADD && i.op != ADDI && i.op != SUB ==> ex == NoException
    ensures KindOf(i.op) == Branch || KindOf(i.op) == HiLo ==> ex == NoException
  {
    hide Result, Finished, Trapped, Linked, Target, HiLoDone, Locate, StorePlace, Stored, LoadResult, ReadValue, ExtraOk, SameSign, Wrap;
    if i.op == ADD || i.op == ADDI || i.op == SUB {
      OverflowIsExact(i, regs);
    }
  }

  /** Why an access traps: the address is not aligned, its page is not mapped, it may not be written, or it is mapped
      to no frame. */
  lemma FaultsMean(entries: seq<Entry>, addr: CInt, size: nat, writing: bool)
    requires size == 1 || size == 2 || size == 4
    ensures var page, p := addr as int % WORD_LIMIT / PAGE_SIZE, Locate(entries, false, addr, size, writing);
            if addr % size != 0 || page >= |entries| then p == Fault(AddressErrorException)
            else if !entries[page].valid then p == Fault(PageFaultException)
            else if entries[page].readOnly && writing then p == Fault(ReadOnlyException)
            else if !(0 <= entries[page].physicalPage < NUM_PHYS_PAGES) then p == Fault(BusErrorException)
            else p.At? && p.entry == page && p.address / PAGE_SIZE == entries[page].physicalPage
                 && p.address % PAGE_SIZE == addr as int % WORD_LIMIT % PAGE_SIZE
  {
    hide Offset;
    var page := PageOf(addr);
    if page < |entries| && 0 <= entries[page].physicalPage {
      DivModUnique(entries[page].physicalPage * PAGE_SIZE + Offset(addr), PAGE_SIZE, entries[page].physicalPage, Offset(addr));
      OffsetIs(addr);
    }
    DivisibleBy(addr);
  }

  lemma OffsetIs(addr: CInt)
    ensures Offset(addr) == addr as int % WORD_LIMIT % PAGE_SIZE
  {
  }

  lemma DivisibleBy(n: int)
    ensures n % 1 == 0
  {
  }

  /** Through a TLB the place is the one that a page table would give that has the first valid entry for the page where
      the page number points; with no such entry there is a page fault. */
  lemma TlbMeans(tlb: seq<Entry>, table: seq<Entry>, addr: CInt, size: nat, writing: bool, k: nat)
    requires size == 1 || size == 2 || size == 4
    requires k < |tlb| && tlb[k].valid && tlb[k].virtualPage == PageOf(addr)
    requires forall j :: 0 <= j < k ==> !(tlb[j].valid && tlb[j].virtualPage == PageOf(addr))
    requires PageOf(addr) < |table| && table[PageOf(addr)] == tlb[k]
    ensures var p, q := Locate(tlb, true, addr, size, writing), Locate(table, false, addr, size, writing);
            if q.At? then p == At(k, q.address) else p == q
  {
    hide Offset, PageOf;
    assert TlbIndex(tlb, PageOf(addr)) == k;
  }
}
