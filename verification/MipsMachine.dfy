/** machine/mipssim.cc and machine.cc: the simulated processor, its registers and memory changed in place. The
    kernel's exception handler is not part of the step: a step that traps ends where the handler would be
    called. */
module Machines {
  import opened Layout
  import opened Multiplication
  import opened Translation
  import opened Instructions
  import opened Operations

  /** The registers when the handler is entered: nothing has happened but the completion of a pending load. */
  function Trapped(regs: Regs, badVAddr: CInt): Regs
    requires 0 <= regs[LOAD] < 32
  {
    Loaded(regs[BAD_VADDR := badVAddr], 0, 0)
  }

  /** The registers after an instruction that went through. */
  function Finished(regs: Regs, pcAfter: CInt, nextReg: Reg, nextValue: CInt): Regs
    requires 0 <= regs[LOAD] < 32
  {
    Loaded(regs, nextReg, nextValue)[PREV_PC := regs[PC]][PC := regs[NEXT_PC]][NEXT_PC := pcAfter]
  }

  function Sequential(regs: Regs): CInt {
    Wrap(regs[NEXT_PC] as int + 4)
  }

  /** What a partial load merges into: the register as the pending load will leave it. */
  function Prior(regs: Regs, r: Reg): CInt {
    if regs[LOAD] == r then regs[LOAD_VALUE] else regs[r]
  }

  function WhyNot(p: Place): Exception {
    if p.Fault? then p.which else NoException
  }

  /** Where a store writes; a partial store first reads the word it will write. */
  function StorePlace(i: Instr, regs: Regs, entries: seq<Entry>, tlb: bool): (p: Place)
    ensures p.At? ==> p.address + SizeOf(i.op) <= MEMORY_SIZE
    ensures p.Fault? ==> p.which != NoException
  {
    var a := AccessAddress(i, regs);
    var read := Locate(entries, tlb, a, SizeOf(i.op), false);
    if Partial(i.op) && read.Fault? then read else Locate(entries, tlb, a, SizeOf(i.op), true)
  }

  function StoreResult(i: Instr, regs: Regs, word: CInt): CInt {
    match i.op
    case SWL => StoreLeft(word, regs[i.rt], ByteOfWord(i, regs))
    case SWR => StoreRight(word, regs[i.rt], ByteOfWord(i, regs))
    case _ => regs[i.rt]
  }

  function Stored(i: Instr, regs: Regs, mem: Memory, at: nat): Memory
    requires at + SizeOf(i.op) <= MEMORY_SIZE
  {
    WriteValue(mem, at, SizeOf(i.op), StoreResult(i, regs, ReadValue(mem, at, SizeOf(i.op))))
  }

  ghost predicate HiLoDone(i: Instr, regs: Regs, hi: CInt, lo: CInt, regs': Regs)
    requires 0 <= regs[LOAD] < 32
  {
    HiLoRight(i, regs, hi, lo) && regs' == Finished(regs[HI := hi][LO := lo], Sequential(regs), 0, 0)
  }

  /** Everything an instruction does to registers and memory, and the exception it raises. */
  ghost predicate Outcome(i: Instr, regs: Regs, mem: Memory, entries: seq<Entry>, tlb: bool,
                          ex: Exception, regs': Regs, mem': Memory)
    requires 0 <= regs[LOAD] < 32 && ExtraOk(i)
  {
    match KindOf(i.op)
    case Arith =>
      && mem' == mem
      && (if Overflows(i, regs) then ex == OverflowException && regs' == Trapped(regs, 0)
          else ex == NoException && regs' == Finished(regs[Dest(i) := Result(i, regs)], Sequential(regs), 0, 0))
    case Branch =>
      mem' == mem && ex == NoException && regs' == Finished(Linked(i, regs), Target(i, Linked(i, regs)), 0, 0)
    case HiLo =>
      mem' == mem && ex == NoException && HiLoDone(i, regs, regs'[HI], regs'[LO], regs')
    case Trap =>
      mem' == mem && ex == (if i.op == SYSCALL then SyscallException else IllegalInstrException) && regs' == Trapped(regs, 0)
    case Load =>
      var p := Locate(entries, tlb, AccessAddress(i, regs), SizeOf(i.op), false);
      && mem' == mem && ex == WhyNot(p)
      && regs' == if p.Fault? then Trapped(regs, AccessAddress(i, regs))
                  else Finished(regs, Sequential(regs), i.rt,
                                LoadResult(i.op, ByteOfWord(i, regs), ReadValue(mem, p.address, SizeOf(i.op)), Prior(regs, i.rt)))
    case Store =>
      var p := StorePlace(i, regs, entries, tlb);
      && ex == WhyNot(p)
      && (if p.Fault? then mem' == mem && regs' == Trapped(regs, AccessAddress(i, regs))
          else mem' == Stored(i, regs, mem, p.address) && regs' == Finished(regs, Sequential(regs), 0, 0))
  }

  /** The page table or TLB after one access. */
  function Accessed(entries: seq<Entry>, tlb: bool, addr: CInt, size: nat, writing: bool): (after: seq<Entry>)
    requires size == 1 || size == 2 || size == 4
    ensures |after| == |entries|
  {
    var p := Locate(entries, tlb, addr, size, writing);
    if p.At? then Touched(entries, p.entry, writing) else entries
  }

  /** And after an instruction; a partial store reads first. */
  function EntriesAfter(i: Instr, regs: Regs, entries: seq<Entry>, tlb: bool): (after: seq<Entry>)
    ensures |after| == |entries|
  {
    var a := AccessAddress(i, regs);
    match KindOf(i.op)
    case Load => Accessed(entries, tlb, a, SizeOf(i.op), false)
    case Store =>
      if !Partial(i.op) then Accessed(entries, tlb, a, SizeOf(i.op), true)
      else if Locate(entries, tlb, a, SizeOf(i.op), false).Fault? then entries
      else Accessed(Accessed(entries, tlb, a, SizeOf(i.op), false), tlb, a, SizeOf(i.op), true)
    case _ => entries
  }

  /** The instruction reads, or writes, in the page of entry k. */
  predicate Reads(i: Instr, regs: Regs, entries: seq<Entry>, tlb: bool, k: nat) {
    (KindOf(i.op) == Load || (KindOf(i.op) == Store && Partial(i.op))) &&
    var p := Locate(entries, tlb, AccessAddress(i, regs), SizeOf(i.op), false);
    p.At? && p.entry == k
  }

  predicate Writes(i: Instr, regs: Regs, entries: seq<Entry>, tlb: bool, k: nat) {
    KindOf(i.op) == Store &&
    var p := StorePlace(i, regs, entries, tlb);
    p.At? && p.entry == k
  }

  /** A page is dirty exactly when it was or has been written, in use exactly when it was or has been read or
      written, and nothing else in its entry changes. */
  lemma PagesMarked(i: Instr, regs: Regs, entries: seq<Entry>, tlb: bool, k: nat)
    requires k < |entries|
    ensures var e, e' := entries[k], EntriesAfter(i, regs, entries, tlb)[k];
            && (e'.dirty <==> e.dirty || Writes(i, regs, entries, tlb, k))
            && (e'.use <==> e.use || Reads(i, regs, entries, tlb, k) || Writes(i, regs, entries, tlb, k))
            && e' == e.(use := e'.use, dirty := e'.dirty)
  {
    hide Locate, AccessAddress, SameMapping;
    var a := AccessAddress(i, regs);
    if Partial(i.op) {
      ReadKeepsPlaces(entries, tlb, a);
    }
  }

  lemma EntriesMapAlike(i: Instr, regs: Regs, entries: seq<Entry>, tlb: bool)
    ensures SameMapping(entries, EntriesAfter(i, regs, entries, tlb))
  {
    hide EntriesAfter, Reads, Writes;
    forall k | 0 <= k < |entries|
      ensures var e, e' := entries[k], EntriesAfter(i, regs, entries, tlb)[k];
              e.virtualPage == e'.virtualPage && e.physicalPage == e'.physicalPage && e.valid == e'.valid && e.readOnly == e'.readOnly
    {
      PagesMarked(i, regs, entries, tlb, k);
    }
  }

  /** Reading a word does not change where a write of it goes. */
  lemma ReadKeepsPlaces(entries: seq<Entry>, tlb: bool, addr: CInt)
    ensures var p := Locate(entries, tlb, addr, 4, false);
            p.At? ==> Locate(Touched(entries, p.entry, false), tlb, addr, 4, true) == Locate(entries, tlb, addr, 4, true)
  {
    var p := Locate(entries, tlb, addr, 4, false);
    if p.At? {
      MapsAlike(Touched(entries, p.entry, false), entries, tlb, addr, 4, true);
    }
  }

  lemma PartialStores(op: Op)
    requires op == SWL || op == SWR
    ensures SizeOf(op) == 4 && Partial(op) && KindOf(op) == Store
  {
  }

  lemma SamePlaces(entries: seq<Entry>, tlb: bool, addr: CInt)
    ensures var p, q := Locate(entries, tlb, addr, 4, false), Locate(entries, tlb, addr, 4, true);
            p.At? && q.At? ==> p == q
  {
  }

  class Machine {
    const registers: array<CInt>
    const mainMemory: array<byte>
    var entries: seq<Entry> // the page table in use, or the TLB
    const tlb: bool

    ghost predicate Shaped()
      reads this
    {
      registers.Length == NUM_TOTAL_REGS && mainMemory.Length == MEMORY_SIZE && registers as object != mainMemory
    }

    /** R0 is zero and LoadReg names a general register. */
    ghost predicate Valid()
      reads this, registers
    {
      Shaped() && registers[0] == 0 && 0 <= registers[LOAD] < 32
    }

    ghost function Registers(): Regs
      requires Shaped()
      reads this, registers
    {
      registers[..]
    }

    ghost function MemoryBytes(): Memory
      requires Shaped()
      reads this, mainMemory
    {
      mainMemory[..]
    }

    constructor (tlb: bool)
      ensures Valid() && fresh(registers) && fresh(mainMemory) && this.tlb == tlb
    {
      registers := new CInt[NUM_TOTAL_REGS](_ => 0);
      mainMemory := new byte[MEMORY_SIZE](_ => 0);
      entries := [];
      this.tlb := tlb;
    }

    method DelayedLoad(nextReg: Reg, nextValue: CInt)
      requires Shaped() && 0 <= registers[LOAD] < 32
      modifies registers
      ensures Registers() == Loaded(old(Registers()), nextReg, nextValue)
      ensures Valid()
    {
      registers[registers[LOAD]] := registers[LOAD_VALUE];
      registers[LOAD] := nextReg;
      registers[LOAD_VALUE] := nextValue;
      registers[0] := 0;
    }

    /** RaiseException, up to the call of the kernel's handler. */
    method RaiseException(badVAddr: CInt)
      requires Valid()
      modifies registers
      ensures Valid() && Registers() == Trapped(old(Registers()), badVAddr)
    {
      registers[BAD_VADDR] := badVAddr;
      DelayedLoad(0, 0);
    }

    /** Translate: finds the entry, checks it, and sets its use and dirty bits. */
    method Translate(virtAddr: CInt, size: nat, writing: bool) returns (ex: Exception, physAddr: nat)
      requires size == 1 || size == 2 || size == 4
      modifies this`entries
      ensures var p := Locate(old(entries), tlb, virtAddr, size, writing);
              && ex == WhyNot(p)
              && (p.Fault? ==> entries == old(entries))
              && (p.At? ==> physAddr == p.address && entries == Touched(old(entries), p.entry, writing))
    {
      physAddr := 0;
      if (size == 4 && virtAddr % 4 != 0) || (size == 2 && virtAddr % 2 != 0) {
        return AddressErrorException, 0;
      }
      var vpn := PageOf(virtAddr);
      var index := vpn;
      if !tlb {
        if vpn >= |entries| {
          return AddressErrorException, 0;
        } else if !entries[vpn].valid {
          return PageFaultException, 0;
        }
      } else {
        index := SearchTlb(vpn);
        if index == |entries| {
          return PageFaultException, 0;
        }
      }
      var entry := entries[index];
      if entry.readOnly && writing {
        return ReadOnlyException, 0;
      }
      if entry.physicalPage < 0 || entry.physicalPage >= NUM_PHYS_PAGES {
        return BusErrorException, 0;
      }
      entry := entry.(use := true);
      if writing {
        entry := entry.(dirty := true);
      }
      entries := entries[index := entry];
      physAddr := entry.physicalPage * PAGE_SIZE + Offset(virtAddr);
      OffsetFits(virtAddr, size);
      assert physAddr + size <= MEMORY_SIZE;
      ex := NoException;
    }

    method SearchTlb(vpn: nat) returns (i: nat)
      ensures i == TlbIndex(entries, vpn)
    {
      i := 0;
      while i < |entries|
        invariant i <= |entries|
        invariant forall j :: 0 <= j < i ==> !(entries[j].valid && entries[j].virtualPage == vpn)
      {
        if entries[i].valid && entries[i].virtualPage == vpn {
          return;
        }
        i := i + 1;
      }
    }

    method ReadMem(addr: CInt, size: nat) returns (ex: Exception, value: CInt)
      requires Valid() && (size == 1 || size == 2 || size == 4)
      modifies this`entries, registers
      ensures Valid()
      ensures var p := Locate(old(entries), tlb, addr, size, false);
              && ex == WhyNot(p)
              && (p.Fault? ==> entries == old(entries) && Registers() == Trapped(old(Registers()), addr))
              && (p.At? ==> entries == Touched(old(entries), p.entry, false) && Registers() == old(Registers())
                            && value == ReadValue(MemoryBytes(), p.address, size))
    {
      hide Locate, Trapped;
      value := 0;
      var at;
      ex, at := Translate(addr, size, false);
      if ex != NoException {
        RaiseException(addr);
        return;
      }
      if size == 1 {
        value := if mainMemory[at] < 128 then mainMemory[at] as int else mainMemory[at] as int - 256;
      } else if size == 2 {
        value := mainMemory[at] as int + 256 * mainMemory[at + 1] as int;
      } else {
        value := DecodeInt(mainMemory[at..at + 4]);
        assert mainMemory[at..at + 4] == mainMemory[..][at..at + 4];
      }
    }

    method WriteMem(addr: CInt, size: nat, value: CInt) returns (ex: Exception)
      requires Valid() && (size == 1 || size == 2 || size == 4)
      modifies this`entries, registers, mainMemory
      ensures Valid()
      ensures var p := Locate(old(entries), tlb, addr, size, true);
              && ex == WhyNot(p)
              && (p.Fault? ==> entries == old(entries) && Registers() == Trapped(old(Registers()), addr)
                               && MemoryBytes() == old(MemoryBytes()))
              && (p.At? ==> entries == Touched(old(entries), p.entry, true) && Registers() == old(Registers())
                            && MemoryBytes() == WriteValue(old(MemoryBytes()), p.address, size, value))
    {
      hide Locate, Trapped, EncodeInt;
      var at;
      ex, at := Translate(addr, size, true);
      if ex != NoException {
        RaiseException(addr);
        return;
      }
      var bytes := EncodeInt(value);
      ghost var before := MemoryBytes();
      assert registers[..] == old(registers[..]);
      forall k | 0 <= k < size {
        mainMemory[at + k] := bytes[k];
      }
      assert MemoryBytes() == WriteValue(before, at, size, value);
    }

    /** Instructions that compute into one register; three of them may trap first. */
    method ExecuteArith(i: Instr) returns (ex: Exception)
      requires Valid() && ExtraOk(i) && KindOf(i.op) == Arith
      modifies registers
      ensures Shaped() && 0 <= registers[LOAD] < 32
      ensures ex == if Overflows(i, old(Registers())) then OverflowException else NoException
      ensures Registers() == if Overflows(i, old(Registers())) then Trapped(old(Registers()), 0)
                             else old(Registers())[Dest(i) := Result(i, old(Registers()))]
    {
      hide Wrap, BitAnd, BitOr, BitXor, BitNot, ShiftLeft, ShiftRight, ShiftAmount, Pow2, Unsigned, Trapped;
      ex := NoException;
      var a, b, x := registers[i.rs], registers[i.rt], i.extra;
      match i.op {
        case ADD =>
          var sum := Wrap(a as int + b);
          if SameSign(a, b) && !SameSign(a, sum) {
            RaiseException(0);
            return OverflowException;
          }
          registers[i.rd] := sum;
        case ADDI =>
          var sum := Wrap(a as int + x);
          if SameSign(a, x) && !SameSign(x, sum) {
            RaiseException(0);
            return OverflowException;
          }
          registers[i.rt] := sum;
        case SUB =>
          var diff := Wrap(a as int - b);
          if !SameSign(a, b) && !SameSign(a, diff) {
            RaiseException(0);
            return OverflowException;
          }
          registers[i.rd] := diff;
        case ADDIU => registers[i.rt] := Wrap(a as int + x);
        case ADDU => registers[i.rd] := Wrap(a as int + b);
        case AND => registers[i.rd] := BitAnd(a, b);
        case ANDI => registers[i.rt] := BitAnd(a, x % 0x1_0000);
        case LUI => registers[i.rt] := Wrap(x as int * 0x1_0000);
        case MFHI => registers[i.rd] := registers[HI];
        case MFLO => registers[i.rd] := registers[LO];
        case NOR => registers[i.rd] := BitNot(BitOr(a, b));
        case OR => registers[i.rd] := BitOr(a, b);
        case ORI => registers[i.rt] := BitOr(a, x % 0x1_0000);
        case SLL => registers[i.rd] := ShiftLeft(b, x);
        case SLLV => registers[i.rd] := ShiftLeft(b, ShiftAmount(a));
        case SLT => registers[i.rd] := if a < b then 1 else 0;
        case SLTI => registers[i.rt] := if a < x then 1 else 0;
        case SLTIU => registers[i.rt] := if Unsigned(a) < Unsigned(x) then 1 else 0;
        case SLTU => registers[i.rd] := if Unsigned(a) < Unsigned(b) then 1 else 0;
        case SRA => registers[i.rd] := ShiftRight(b, x);
        case SRAV => registers[i.rd] := ShiftRight(b, ShiftAmount(a));
        case SRL => registers[i.rd] := ShiftRight(b, x);
        case SRLV => registers[i.rd] := ShiftRight(b, ShiftAmount(a));
        case SUBU => registers[i.rd] := Wrap(a as int - b);
        case XOR => registers[i.rd] := BitXor(a, b);
        case XORI => registers[i.rt] := BitXor(a, x % 0x1_0000);
      }
    }

    /** Branches and jumps: the link register, and where to go after the delay slot. */
    method ExecuteBranch(i: Instr) returns (pcAfter: CInt)
      requires Valid() && ExtraOk(i) && KindOf(i.op) == Branch
      modifies registers
      ensures Shaped() && 0 <= registers[LOAD] < 32
      ensures Registers() == Linked(i, old(Registers()))
      ensures pcAfter == Target(i, Linked(i, old(Registers())))
    {
      hide Wrap, Unsigned;
      pcAfter := Wrap(registers[NEXT_PC] as int + 4);
      var away := Wrap(registers[NEXT_PC] as int + i.extra as int * 4);
      match i.op {
        case BEQ => if registers[i.rs] == registers[i.rt] { pcAfter := away; }
        case BNE => if registers[i.rs] != registers[i.rt] { pcAfter := away; }
        case BGEZ => if registers[i.rs] >= 0 { pcAfter := away; }
        case BLTZ => if registers[i.rs] < 0 { pcAfter := away; }
        case BGTZ => if registers[i.rs] > 0 { pcAfter := away; }
        case BLEZ => if registers[i.rs] <= 0 { pcAfter := away; }
        case BGEZAL =>
          registers[RETURN_ADDR] := pcAfter;
          if registers[i.rs] >= 0 { pcAfter := away; }
        case BLTZAL =>
          registers[RETURN_ADDR] := pcAfter;
          if registers[i.rs] < 0 { pcAfter := away; }
        case J => pcAfter := Wrap(Unsigned(pcAfter) - Unsigned(pcAfter) % 0x1000_0000 + i.extra as int * 4);
        case JAL =>
          registers[RETURN_ADDR] := pcAfter;
          pcAfter := Wrap(Unsigned(pcAfter) - Unsigned(pcAfter) % 0x1000_0000 + i.extra as int * 4);
        case JR => pcAfter := registers[i.rs];
        case JALR =>
          registers[i.rd] := pcAfter;
          pcAfter := registers[i.rs];
      }
    }

    /** C's / and %, for a divisor that is not zero. */
    method Divide(a: int, b: int) returns (q: int, r: int)
      requires b != 0
      ensures Divides(a, b, q, r)
    {
      var m, n := if a < 0 then -a else a, if b < 0 then -b else b;
      q, r := m / n, m % n;
      assert m == n * q + r;
      if (a < 0) != (b < 0) {
        assert n * q == (-n) * (-q);
        q := -q;
      }
      if a < 0 {
        assert (-b) * q == -(b * q);
        r := -r;
      }
    }

    method ExecuteHiLo(i: Instr)
      requires Valid() && KindOf(i.op) == HiLo
      modifies registers
      ensures Shaped() && 0 <= registers[LOAD] < 32
      ensures HiLoRight(i, old(Registers()), registers[HI], registers[LO])
      ensures Registers() == old(Registers())[HI := registers[HI]][LO := registers[LO]]
    {
      hide Wrap, Unsigned, Double, Product, Divides;
      var a, b := registers[i.rs], registers[i.rt];
      match i.op {
        case MTHI => registers[HI] := a;
        case MTLO => registers[LO] := a;
        case MULT => registers[HI], registers[LO] := Mult(a, b, true);
        case MULTU => registers[HI], registers[LO] := Mult(a, b, false);
        case DIV => registers[HI], registers[LO] := DivideSigned(a, b);
        case DIVU => registers[HI], registers[LO] := DivideUnsigned(a, b);
      }
    }

    method DivideSigned(a: CInt, b: CInt) returns (hi: CInt, lo: CInt)
      ensures DivRight(a, b, hi, lo)
    {
      if b == 0 {
        return 0, 0;
      }
      var q, r := Divide(a, b);
      hi, lo := r, Wrap(q);
    }

    method DivideUnsigned(a: CInt, b: CInt) returns (hi: CInt, lo: CInt)
      ensures DivuRight(a, b, hi, lo)
    {
      hide Unsigned, Wrap, Divides;
      if b == 0 {
        return 0, 0;
      }
      UnsignedZero(b);
      var q, r := Divide(Unsigned(a), Unsigned(b));
      UnsignedQuotient(Unsigned(a), Unsigned(b), q, r);
      hi, lo := Wrap(r), Wrap(q);
      SmallWrap(q);
      SmallWrap(r);
    }

    lemma UnsignedZero(n: CInt)
      ensures Unsigned(n) == 0 <==> n == 0
    {
    }

    lemma SmallWrap(n: nat)
      requires n < WORD_LIMIT
      ensures Unsigned(Wrap(n)) == n
    {
    }

    lemma UnsignedQuotient(a: nat, b: nat, q: int, r: int)
      requires 0 < b < WORD_LIMIT && a < WORD_LIMIT && Divides(a, b, q, r)
      ensures 0 <= q < WORD_LIMIT && 0 <= r < WORD_LIMIT
    {
      QuotientSign(b, q);
    }

    lemma QuotientSign(b: nat, q: int)
      requires b > 0
      ensures q < 0 ==> b as int * q <= -(b as int)
      ensures q >= 0 ==> q <= b * q
    {
      if q < 0 {
        MulMonotone(1, -q, b);
        assert b * (-q) == -(b * q);
      } else {
        MulMonotone(1, b, q);
      }
    }

    method ExecuteLoad(i: Instr) returns (ex: Exception, nextValue: CInt)
      requires Valid() && KindOf(i.op) == Load
      modifies this`entries, registers
      ensures Valid() && entries == EntriesAfter(i, old(Registers()), old(entries), tlb)
      ensures var regs := old(Registers());
              var p := Locate(old(entries), tlb, AccessAddress(i, regs), SizeOf(i.op), false);
              && ex == WhyNot(p)
              && (p.Fault? ==> Registers() == Trapped(regs, AccessAddress(i, regs)))
              && (p.At? ==>
                    && Registers() == regs
                    && nextValue == LoadResult(i.op, ByteOfWord(i, regs), ReadValue(MemoryBytes(), p.address, SizeOf(i.op)), Prior(regs, i.rt)))
    {
      hide Locate, Trapped, ReadValue, MergeLeft, MergeRight, Wrap;
      var tmp, byteOf := EffectiveAddress(i, registers[..]), ByteOfWord(i, registers[..]);
      var value;
      nextValue := 0;
      ex, value := ReadMem(if Partial(i.op) then tmp - byteOf else tmp, SizeOf(i.op));
      if ex != NoException {
        return;
      }
      var prior := if registers[LOAD] == i.rt then registers[LOAD_VALUE] else registers[i.rt];
      match i.op {
        case LB => nextValue := if value % P8 >= 0x80 then value % P8 - P8 else value % P8;
        case LBU => nextValue := value % P8;
        case LH => nextValue := if value % P16 >= 0x8000 then value % P16 - P16 else value % P16;
        case LHU => nextValue := value % P16;
        case LW => nextValue := value;
        case LWL => nextValue := MergeLeft(prior, value, byteOf);
        case LWR => nextValue := MergeRight(prior, value, byteOf);
      }
    }

    method ExecuteStore(i: Instr) returns (ex: Exception)
      requires Valid() && KindOf(i.op) == Store
      modifies this`entries, registers, mainMemory
      ensures Valid() && entries == EntriesAfter(i, old(Registers()), old(entries), tlb)
      ensures var regs := old(Registers());
              var p := StorePlace(i, regs, old(entries), tlb);
              && ex == WhyNot(p)
              && (p.Fault? ==> Registers() == Trapped(regs, AccessAddress(i, regs)) && MemoryBytes() == old(MemoryBytes()))
              && (p.At? ==> Registers() == regs && MemoryBytes() == Stored(i, regs, old(MemoryBytes()), p.address))
    {
      hide Locate, Trapped, ReadValue, WriteValue, StoreLeft, StoreRight, Wrap;
      if Partial(i.op) {
        ex := ExecutePartialStore(i);
      } else {
        var tmp := EffectiveAddress(i, registers[..]);
        ex := WriteMem(tmp, SizeOf(i.op), registers[i.rt]);
      }
    }

    /** SWL and SWR read the word they will change first. */
    method ExecutePartialStore(i: Instr) returns (ex: Exception)
      requires Valid() && (i.op == SWL || i.op == SWR)
      modifies this`entries, registers, mainMemory
      ensures Valid() && entries == EntriesAfter(i, old(Registers()), old(entries), tlb)
      ensures var regs := old(Registers());
              var p := StorePlace(i, regs, old(entries), tlb);
              && ex == WhyNot(p)
              && (p.Fault? ==> Registers() == Trapped(regs, AccessAddress(i, regs)) && MemoryBytes() == old(MemoryBytes()))
              && (p.At? ==> Registers() == regs && MemoryBytes() == Stored(i, regs, old(MemoryBytes()), p.address))
    {
      hide Locate, Trapped, ReadValue, WriteValue, StoreResult, AccessAddress, ByteOfWord, SameMapping, Touched, SizeOf,
           KindOf, Partial;
      PartialStores(i.op);
      ghost var regs, mem, before := Registers(), MemoryBytes(), entries;
      var word := AccessAddress(i, registers[..]);
      var value;
      ex, value := ReadMem(word, 4);
      if ex != NoException {
        return;
      }
      ReadKeepsPlaces(before, tlb, word);
      SamePlaces(before, tlb, word);
      assert Registers() == regs && MemoryBytes() == mem;
      value := StoreResult(i, registers[..], value);
      ex := WriteMem(word, 4, value);
    }

    /** One decoded instruction, up to the end of OneInstruction. */
    method Execute(i: Instr) returns (ex: Exception)
      requires Valid() && ExtraOk(i)
      modifies this`entries, registers, mainMemory
      ensures Valid() && entries == EntriesAfter(i, old(Registers()), old(entries), tlb) && SameMapping(old(entries), entries)
      ensures Outcome(i, old(Registers()), old(MemoryBytes()), old(entries), tlb, ex, Registers(), MemoryBytes())
    {
      hide Overflows, Result, Linked, Target, HiLoRight, LoadResult, Stored, StorePlace, Locate, Wrap, AccessAddress, ByteOfWord,
           SameMapping;
      EntriesMapAlike(i, Registers(), entries, tlb);
      var pcAfter := Wrap(registers[NEXT_PC] as int + 4);
      var nextReg: Reg, nextValue: CInt := 0, 0;
      ex := NoException;
      match KindOf(i.op) {
        case Arith => ex := ExecuteArith(i);
        case Branch => pcAfter := ExecuteBranch(i);
        case HiLo => ExecuteHiLo(i);
        case Trap =>
          RaiseException(0);
          ex := if i.op == SYSCALL then SyscallException else IllegalInstrException;
        case Load =>
          ex, nextValue := ExecuteLoad(i);
          nextReg := i.rt;
        case Store => ex := ExecuteStore(i);
      }
      if ex != NoException {
        return;
      }
      Complete(pcAfter, nextReg, nextValue);
    }

    /** The pending load completes, the next one is noted, and the program counters advance. */
    method Complete(pcAfter: CInt, nextReg: Reg, nextValue: CInt)
      requires Shaped() && 0 <= registers[LOAD] < 32
      modifies registers
      ensures Valid() && Registers() == Finished(old(Registers()), pcAfter, nextReg, nextValue)
    {
      DelayedLoad(nextReg, nextValue);
      registers[PREV_PC] := registers[PC];
      registers[PC] := registers[NEXT_PC];
      registers[NEXT_PC] := pcAfter;
    }

    /** OneInstruction: fetch, decode, execute. */
    method OneInstruction() returns (ex: Exception)
      requires Valid()
      modifies this`entries, registers, mainMemory
      ensures Valid() && SameMapping(old(entries), entries)
      ensures var regs, mem, pc := old(Registers()), old(MemoryBytes()), old(registers[PC]);
              match Locate(old(entries), tlb, pc, 4, false)
              case Fault(which) => ex == which && Registers() == Trapped(regs, pc) && MemoryBytes() == mem && entries == old(entries)
              case At(entry, address) =>
                var i, fetched := Decode(ReadValue(mem, address, 4)), Touched(old(entries), entry, false);
                && Outcome(i, regs, mem, fetched, tlb, ex, Registers(), MemoryBytes())
                && entries == EntriesAfter(i, regs, fetched, tlb)
    {
      hide Decode, Outcome, Locate, ReadValue, ExtraOk, Trapped, EntriesAfter;
      var raw;
      ex, raw := ReadMem(registers[PC], 4);
      if ex != NoException {
        return;
      }
      ex := Execute(Decode(raw));
    }
  }
}
