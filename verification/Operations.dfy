/** machine/mipssim.cc: what each instruction computes, as functions of the registers. Registers are C ints;
    masks and shifts by whole bytes are written as remainders and multiples of powers of two. */
module Operations {
  import opened Layout
  import opened Multiplication
  import opened Instructions

  const NUM_TOTAL_REGS: nat := 40
  const HI: nat := 32
  const LO: nat := 33
  const PC: nat := 34
  const NEXT_PC: nat := 35
  const PREV_PC: nat := 36
  const LOAD: nat := 37
  const LOAD_VALUE: nat := 38
  const BAD_VADDR: nat := 39
  const RETURN_ADDR: Reg := 31

  type Regs = r: seq<CInt> | |r| == NUM_TOTAL_REGS witness seq(NUM_TOTAL_REGS, _ => 0)

  // ---- bits ----

  function ToWord(n: CInt): bv32 {
    Unsigned(n) as bv32
  }

  function FromWord(w: bv32): CInt {
    Wrap(w as int)
  }

  function BitAnd(a: CInt, b: CInt): CInt {
    FromWord(ToWord(a) & ToWord(b))
  }

  function BitOr(a: CInt, b: CInt): CInt {
    FromWord(ToWord(a) | ToWord(b))
  }

  function BitXor(a: CInt, b: CInt): CInt {
    FromWord(ToWord(a) ^ ToWord(b))
  }

  function BitNot(a: CInt): CInt {
    Wrap(-1 - a as int)
  }

  function ShiftLeft(n: CInt, count: nat): CInt {
    Wrap(n as int * Pow2(count))
  }

  /** C's >> on an int: the sign comes in from the left. */
  function ShiftRight(n: CInt, count: nat): CInt {
    ShiftedRange(n, count);
    n as int / Pow2(count)
  }

  lemma ShiftedRange(n: CInt, count: nat)
    ensures -INT_LIMIT <= n as int / Pow2(count) < INT_LIMIT
  {
    DivRange(n, Pow2(count));
  }

  lemma DivRange(n: int, d: nat)
    requires -INT_LIMIT <= n < INT_LIMIT && d > 0
    ensures -INT_LIMIT <= n / d < INT_LIMIT && (n < 0 <==> n / d < 0)
  {
    var q := n / d;
    assert n == d * q + n % d && 0 <= n % d < d;
    if q > 0 {
      MulMonotone(1, d, q);
    } else if q < 0 {
      MulMonotone(1, d, -q);
      assert d * (-q) == -(d * q);
      MulMonotone(1, -q, d);
    }
  }

  /** The shift that MIPS calls logical: zeroes come in from the left. */
  function ShiftRightLogical(n: CInt, count: nat): CInt {
    Wrap(Unsigned(n) / Pow2(count))
  }

  function ShiftAmount(n: CInt): (count: nat)
    ensures count < 32
  {
    Unsigned(n) % 32
  }

  // ---- bit by bit ----

  /** A word with a single 1. */
  predicate OneBit(m: bv32) {
    m != 0 && m & (m - 1) == 0
  }

  predicate Has(n: CInt, m: bv32) {
    ToWord(n) & m != 0
  }

  lemma WordBack(w: bv32)
    ensures ToWord(FromWord(w)) == w
  {
    WrapUnsigned(w as int);
    assert (w as int) as bv32 == w;
  }

  lemma AndWords(a: CInt, b: CInt)
    ensures ToWord(BitAnd(a, b)) == ToWord(a) & ToWord(b)
  {
    hide ToWord, FromWord;
    WordBack(ToWord(a) & ToWord(b));
  }

  lemma OrWords(a: CInt, b: CInt)
    ensures ToWord(BitOr(a, b)) == ToWord(a) | ToWord(b)
  {
    hide ToWord, FromWord;
    WordBack(ToWord(a) | ToWord(b));
  }

  lemma XorWords(a: CInt, b: CInt)
    ensures ToWord(BitXor(a, b)) == ToWord(a) ^ ToWord(b)
  {
    hide ToWord, FromWord;
    WordBack(ToWord(a) ^ ToWord(b));
  }

  lemma HasIs(n: CInt, m: bv32, w: bv32)
    requires ToWord(n) == w
    ensures Has(n, m) <==> w & m != 0
  {
    hide ToWord;
  }

  lemma AndBits(x: bv32, y: bv32, z: bv32, m: bv32)
    requires OneBit(m) && z == x & y
    ensures z & m != 0 <==> x & m != 0 && y & m != 0
  {
  }

  lemma OrBits(x: bv32, y: bv32, z: bv32, m: bv32)
    requires z == x | y
    ensures z & m != 0 <==> x & m != 0 || y & m != 0
  {
  }

  lemma XorBits(x: bv32, y: bv32, z: bv32, m: bv32)
    requires OneBit(m) && z == x ^ y
    ensures z & m != 0 <==> (x & m != 0) != (y & m != 0)
  {
  }

  lemma AndHas(a: CInt, b: CInt, m: bv32)
    requires OneBit(m)
    ensures Has(BitAnd(a, b), m) <==> Has(a, m) && Has(b, m)
  {
    hide ToWord, FromWord, OneBit, Has, BitAnd;
    AndWords(a, b);
    var x, y, z := ToWord(a), ToWord(b), ToWord(BitAnd(a, b));
    HasIs(a, m, x);
    HasIs(b, m, y);
    HasIs(BitAnd(a, b), m, z);
    AndBits(x, y, z, m);
  }

  lemma OrHas(a: CInt, b: CInt, m: bv32)
    requires OneBit(m)
    ensures Has(BitOr(a, b), m) <==> Has(a, m) || Has(b, m)
  {
    hide ToWord, FromWord, OneBit, Has, BitOr;
    OrWords(a, b);
    var x, y, z := ToWord(a), ToWord(b), ToWord(BitOr(a, b));
    HasIs(a, m, x);
    HasIs(b, m, y);
    HasIs(BitOr(a, b), m, z);
    OrBits(x, y, z, m);
  }

  lemma XorHas(a: CInt, b: CInt, m: bv32)
    requires OneBit(m)
    ensures Has(BitXor(a, b), m) <==> Has(a, m) != Has(b, m)
  {
    hide ToWord, FromWord, OneBit, Has, BitXor;
    XorWords(a, b);
    var x, y, z := ToWord(a), ToWord(b), ToWord(BitXor(a, b));
    HasIs(a, m, x);
    HasIs(b, m, y);
    HasIs(BitXor(a, b), m, z);
    XorBits(x, y, z, m);
  }

  // ---- arithmetic ----

  predicate SameSign(a: CInt, b: CInt) {
    (a < 0) == (b < 0)
  }

  /** The overflow tests, on sign bits. */
  predicate Overflows(i: Instr, regs: Regs) {
    var a, b := regs[i.rs], regs[i.rt];
    match i.op
    case ADD => SameSign(a, b) && !SameSign(a, Wrap(a as int + b))
    case ADDI => SameSign(a, i.extra) && !SameSign(i.extra, Wrap(a as int + i.extra))
    case SUB => !SameSign(a, b) && !SameSign(a, Wrap(a as int - b))
    case _ => false
  }

  function Dest(i: Instr): Reg {
    match i.op
    case ADDI => i.rt case ADDIU => i.rt case ANDI => i.rt case LUI => i.rt
    case ORI => i.rt case SLTI => i.rt case SLTIU => i.rt case XORI => i.rt
    case _ => i.rd
  }

  function Bit(b: bool): CInt {
    if b then 1 else 0
  }

  function Result(i: Instr, regs: Regs): CInt
    requires ExtraOk(i)
  {
    var a, b, x := regs[i.rs], regs[i.rt], i.extra;
    match i.op
    case ADD => Wrap(a as int + b)
    case ADDI => Wrap(a as int + x)
    case ADDIU => Wrap(a as int + x)
    case ADDU => Wrap(a as int + b)
    case AND => BitAnd(a, b)
    case ANDI => BitAnd(a, x % 0x1_0000)
    case LUI => Wrap(x as int * 0x1_0000)
    case MFHI => regs[HI]
    case MFLO => regs[LO]
    case NOR => BitNot(BitOr(a, b))
    case OR => BitOr(a, b)
    case ORI => BitOr(a, x % 0x1_0000)
    case SLL => ShiftLeft(b, x)
    case SLLV => ShiftLeft(b, ShiftAmount(a))
    case SLT => Bit(a < b)
    case SLTI => Bit(a < x)
    case SLTIU => Bit(Unsigned(a) < Unsigned(x))
    case SLTU => Bit(Unsigned(a) < Unsigned(b))
    case SRA => ShiftRight(b, x)
    case SRAV => ShiftRight(b, ShiftAmount(a))
    case SRL => ShiftRight(b, x)
    case SRLV => ShiftRight(b, ShiftAmount(a))
    case SUB => Wrap(a as int - b)
    case SUBU => Wrap(a as int - b)
    case XOR => BitXor(a, b)
    case XORI => BitXor(a, x % 0x1_0000)
    case _ => 0
  }

  lemma SumOverflow(a: CInt, b: CInt)
    ensures (SameSign(a, b) && !SameSign(b, Wrap(a as int + b))) <==> !(-INT_LIMIT <= a as int + b < INT_LIMIT)
    ensures (SameSign(a, b) && !SameSign(a, Wrap(a as int + b))) <==> !(-INT_LIMIT <= a as int + b < INT_LIMIT)
  {
  }

  lemma DifferenceOverflow(a: CInt, b: CInt)
    ensures (!SameSign(a, b) && !SameSign(a, Wrap(a as int - b))) <==> !(-INT_LIMIT <= a as int - b < INT_LIMIT)
  {
  }

  /** ADD, ADDI and SUB trap exactly when the true result does not fit, and otherwise deliver it. */
  lemma OverflowIsExact(i: Instr, regs: Regs)
    requires ExtraOk(i) && (i.op == ADD || i.op == ADDI || i.op == SUB)
    ensures var exact := if i.op == ADD then regs[i.rs] as int + regs[i.rt]
                         else if i.op == ADDI then regs[i.rs] as int + i.extra
                         else regs[i.rs] as int - regs[i.rt];
            && (Overflows(i, regs) <==> !(-INT_LIMIT <= exact < INT_LIMIT))
            && (!Overflows(i, regs) ==> Result(i, regs) == exact)
  {
    hide SameSign, Wrap, BitAnd, BitOr, BitXor, BitNot, ShiftLeft, ShiftRight, ShiftAmount, ExtraOk, Unsigned;
    var a, b := regs[i.rs], if i.op == ADDI then i.extra else regs[i.rt];
    if i.op == SUB {
      DifferenceOverflow(a, b);
      WrapUnsigned(a as int - b);
    } else {
      SumOverflow(a, b);
      WrapUnsigned(a as int + b);
    }
  }

  /** SRL and SRLV shift an int, so the sign comes in from the left: they are right for exactly those operands
      that are not negative, or not shifted at all. */
  lemma LogicalShiftIsArithmetic(i: Instr, regs: Regs)
    requires ExtraOk(i) && (i.op == SRL || i.op == SRLV)
    ensures var count := if i.op == SRL then i.extra else ShiftAmount(regs[i.rs]);
            Result(i, regs) == ShiftRightLogical(regs[i.rt], count) <==> regs[i.rt] >= 0 || count == 0
  {
    hide ShiftRight, ShiftRightLogical, ShiftAmount;
    ShiftsAgree(regs[i.rt], if i.op == SRL then i.extra else ShiftAmount(regs[i.rs]));
  }

  lemma ShiftsAgree(n: CInt, count: nat)
    ensures ShiftRight(n, count) == ShiftRightLogical(n, count) <==> n >= 0 || count == 0
  {
    hide Wrap;
    WrapUnsigned(n);
    if count == 0 {
      assert Pow2(count) == 1;
      WrapOfUnsigned(n);
    } else {
      DivRange(n, Pow2(count));
      DivMod(Unsigned(n), Pow2(count));
      HalfAtMost(Unsigned(n), Pow2(count));
      WrapUnsigned(Unsigned(n) / Pow2(count));
      assert n >= 0 ==> Unsigned(n) == n;
    }
  }

  lemma WrapOfUnsigned(n: CInt)
    ensures Wrap(Unsigned(n)) == n
  {
  }

  lemma HalfAtMost(n: nat, d: nat)
    requires d >= 2
    ensures 0 <= 2 * (n / d) <= n
  {
    DivMod(n, d);
    MulMonotone(2, d, n / d);
  }

  /** On a negative operand the two shifts differ. */
  lemma LogicalShiftExample()
    ensures ShiftRight(-2, 1) == -1 && ShiftRightLogical(-2, 1) == 0x7fff_ffff
  {
    assert Pow2(1) == 2;
  }

  /** Unsigned arithmetic is arithmetic modulo 2^32, on an immediate that has been sign-extended first. */
  lemma SumsWrapAround(i: Instr, regs: Regs)
    requires ExtraOk(i) && (i.op == ADDU || i.op == ADDIU || i.op == SUBU)
    ensures var a, b := Unsigned(regs[i.rs]), Unsigned(if i.op == ADDIU then i.extra else regs[i.rt]);
            Unsigned(Result(i, regs)) == (if i.op == SUBU then a - b else a + b) % WORD_LIMIT
  {
    hide Wrap, Unsigned, BitAnd, BitOr, BitXor, BitNot, ShiftLeft, ShiftRight, ShiftAmount;
    SumModulo(regs[i.rs], if i.op == ADDIU then i.extra else regs[i.rt]);
  }

  lemma ModuloPlus(n: int)
    ensures (n + WORD_LIMIT) % WORD_LIMIT == n % WORD_LIMIT
  {
  }

  lemma SumModulo(a: CInt, b: CInt)
    ensures Unsigned(Wrap(a as int + b)) == (Unsigned(a) + Unsigned(b)) % WORD_LIMIT
    ensures Unsigned(Wrap(a as int - b)) == (Unsigned(a) - Unsigned(b)) % WORD_LIMIT
  {
    hide Wrap, Unsigned;
    WrapUnsigned(a as int + b);
    WrapUnsigned(a as int - b);
    UnsignedSign(a);
    UnsignedSign(b);
    ModuloPlus(a as int + b);
    ModuloPlus(a as int + b + WORD_LIMIT);
    ModuloPlus(a as int - b);
    ModuloPlus(a as int - b - WORD_LIMIT);
  }

  /** The unsigned comparisons, told by signs: a negative int stands for a large number, and so does a negative
      immediate. */
  lemma UnsignedCompare(i: Instr, regs: Regs)
    requires ExtraOk(i) && (i.op == SLTU || i.op == SLTIU)
    ensures var a, b := regs[i.rs], if i.op == SLTIU then i.extra else regs[i.rt];
            Result(i, regs) == Bit(if SameSign(a, b) then a < b else b < 0)
  {
    hide Unsigned, Wrap, BitAnd, BitOr, BitXor, BitNot, ShiftLeft, ShiftRight, ShiftAmount;
    UnsignedSign(regs[i.rs]);
    UnsignedSign(regs[i.rt]);
    UnsignedSign(i.extra);
  }

  /** The shifts: to the left modulo 2^32, to the right rounding down; LUI moves the low half of its immediate up. */
  lemma ShiftsScale(i: Instr, regs: Regs)
    requires ExtraOk(i)
    ensures i.op == SLL ==> Unsigned(Result(i, regs)) == Unsigned(regs[i.rt]) * Pow2(i.extra) % WORD_LIMIT
    ensures i.op == SRA ==> Pow2(i.extra) * Result(i, regs) <= regs[i.rt] < Pow2(i.extra) * (Result(i, regs) + 1)
    ensures i.op == LUI ==> Unsigned(Result(i, regs)) == i.extra % 0x1_0000 * 0x1_0000
  {
    hide Wrap, Unsigned, Pow2;
    if i.op == SLL {
      ScaledModulo(regs[i.rt], Pow2(i.extra));
    } else if i.op == SRA {
      QuotientBounds(regs[i.rt], Pow2(i.extra));
    } else if i.op == LUI {
      HalfUp(i.extra);
    }
  }

  lemma ModuloMore(n: int, m: nat)
    ensures (n + m * WORD_LIMIT) % WORD_LIMIT == n % WORD_LIMIT
  {
    if m > 0 {
      ModuloMore(n, m - 1);
      ModuloPlus(n + (m - 1) * WORD_LIMIT);
    }
  }

  lemma ScaledModulo(n: CInt, m: nat)
    ensures Unsigned(Wrap(n as int * m)) == Unsigned(n) * m % WORD_LIMIT
  {
    hide Wrap, Unsigned;
    WrapUnsigned(n as int * m);
    UnsignedSign(n);
    if n < 0 {
      ModuloMore(n as int * m, m);
      assert (n + WORD_LIMIT) * m == n * m + m * WORD_LIMIT;
    }
  }

  lemma QuotientBounds(n: int, d: nat)
    requires d > 0
    ensures d * (n / d) <= n < d * (n / d + 1)
  {
    assert n == d * (n / d) + n % d && 0 <= n % d < d;
    assert d * (n / d + 1) == d * (n / d) + d;
  }

  lemma HalfUp(x: CInt)
    requires -0x8000 <= x < 0x8000
    ensures Unsigned(Wrap(x as int * 0x1_0000)) == x % 0x1_0000 * 0x1_0000
  {
    WrapUnsigned(x as int * 0x1_0000);
  }

  // ---- branches and jumps ----

  /** The return address is written first, even where the branch is not taken. */
  function Linked(i: Instr, regs: Regs): Regs {
    var back := Wrap(regs[NEXT_PC] as int + 4);
    match i.op
    case BGEZAL => regs[RETURN_ADDR := back]
    case BLTZAL => regs[RETURN_ADDR := back]
    case JAL => regs[RETURN_ADDR := back]
    case JALR => regs[i.rd := back]
    case _ => regs
  }

  predicate Taken(i: Instr, regs: Regs) {
    match i.op
    case BEQ => regs[i.rs] == regs[i.rt]
    case BNE => regs[i.rs] != regs[i.rt]
    case BGEZ => regs[i.rs] >= 0
    case BGEZAL => regs[i.rs] >= 0
    case BLTZ => regs[i.rs] < 0
    case BLTZAL => regs[i.rs] < 0
    case BGTZ => regs[i.rs] > 0
    case BLEZ => regs[i.rs] <= 0
    case _ => false
  }

  /** The address executed after the delay slot, given the registers after linking. */
  function Target(i: Instr, linked: Regs): CInt {
    var after := Wrap(linked[NEXT_PC] as int + 4);
    if i.op == J || i.op == JAL then Wrap(Unsigned(after) - Unsigned(after) % 0x1000_0000 + i.extra as int * 4)
    else if i.op == JR || i.op == JALR then linked[i.rs]
    else if Taken(i, linked) then Wrap(linked[NEXT_PC] as int + i.extra as int * 4)
    else after
  }

  // ---- HI and LO ----

  /** C's division, with the sign conditions that determine it. */
  ghost predicate Divides(a: int, b: int, q: int, r: int) {
    a == b * q + r && (r == 0 || (r < 0) == (a < 0)) && (if r < 0 then -r else r) < (if b < 0 then -b else b)
  }

  ghost predicate DivRight(a: CInt, b: CInt, hi: CInt, lo: CInt) {
    if b == 0 then hi == 0 && lo == 0 else exists q: int :: Divides(a, b, q, hi) && lo == Wrap(q)
  }

  ghost predicate DivuRight(a: CInt, b: CInt, hi: CInt, lo: CInt) {
    if b == 0 then hi == 0 && lo == 0 else Divides(Unsigned(a), Unsigned(b), Unsigned(lo), Unsigned(hi))
  }

  ghost predicate HiLoRight(i: Instr, regs: Regs, hi: CInt, lo: CInt) {
    var a, b := regs[i.rs], regs[i.rt];
    match i.op
    case MTHI => hi == a && lo == regs[LO]
    case MTLO => lo == a && hi == regs[HI]
    case MULT => Double(hi, lo) == Product(a, b, true) % DOUBLE_LIMIT
    case MULTU => Double(hi, lo) == Product(a, b, false) % DOUBLE_LIMIT
    case DIV => DivRight(a, b, hi, lo)
    case DIVU => DivuRight(a, b, hi, lo)
    case _ => false
  }

  // ---- delayed loads ----

  /** The registers after DelayedLoad(nextReg, nextValue): the pending load completes and another is noted. */
  function Loaded(regs: Regs, nextReg: Reg, nextValue: CInt): Regs
    requires 0 <= regs[LOAD] < 32
  {
    regs[regs[LOAD] := regs[LOAD_VALUE]][LOAD := nextReg][LOAD_VALUE := nextValue][0 := 0]
  }

  /** A register as it will be once the pending load is done. */
  function Visible(regs: Regs, r: Reg): CInt {
    if r == 0 then 0 else if regs[LOAD] == r then regs[LOAD_VALUE] else regs[r]
  }

  // ---- loads and stores of part of a word ----

  const P8: int := 0x100
  const P16: int := 0x1_0000
  const P24: int := 0x100_0000

  /** LWL's new register value, from the aligned word around the address and the old value. */
  function MergeLeft(prior: CInt, word: CInt, byteOf: nat): CInt {
    if byteOf == 3 then word
    else if byteOf == 2 then Wrap(Unsigned(prior) % P8 + Unsigned(word) * P8)
    else if byteOf == 1 then Wrap(Unsigned(prior) % P16 + Unsigned(word) * P16)
    else Wrap(Unsigned(prior) % P24 + Unsigned(word) * P24)
  }

  function MergeRight(prior: CInt, word: CInt, byteOf: nat): CInt {
    if byteOf == 3 then Wrap(Unsigned(prior) - Unsigned(prior) % P8 + Unsigned(word) / P24)
    else if byteOf == 2 then Wrap(Unsigned(prior) - Unsigned(prior) % P16 + Unsigned(word) / P16)
    else if byteOf == 1 then Wrap(Unsigned(prior) - Unsigned(prior) % P24 + Unsigned(word) / P8)
    else word
  }

  /** SWL's new memory word, from the register and the word there. */
  function StoreLeft(word: CInt, value: CInt, byteOf: nat): CInt {
    if byteOf == 3 then value
    else if byteOf == 2 then Wrap(Unsigned(word) - Unsigned(word) % P24 + Unsigned(value) / P8)
    else if byteOf == 1 then Wrap(Unsigned(word) - Unsigned(word) % P16 + Unsigned(value) / P16)
    else Wrap(Unsigned(word) - Unsigned(word) % P8 + Unsigned(value) / P24)
  }

  function StoreRight(word: CInt, value: CInt, byteOf: nat): CInt {
    if byteOf == 3 then Wrap(Unsigned(word) % P24 + Unsigned(value) * P24)
    else if byteOf == 2 then Wrap(Unsigned(word) % P16 + Unsigned(value) * P16)
    else if byteOf == 1 then Wrap(Unsigned(word) % P8 + Unsigned(value) * P8)
    else value
  }

  /** The value a load leaves pending. */
  function LoadResult(op: Op, byteOf: nat, value: CInt, prior: CInt): CInt {
    match op
    case LB => if value % P8 >= 0x80 then value % P8 - P8 else value % P8
    case LBU => value % P8
    case LH => if value % P16 >= 0x8000 then value % P16 - P16 else value % P16
    case LHU => value % P16
    case LWL => MergeLeft(prior, value, byteOf)
    case LWR => MergeRight(prior, value, byteOf)
    case _ => value
  }

  function SizeOf(op: Op): (n: nat)
    ensures n == 1 || n == 2 || n == 4
  {
    match op
    case LB => 1 case LBU => 1 case SB => 1
    case LH => 2 case LHU => 2 case SH => 2
    case _ => 4
  }

  function EffectiveAddress(i: Instr, regs: Regs): CInt {
    Wrap(regs[i.rs] as int + i.extra)
  }

  predicate Partial(op: Op) {
    op == LWL || op == LWR || op == SWL || op == SWR
  }

  /** The address actually accessed: the partial instructions use the aligned word around theirs. */
  function AccessAddress(i: Instr, regs: Regs): CInt {
    var a := EffectiveAddress(i, regs);
    if Partial(i.op) then a - a % 4 else a
  }

  function ByteOfWord(i: Instr, regs: Regs): (b: nat)
    ensures b < 4
  {
    EffectiveAddress(i, regs) % 4
  }
}
