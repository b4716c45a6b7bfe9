/** machine/mipssim.h and Instruction::Decode: the instruction formats of the simulated processor. */
module Instructions {
  import opened Layout
  import opened Multiplication

  datatype Op =
    | ADD | ADDI | ADDIU | ADDU | AND | ANDI | BEQ | BGEZ | BGEZAL | BGTZ | BLEZ | BLTZ | BLTZAL | BNE | DIV
    | DIVU | J | JAL | JALR | JR | LB | LBU | LH | LHU | LUI | LW | LWL | LWR | MFHI | MFLO | MTHI | MTLO
    | MULT | MULTU | NOR | OR | ORI | SB | SH | SLL | SLLV | SLT | SLTI | SLTIU | SLTU | SRA | SRAV | SRL
    | SRLV | SUB | SUBU | SW | SWL | SWR | XOR | XORI | SYSCALL | UNIMP | RES | SPECIAL | BCOND

  datatype Format = IFmt | JFmt | RFmt

  type Reg = r: nat | r < 32

  datatype Instr = Instr(op: Op, rs: Reg, rt: Reg, rd: Reg, extra: CInt)

  /** The table for bits 31..26. */
  function OpTable(code: nat): (Op, Format) {
    match code
    case 0 => (SPECIAL, RFmt)
    case 1 => (BCOND, IFmt)
    case 2 => (J, JFmt)
    case 3 => (JAL, JFmt)
    case 4 => (BEQ, IFmt)
    case 5 => (BNE, IFmt)
    case 6 => (BLEZ, IFmt)
    case 7 => (BGTZ, IFmt)
    case 8 => (ADDI, IFmt)
    case 9 => (ADDIU, IFmt)
    case 10 => (SLTI, IFmt)
    case 11 => (SLTIU, IFmt)
    case 12 => (ANDI, IFmt)
    case 13 => (ORI, IFmt)
    case 14 => (XORI, IFmt)
    case 15 => (LUI, IFmt)
    case 32 => (LB, IFmt)
    case 33 => (LH, IFmt)
    case 34 => (LWL, IFmt)
    case 35 => (LW, IFmt)
    case 36 => (LBU, IFmt)
    case 37 => (LHU, IFmt)
    case 38 => (LWR, IFmt)
    case 40 => (SB, IFmt)
    case 41 => (SH, IFmt)
    case 42 => (SWL, IFmt)
    case 43 => (SW, IFmt)
    case 46 => (SWR, IFmt)
    case _ => if 16 <= code <= 19 || 48 <= code <= 51 || 56 <= code <= 59 then (UNIMP, IFmt) else (RES, IFmt)
  }

  /** The table for the funct field of SPECIAL instructions. */
  function SpecialTable(code: nat): Op {
    match code
    case 0 => SLL
    case 2 => SRL
    case 3 => SRA
    case 4 => SLLV
    case 6 => SRLV
    case 7 => SRAV
    case 8 => JR
    case 9 => JALR
    case 12 => SYSCALL
    case 13 => UNIMP
    case 16 => MFHI
    case 17 => MTHI
    case 18 => MFLO
    case 19 => MTLO
    case 24 => MULT
    case 25 => MULTU
    case 26 => DIV
    case 27 => DIVU
    case 32 => ADD
    case 33 => ADDU
    case 34 => SUB
    case 35 => SUBU
    case 36 => AND
    case 37 => OR
    case 38 => XOR
    case 39 => NOR
    case 42 => SLT
    case 43 => SLTU
    case _ => RES
  }

  /** What decoding promises about the extra field: a sign-extended halfword, a shift amount, or a jump index. */
  predicate ExtraOk(i: Instr) {
    match i.op
    case SLL => 0 <= i.extra < 32
    case SRL => 0 <= i.extra < 32
    case SRA => 0 <= i.extra < 32
    case J => 0 <= i.extra < 0x400_0000
    case JAL => 0 <= i.extra < 0x400_0000
    case _ => -0x8000 <= i.extra < 0x8000
  }

  /** The bits of a word from `low` on, `width` values of them. */
  function Field(word: nat, low: nat, width: nat): (f: nat)
    requires low > 0 && width > 0
    ensures f < width
  {
    word / low % width
  }

  function Extra(word: nat, format: Format): (x: CInt)
    ensures format.IFmt? ==> -0x8000 <= x < 0x8000
    ensures format.JFmt? ==> 0 <= x < 0x400_0000
    ensures format.RFmt? ==> 0 <= x < 32
  {
    match format
    case IFmt => var x := Field(word, 1, 0x1_0000); if x >= 0x8000 then x - 0x1_0000 else x
    case RFmt => Field(word, 64, 32)
    case JFmt => Field(word, 1, 0x400_0000)
  }

  /** The instruction that a word in memory stands for. */
  function Decode(value: CInt): (i: Instr)
    ensures ExtraOk(i) && i.op != SPECIAL && i.op != BCOND
  {
    var word := Unsigned(value);
    var (op, format) := OpTable(Field(word, 0x400_0000, 64));
    var cond := Field(word, 0x1_0000, 32);
    Instr(
      match op
      case SPECIAL => SpecialTable(Field(word, 1, 64))
      case BCOND => if cond == 0 then BLTZ else if cond == 1 then BGEZ else if cond == 16 then BLTZAL else if cond == 17 then BGEZAL else UNIMP
      case _ => op,
      Field(word, 0x20_0000, 32), Field(word, 0x1_0000, 32), Field(word, 0x800, 32), Extra(word, format))
  }

  /** An instruction word put together from its fields. */
  function FromFields(code: nat, rs: Reg, rt: Reg, low: nat): nat
    requires code < 64 && low < 0x1_0000
  {
    0x400_0000 * code + 0x20_0000 * rs + 0x1_0000 * rt + low
  }

  lemma Upper(word: nat, size: nat, high: nat, rest: nat)
    requires size > 0 && rest < size && word == size * high + rest
    ensures word / size == high
  {
    DivModUnique(word, size, high, rest);
  }

  /** The fields of an assembled word are found again. */
  lemma UpperFields(code: nat, rs: Reg, rt: Reg, low: nat)
    requires code < 64 && low < 0x1_0000
    ensures var word := FromFields(code, rs, rt, low);
            word < WORD_LIMIT && Field(word, 0x400_0000, 64) == code && Field(word, 0x20_0000, 32) == rs && Field(word, 0x1_0000, 32) == rt
  {
    var word := FromFields(code, rs, rt, low);
    Upper(word, 0x400_0000, code, 0x20_0000 * rs + 0x1_0000 * rt + low);
    Upper(word, 0x20_0000, 32 * code + rs, 0x1_0000 * rt + low);
    Upper(word, 0x1_0000, 1024 * code + 32 * rs + rt, low);
  }

  lemma LowerFields(code: nat, rs: Reg, rt: Reg, low: nat)
    requires code < 64 && low < 0x1_0000
    ensures var word := FromFields(code, rs, rt, low);
            && Field(word, 0x800, 32) == low / 0x800 && Field(word, 1, 0x1_0000) == low
            && Field(word, 64, 32) == low / 64 % 32 && Field(word, 1, 64) == low % 64
  {
    var word, high := FromFields(code, rs, rt, low), 1024 * code + 32 * rs + rt;
    Upper(word, 0x800, 32 * high + low / 0x800, low % 0x800);
    Upper(word, 64, 1024 * high + low / 64, low % 64);
    DivModUnique(word, 0x1_0000, high, low);
    DivModUnique(word, 64, 1024 * high + low / 64, low % 64);
  }

  /** Where the table for bits 31..26 sends a word on to another test. */
  lemma FirstCodes(code: nat)
    ensures OpTable(code).0 == SPECIAL <==> code == 0
    ensures OpTable(code).0 == BCOND <==> code == 1
    ensures code == 0 ==> OpTable(code).1 == RFmt
  {
  }

  /** Decoding an assembled word: an immediate instruction keeps its registers and its signed halfword, and a
      SPECIAL one its three registers, its shift amount and its function. */
  lemma Decoded(code: nat, rs: Reg, rt: Reg, low: nat)
    requires code < 64 && low < 0x1_0000
    ensures var i := Decode(Wrap(FromFields(code, rs, rt, low)));
            && i.rs == rs && i.rt == rt && i.rd == low / 0x800
            && (OpTable(code).1 == IFmt ==> i.extra == if low < 0x8000 then low else low - 0x1_0000)
            && (code == 0 ==> i.op == SpecialTable(low % 64) && i.extra == low / 64 % 32)
            && (code > 1 ==> i.op == OpTable(code).0)
  {
    hide SpecialTable, OpTable, Field, FromFields, Wrap, Unsigned, ExtraOk;
    FirstCodes(code);
    UpperFields(code, rs, rt, low);
    LowerFields(code, rs, rt, low);
    WrapUnsigned(FromFields(code, rs, rt, low));
  }

  // ---- assembling ----

  /** Bits 31..26 of an instruction, as the MIPS architecture numbers them: 0 for those told by bits 5..0, 1 for those
      told by bits 20..16. */
  function Primary(op: Op): (code: nat)
    ensures code < 64
  {
    match op
    case BLTZ => 1 case BGEZ => 1 case BLTZAL => 1 case BGEZAL => 1
    case J => 2 case JAL => 3 case BEQ => 4 case BNE => 5 case BLEZ => 6 case BGTZ => 7
    case ADDI => 8 case ADDIU => 9 case SLTI => 10 case SLTIU => 11 case ANDI => 12 case ORI => 13 case XORI => 14 case LUI => 15
    case LB => 32 case LH => 33 case LWL => 34 case LW => 35 case LBU => 36 case LHU => 37 case LWR => 38
    case SB => 40 case SH => 41 case SWL => 42 case SW => 43 case SWR => 46
    case _ => 0
  }

  /** Bits 5..0 of a SPECIAL instruction. */
  function Funct(op: Op): (code: nat)
    ensures code < 64
  {
    match op
    case SRL => 2 case SRA => 3 case SLLV => 4 case SRLV => 6 case SRAV => 7 case JR => 8 case JALR => 9 case SYSCALL => 12
    case MFHI => 16 case MTHI => 17 case MFLO => 18 case MTLO => 19
    case MULT => 24 case MULTU => 25 case DIV => 26 case DIVU => 27
    case ADD => 32 case ADDU => 33 case SUB => 34 case SUBU => 35 case AND => 36 case OR => 37 case XOR => 38 case NOR => 39
    case SLT => 42 case SLTU => 43
    case _ => 0
  }

  /** Bits 20..16 of a conditional branch on one register. */
  function Condition(op: Op): Reg {
    match op
    case BGEZ => 1 case BLTZAL => 16 case BGEZAL => 17
    case _ => 0
  }

  predicate Named(op: Op) {
    op != SPECIAL && op != BCOND && op != RES && op != UNIMP
  }

  /** The word that stands for an instruction. */
  function Assembled(i: Instr): nat
    requires Named(i.op) && ExtraOk(i)
  {
    var code := Primary(i.op);
    if code == 0 then FromFields(0, i.rs, i.rt, SpecialLow(i))
    else if code == 1 then FromFields(1, i.rs, Condition(i.op), i.extra % 0x1_0000)
    else if code < 4 then 0x400_0000 * code + i.extra
    else FromFields(code, i.rs, i.rt, i.extra % 0x1_0000)
  }

  function SpecialLow(i: Instr): (low: nat)
    requires ExtraOk(i)
    ensures low < 0x1_0000
  {
    0x800 * i.rd + 64 * (if i.op == SLL || i.op == SRL || i.op == SRA then i.extra else 0) + Funct(i.op)
  }

  /** The decoder's tables undo the numbering. */
  lemma ShiftCodes(op: Op)
    requires op in {SLL, SRL, SRA, SLLV, SRLV, SRAV, JR, JALR, SYSCALL}
    ensures SpecialTable(Funct(op)) == op
  {
    hide OpTable, Primary;
  }

  lemma HiLoCodes(op: Op)
    requires op in {MFHI, MTHI, MFLO, MTLO, MULT, MULTU, DIV, DIVU}
    ensures SpecialTable(Funct(op)) == op
  {
    hide OpTable, Primary;
  }

  lemma ArithCodes(op: Op)
    requires op in {ADD, ADDU, SUB, SUBU, AND, OR, XOR, NOR, SLT, SLTU}
    ensures SpecialTable(Funct(op)) == op
  {
    hide OpTable, Primary;
  }

  lemma ImmediateCodes(op: Op)
    requires op in {BEQ, BNE, BLEZ, BGTZ, ADDI, ADDIU, SLTI, SLTIU, ANDI, ORI, XORI, LUI}
    ensures OpTable(Primary(op)) == (op, IFmt)
  {
    hide SpecialTable, Funct;
  }

  lemma MemoryCodes(op: Op)
    requires op in {LB, LH, LWL, LW, LBU, LHU, LWR, SB, SH, SWL, SW, SWR}
    ensures OpTable(Primary(op)) == (op, IFmt)
  {
    hide SpecialTable, Funct;
  }

  lemma SpecialAgrees(op: Op)
    requires Named(op) && Primary(op) == 0
    ensures SpecialTable(Funct(op)) == op
  {
    hide SpecialTable, OpTable, Funct;
    if op in {SLL, SRL, SRA, SLLV, SRLV, SRAV, JR, JALR, SYSCALL} {
      ShiftCodes(op);
    } else if op in {MFHI, MTHI, MFLO, MTLO, MULT, MULTU, DIV, DIVU} {
      HiLoCodes(op);
    } else {
      ArithCodes(op);
    }
  }

  lemma ImmediateAgrees(op: Op)
    requires Primary(op) > 3
    ensures OpTable(Primary(op)) == (op, IFmt)
  {
    hide SpecialTable, OpTable, Funct;
    if op in {LB, LH, LWL, LW, LBU, LHU, LWR, SB, SH, SWL, SW, SWR} {
      MemoryCodes(op);
    } else {
      ImmediateCodes(op);
    }
  }

  lemma OtherCodes(op: Op)
    requires 1 <= Primary(op) <= 3
    ensures Primary(op) == 2 ==> op == J
    ensures Primary(op) == 3 ==> op == JAL
    ensures Primary(op) == 1 ==> op == (if Condition(op) == 0 then BLTZ else if Condition(op) == 1 then BGEZ
                                        else if Condition(op) == 16 then BLTZAL else if Condition(op) == 17 then BGEZAL else UNIMP)
  {
  }

  /** What kind of extra field goes with which number. */
  lemma ExtraFits(i: Instr)
    requires ExtraOk(i)
    ensures i.op == SLL || i.op == SRL || i.op == SRA ==> Primary(i.op) == 0 && 0 <= i.extra < 32
    ensures Primary(i.op) == 2 || Primary(i.op) == 3 ==> 0 <= i.extra < 0x400_0000
    ensures Primary(i.op) == 1 || Primary(i.op) > 3 ==> -0x8000 <= i.extra < 0x8000
  {
  }

  lemma SpecialIsDecoded(i: Instr)
    requires Named(i.op) && ExtraOk(i) && Primary(i.op) == 0
    ensures var d := Decode(Wrap(Assembled(i)));
            && d.op == i.op && d.rs == i.rs && d.rt == i.rt && d.rd == i.rd
            && (i.op == SLL || i.op == SRL || i.op == SRA ==> d.extra == i.extra)
  {
    hide Decode, FromFields, Wrap, SpecialTable, OpTable, Funct, Primary, Condition, ExtraOk, Named, SpecialLow;
    SpecialAgrees(i.op);
    ExtraFits(i);
    SpecialFields(i);
    Decoded(0, i.rs, i.rt, SpecialLow(i));
  }

  lemma ImmediateIsDecoded(i: Instr)
    requires Named(i.op) && ExtraOk(i) && Primary(i.op) > 3
    ensures var d := Decode(Wrap(Assembled(i)));
            d.op == i.op && d.rs == i.rs && d.rt == i.rt && d.extra == i.extra
  {
    hide Decode, FromFields, Wrap, SpecialTable, OpTable, Funct, Primary, Condition, ExtraOk, Named, SpecialLow;
    ImmediateAgrees(i.op);
    ExtraFits(i);
    HalfBack(i.extra);
    Decoded(Primary(i.op), i.rs, i.rt, i.extra % 0x1_0000);
  }

  lemma OtherIsDecoded(i: Instr)
    requires Named(i.op) && ExtraOk(i) && 1 <= Primary(i.op) <= 3
    ensures var d := Decode(Wrap(Assembled(i)));
            d.op == i.op && d.extra == i.extra && (Primary(i.op) == 1 ==> d.rs == i.rs)
  {
    hide Decode, FromFields, Wrap, SpecialTable, OpTable, Funct, Primary, Condition, ExtraOk, Named, SpecialLow;
    OtherCodes(i.op);
    ExtraFits(i);
    if Primary(i.op) == 1 {
      HalfBack(i.extra);
      DecodedBranch(i.rs, Condition(i.op), i.extra % 0x1_0000);
    } else {
      DecodedJump(Primary(i.op), i.extra);
    }
  }

  /** An assembler and the decoder agree: each instruction is decoded from the word that stands for it, with all its
      operands. */
  lemma AssembledIsDecoded(i: Instr)
    requires Named(i.op) && ExtraOk(i)
    ensures var d, code := Decode(Wrap(Assembled(i))), Primary(i.op);
            && d.op == i.op
            && (code == 0 ==> d.rs == i.rs && d.rt == i.rt && d.rd == i.rd)
            && (code == 1 ==> d.rs == i.rs)
            && (code > 3 ==> d.rs == i.rs && d.rt == i.rt)
            && (code > 0 || i.op == SLL || i.op == SRL || i.op == SRA ==> d.extra == i.extra)
  {
    hide Decode, Assembled, Wrap, Primary, ExtraOk, Named;
    if Primary(i.op) == 0 {
      SpecialIsDecoded(i);
    } else if Primary(i.op) > 3 {
      ImmediateIsDecoded(i);
    } else {
      OtherIsDecoded(i);
    }
  }

  lemma LowFields(rd: Reg, shamt: nat, funct: nat)
    requires shamt < 32 && funct < 64
    ensures var low := 0x800 * rd + 64 * shamt + funct; low / 0x800 == rd && low / 64 % 32 == shamt && low % 64 == funct
  {
    var low := 0x800 * rd + 64 * shamt + funct;
    DivModUnique(low, 0x800, rd, 64 * shamt + funct);
    DivModUnique(low, 64, 32 * rd + shamt, funct);
    DivModUnique(32 * rd + shamt, 32, rd, shamt);
  }

  lemma SpecialFields(i: Instr)
    requires ExtraOk(i)
    ensures SpecialLow(i) / 0x800 == i.rd && SpecialLow(i) % 64 == Funct(i.op)
    ensures i.op == SLL || i.op == SRL || i.op == SRA ==> SpecialLow(i) / 64 % 32 == i.extra
  {
    hide Funct, Primary, ExtraOk;
    ExtraFits(i);
    LowFields(i.rd, if i.op == SLL || i.op == SRL || i.op == SRA then i.extra else 0, Funct(i.op));
  }

  lemma HalfBack(x: CInt)
    requires -0x8000 <= x < 0x8000
    ensures var low := x % 0x1_0000; x == if low < 0x8000 then low else low - 0x1_0000
  {
  }

  lemma DecodedBranch(rs: Reg, cond: Reg, low: nat)
    requires low < 0x1_0000
    ensures var d := Decode(Wrap(FromFields(1, rs, cond, low)));
            && d.rs == rs && d.extra == (if low < 0x8000 then low else low - 0x1_0000)
            && d.op == if cond == 0 then BLTZ else if cond == 1 then BGEZ else if cond == 16 then BLTZAL else if cond == 17 then BGEZAL else UNIMP
  {
    hide SpecialTable, OpTable, Field, FromFields, Wrap, Unsigned, ExtraOk;
    BranchCode();
    UpperFields(1, rs, cond, low);
    LowerFields(1, rs, cond, low);
    WrapUnsigned(FromFields(1, rs, cond, low));
  }

  lemma BranchCode()
    ensures OpTable(1) == (BCOND, IFmt) && OpTable(2) == (J, JFmt) && OpTable(3) == (JAL, JFmt)
  {
  }

  lemma JumpFields(code: nat, index: nat)
    requires code < 4 && index < 0x400_0000
    ensures var word := 0x400_0000 * code + index;
            word < WORD_LIMIT && Field(word, 0x400_0000, 64) == code && Field(word, 1, 0x400_0000) == index
  {
    DivModUnique(0x400_0000 * code + index, 0x400_0000, code, index);
  }

  lemma DecodedJump(code: nat, index: nat)
    requires (code == 2 || code == 3) && index < 0x400_0000
    ensures var d := Decode(Wrap(0x400_0000 * code + index)); d.op == (if code == 2 then J else JAL) && d.extra == index
  {
    hide SpecialTable, OpTable, Field, Wrap, Unsigned;
    BranchCode();
    JumpFields(code, index);
    WrapUnsigned(0x400_0000 * code + index);
    SmallWord(0x400_0000 * code + index);
  }

  lemma SmallWord(word: nat)
    requires word < WORD_LIMIT
    ensures word % WORD_LIMIT == word
  {
  }

  /** What the processor does with an instruction, by kind. */
  datatype Kind = Arith | Branch | HiLo | Load | Store | Trap

  function KindOf(op: Op): Kind {
    match op
    case BEQ => Branch case BGEZ => Branch case BGEZAL => Branch case BGTZ => Branch case BLEZ => Branch
    case BLTZ => Branch case BLTZAL => Branch case BNE => Branch
    case J => Branch case JAL => Branch case JALR => Branch case JR => Branch
    case DIV => HiLo case DIVU => HiLo case MTHI => HiLo case MTLO => HiLo case MULT => HiLo case MULTU => HiLo
    case LB => Load case LBU => Load case LH => Load case LHU => Load case LW => Load case LWL => Load case LWR => Load
    case SB => Store case SH => Store case SW => Store case SWL => Store case SWR => Store
    case SYSCALL => Trap case UNIMP => Trap case RES => Trap case SPECIAL => Trap case BCOND => Trap
    case _ => Arith
  }
}
