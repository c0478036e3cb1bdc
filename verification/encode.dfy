/**
 The encoding of MIPS instructions, with the numbers of the architecture (Kane and Heinrich, MIPS RISC Architecture,
 appendix A), against Instruction::Decode and its tables (machine/mipssim.cc, machine/mipssim.h).
 */
module Encoding {
  import opened Common
  import opened Bits
  import opened Memory
  import opened Multiplier
  import opened Mips
  import opened Unaligned
  import opened Decoding

  datatype Format = Special(funct: nat) | Bcond(cond: nat) | Jump(opcode: nat) | Immed(opcode: nat) | NoFormat

  function FormatOf(op: Op): (f: Format)
    ensures f.Special? ==> f.funct < 64
    ensures f.Bcond? ==> f.cond < 32
    ensures f.Jump? ==> 1 < f.opcode < 4
    ensures f.Immed? ==> 3 < f.opcode < 64
    ensures f.NoFormat? <==> op == UNIMP || op == RES
  {
    match op
    case SLL => Special(0x00) case SRL => Special(0x02) case SRA => Special(0x03)
    case SLLV => Special(0x04) case SRLV => Special(0x06) case SRAV => Special(0x07)
    case JR => Special(0x08) case JALR => Special(0x09) case SYSCALL => Special(0x0c)
    case MFHI => Special(0x10) case MTHI => Special(0x11) case MFLO => Special(0x12) case MTLO => Special(0x13)
    case MULT => Special(0x18) case MULTU => Special(0x19) case DIV => Special(0x1a) case DIVU => Special(0x1b)
    case ADD => Special(0x20) case ADDU => Special(0x21) case SUB => Special(0x22) case SUBU => Special(0x23)
    case AND => Special(0x24) case OR => Special(0x25) case XOR => Special(0x26) case NOR => Special(0x27)
    case SLT => Special(0x2a) case SLTU => Special(0x2b)
    case BLTZ => Bcond(0x00) case BGEZ => Bcond(0x01) case BLTZAL => Bcond(0x10) case BGEZAL => Bcond(0x11)
    case J => Jump(0x02) case JAL => Jump(0x03)
    case BEQ => Immed(0x04) case BNE => Immed(0x05) case BLEZ => Immed(0x06) case BGTZ => Immed(0x07)
    case ADDI => Immed(0x08) case ADDIU => Immed(0x09) case SLTI => Immed(0x0a) case SLTIU => Immed(0x0b)
    case ANDI => Immed(0x0c) case ORI => Immed(0x0d) case XORI => Immed(0x0e) case LUI => Immed(0x0f)
    case LB => Immed(0x20) case LH => Immed(0x21) case LWL => Immed(0x22) case LW => Immed(0x23)
    case LBU => Immed(0x24) case LHU => Immed(0x25) case LWR => Immed(0x26)
    case SB => Immed(0x28) case SH => Immed(0x29) case SWL => Immed(0x2a) case SW => Immed(0x2b) case SWR => Immed(0x2e)
    case UNIMP => NoFormat
    case RES => NoFormat
  }

  /** The word of an instruction: opcode, rs, rt and the rest, from the top. */
  function Encode(i: Instruction): nat {
    match FormatOf(i.op)
    case Special(funct) => i.rs * 0x20_0000 + i.rt * 0x1_0000 + i.rd * 0x800 + i.extra * 0x40 + funct
    case Bcond(cond) => 0x400_0000 + i.rs * 0x20_0000 + cond * 0x1_0000 + i.extra % 0x1_0000
    case Jump(opcode) => opcode * 0x400_0000 + i.extra
    case Immed(opcode) => opcode * 0x400_0000 + i.rs * 0x20_0000 + i.rt * 0x1_0000 + i.extra % 0x1_0000
    case NoFormat => 0
  }

  /** Sixteen bits, sign-extended. */
  predicate Short(x: Word) {
    -0x8000 <= ToInt(x) < 0x8000
  }

  /** The fields of an instruction fit its format; those that the format does not have are bits of the field that is there. */
  predicate WellFormed(i: Instruction) {
    match FormatOf(i.op)
    case Special(_) => i.extra < 0x20
    case Bcond(cond) => Short(i.extra) && i.rt == cond && i.rd == i.extra % 0x1_0000 / 0x800
    case Jump(_) =>
      && i.extra < 0x400_0000 && i.rs == i.extra / 0x20_0000
      && i.rt == i.extra / 0x1_0000 % 0x20 && i.rd == i.extra / 0x800 % 0x20
    case Immed(_) => Short(i.extra) && i.rd == i.extra % 0x1_0000 / 0x800
    case NoFormat => false
  }

  // ---------------------------------------------------------------- the tables

  lemma SpecialTable(op: Op)
    ensures FormatOf(op).Special? ==> SpecialOp(FormatOf(op).funct) == op
  {
    hide FormatOf, SpecialOp;
    LowSpecialTable(op);
    HighSpecialTable(op);
  }

  lemma LowSpecialTable(op: Op)
    ensures FormatOf(op).Special? && FormatOf(op).funct < 0x18 ==> SpecialOp(FormatOf(op).funct) == op
  {
  }

  lemma HighSpecialTable(op: Op)
    ensures FormatOf(op).Special? && FormatOf(op).funct >= 0x18 ==> SpecialOp(FormatOf(op).funct) == op
  {
  }

  lemma PrimaryTable(op: Op)
    ensures FormatOf(op).Jump? || FormatOf(op).Immed? ==> PrimaryOp(FormatOf(op).opcode) == op
  {
    hide FormatOf, PrimaryOp;
    LowPrimaryTable(op);
    HighPrimaryTable(op);
  }

  lemma LowPrimaryTable(op: Op)
    ensures (FormatOf(op).Jump? || FormatOf(op).Immed?) && FormatOf(op).opcode < 0x20 ==> PrimaryOp(FormatOf(op).opcode) == op
  {
  }

  lemma HighPrimaryTable(op: Op)
    ensures FormatOf(op).Immed? && FormatOf(op).opcode >= 0x20 ==> PrimaryOp(FormatOf(op).opcode) == op
  {
  }

  lemma SpecialIsFormat(funct: nat)
    requires funct < 64
    ensures var op := SpecialOp(funct); op == UNIMP || op == RES || FormatOf(op) == Special(funct)
  {
    hide FormatOf, SpecialOp;
    if funct < 0x18 {
      LowSpecialIsFormat(funct);
    } else {
      HighSpecialIsFormat(funct);
    }
  }

  lemma LowSpecialIsFormat(funct: nat)
    requires funct < 0x18
    ensures var op := SpecialOp(funct); op == UNIMP || op == RES || FormatOf(op) == Special(funct)
  {
  }

  lemma HighSpecialIsFormat(funct: nat)
    requires 0x18 <= funct < 64
    ensures var op := SpecialOp(funct); op == UNIMP || op == RES || FormatOf(op) == Special(funct)
  {
  }

  lemma PrimaryIsFormat(opcode: nat)
    requires 1 < opcode < 64
    ensures var op := PrimaryOp(opcode);
      op == UNIMP || op == RES || FormatOf(op) == if opcode < 4 then Jump(opcode) else Immed(opcode)
  {
    hide FormatOf, PrimaryOp;
    if opcode < 0x20 {
      LowPrimaryIsFormat(opcode);
    } else {
      HighPrimaryIsFormat(opcode);
    }
  }

  lemma LowPrimaryIsFormat(opcode: nat)
    requires 1 < opcode < 0x20
    ensures var op := PrimaryOp(opcode);
      op == UNIMP || op == RES || FormatOf(op) == if opcode < 4 then Jump(opcode) else Immed(opcode)
  {
  }

  lemma HighPrimaryIsFormat(opcode: nat)
    requires 0x20 <= opcode < 64
    ensures var op := PrimaryOp(opcode); op == UNIMP || op == RES || FormatOf(op) == Immed(opcode)
  {
  }

  // ---------------------------------------------------------------- fields

  function Doubled(y: nat, k: nat): nat {
    if k == 0 then y else 2 * Doubled(y, k - 1)
  }

  function Halved(x: nat, k: nat): nat {
    if k == 0 then x else Halved(x / 2, k - 1)
  }

  lemma {:induction false} AndScaled(x: nat, y: nat, k: nat)
    ensures And(x, Doubled(y, k)) == Doubled(And(Halved(x, k), y), k)
    decreases k
  {
    if k > 0 {
      AndEven(x, Doubled(y, k));
      AndScaled(x / 2, y, k - 1);
      hide And;
    }
  }

  lemma {:induction false} HalvedIs(x: nat, k: nat)
    ensures x / Pow2(k) >= 0 && Halved(x, k) == x / Pow2(k)
    decreases k
  {
    if k > 0 {
      HalvedIs(x / 2, k - 1);
      DivTwice(x, 2, Pow2(k - 1));
    }
  }

  lemma {:induction false} DoubledIs(y: nat, k: nat)
    ensures Doubled(y, k) == y * Pow2(k)
  {
    if k > 0 {
      DoubledIs(y, k - 1);
      DoubleTimes(y, Pow2(k - 1));
    }
  }

  lemma CondField(value: Word)
    ensures And(value, 0x1f_0000) == value / 0x1_0000 % 0x20 * 0x1_0000
  {
    hide And, Halved, Doubled;
    Pow2Width();
    FiveBits();
    AndScaled(value, 0x1f, 16);
    HalvedIs(value, 16);
    DoubledIs(0x1f, 16);
    DoubledIs(And(value / 0x1_0000, 0x1f), 16);
    AndOnes(value / 0x1_0000, 5);
    hide Pow2;
  }

  lemma FiveBits()
    ensures Pow2(5) == 0x20
  {
  }

  lemma BranchIs(value: Word)
    ensures var cond := value / 0x1_0000 % 0x20;
      BranchOp(value) == if cond == 0 then BLTZ else if cond == 1 then BGEZ
        else if cond == 0x10 then BLTZAL else if cond == 0x11 then BGEZAL else UNIMP
  {
    hide And;
    CondField(value);
  }

  /** All fields of a word. */
  lemma Fields(value: Word)
    ensures var p, s, t, imm := value / 0x400_0000, value / 0x20_0000 % 0x20, value / 0x1_0000 % 0x20, value % 0x1_0000;
      && p < 64 && value == p * 0x400_0000 + s * 0x20_0000 + t * 0x1_0000 + imm
      && value % 0x400_0000 == s * 0x20_0000 + t * 0x1_0000 + imm
      && imm == imm / 0x800 * 0x800 + imm / 0x40 % 0x20 * 0x40 + imm % 0x40
      && value / 0x800 % 0x20 == imm / 0x800 && value / 0x40 % 0x20 == imm / 0x40 % 0x20 && value % 0x40 == imm % 0x40
  {
    var imm := value % 0x1_0000;
    var a := value / 0x1_0000;
    assert value == a * 0x1_0000 + imm;
    UpperFields(value, a);
    LowerFields(value, a, imm);
  }

  lemma UpperFields(value: Word, a: nat)
    requires a == value / 0x1_0000
    ensures var p, s, t := value / 0x400_0000, value / 0x20_0000 % 0x20, value / 0x1_0000 % 0x20;
      && a == p * 0x400 + s * 0x20 + t && p < 64
      && value % 0x400_0000 == s * 0x20_0000 + t * 0x1_0000 + value % 0x1_0000
  {
    DivTwice(value, 0x1_0000, 0x20);
    DivTwice(value, 0x1_0000, 0x400);
    DivTwice(a, 0x20, 0x20);
    var b := a / 0x20;
    assert a == b * 0x20 + a % 0x20 && b == b / 0x20 * 0x20 + b % 0x20;
    assert value == (b / 0x20) * 0x400_0000 + ((b % 0x20) * 0x20_0000 + (a % 0x20) * 0x1_0000 + value % 0x1_0000);
    ModUnique(value, 0x400_0000, b / 0x20, (b % 0x20) * 0x20_0000 + (a % 0x20) * 0x1_0000 + value % 0x1_0000);
  }

  lemma LowerFields(value: Word, a: nat, imm: nat)
    requires value == a * 0x1_0000 + imm && imm < 0x1_0000
    ensures imm == imm / 0x800 * 0x800 + imm / 0x40 % 0x20 * 0x40 + imm % 0x40
    ensures value / 0x800 % 0x20 == imm / 0x800 && value / 0x40 % 0x20 == imm / 0x40 % 0x20 && value % 0x40 == imm % 0x40
  {
    var c := imm / 0x40;
    DivTwice(imm, 0x40, 0x20);
    assert imm == c * 0x40 + imm % 0x40 && c == c / 0x20 * 0x20 + c % 0x20;
    ModUnique(value, 0x800, a * 0x20 + imm / 0x800, imm % 0x800);
    ModUnique(a * 0x20 + imm / 0x800, 0x20, a, imm / 0x800);
    ModUnique(value, 0x40, a * 0x400 + c, imm % 0x40);
    ModUnique(a * 0x400 + c, 0x20, a * 0x20 + c / 0x20, c % 0x20);
  }

  /** What Decode makes of a word, field by field. */
  lemma DecodeFields(value: Word)
    ensures var i, p, imm := Decode(value), value / 0x400_0000, value % 0x1_0000;
      && i.rs == value / 0x20_0000 % 0x20 && i.rt == value / 0x1_0000 % 0x20 && i.rd == imm / 0x800
      && i.op == (if p == 0 then SpecialOp(imm % 0x40) else if p == 1 then BranchOp(value) else PrimaryOp(p))
      && i.extra == if p == 0 then imm / 0x40 % 0x20 else if p == 2 || p == 3 then value % 0x400_0000
           else if imm >= 0x8000 then imm + 0xffff_0000 else imm
  {
    hide And, Or32, SpecialOp, BranchOp, PrimaryOp, Field;
    Fields(value);
    SixBits(value / 0x400_0000);
    SixBits(value);
    LowParts(value);
    FieldIs(value, 0x20_0000);
    FieldIs(value, 0x1_0000);
    FieldIs(value, 0x800);
    FieldIs(value, 0x40);
    SignExtends(value % 0x1_0000);
  }

  // ---------------------------------------------------------------- there and back

  /** Every instruction word of the architecture that is implemented decodes to its instruction. */
  lemma DecodeEncode(i: Instruction)
    requires WellFormed(i)
    ensures Encode(i) < 0x1_0000_0000 && Decode(Encode(i)) == i
  {
    hide Decode, SpecialOp, BranchOp, PrimaryOp;
    SpecialTable(i.op);
    PrimaryTable(i.op);
    EncodedFields(i);
    DecodeFields(Encode(i));
    if FormatOf(i.op).Bcond? {
      BranchIs(Encode(i));
      CondsMatch(i.op);
    }
  }

  lemma CondsMatch(op: Op)
    requires FormatOf(op).Bcond?
    ensures var cond := FormatOf(op).cond;
      op == if cond == 0 then BLTZ else if cond == 1 then BGEZ else if cond == 0x10 then BLTZAL else BGEZAL
    ensures var cond := FormatOf(op).cond; cond == 0 || cond == 1 || cond == 0x10 || cond == 0x11
  {
  }

  /** Sixteen bits and their sign extension. */
  lemma ShortIs(x: Word)
    requires Short(x)
    ensures x == if x % 0x1_0000 >= 0x8000 then x % 0x1_0000 + 0xffff_0000 else x % 0x1_0000
  {
    if x >= 0x8000_0000 {
      ModUnique(x, 0x1_0000, 0xffff, x - 0xffff_0000);
    } else {
      ModUnique(x, 0x1_0000, 0, x);
    }
  }

  /** The fields of a word put together from its parts. */
  lemma PutTogether(p: nat, s: nat, t: nat, imm: nat)
    requires p < 64 && s < 0x20 && t < 0x20 && imm < 0x1_0000
    ensures var value := p * 0x400_0000 + s * 0x20_0000 + t * 0x1_0000 + imm;
      && value < 0x1_0000_0000 && value / 0x400_0000 == p && value / 0x20_0000 % 0x20 == s
      && value / 0x1_0000 % 0x20 == t && value % 0x1_0000 == imm
  {
    TopParts(p, s, t, imm);
    hide Top;
  }

  lemma EncodedFields(i: Instruction)
    requires WellFormed(i)
    ensures Encode(i) < 0x1_0000_0000
    ensures var value, f := Encode(i) as Word, FormatOf(i.op);
      var p, imm := value / 0x400_0000, value % 0x1_0000;
      && value / 0x20_0000 % 0x20 == i.rs && value / 0x1_0000 % 0x20 == i.rt && imm / 0x800 == i.rd
      && p == (if f.Special? then 0 else if f.Bcond? then 1 else f.opcode)
      && (f.Special? ==> imm % 0x40 == f.funct && imm / 0x40 % 0x20 == i.extra)
      && (f.Jump? ==> value % 0x400_0000 == i.extra)
      && (f.Bcond? || f.Immed? ==> i.extra == if imm >= 0x8000 then imm + 0xffff_0000 else imm)
  {
    hide FormatOf, ToInt;
    match FormatOf(i.op)
    case Special(_) => EncodedSpecial(i);
    case Jump(_) => EncodedJump(i);
    case _ => EncodedImmediate(i);
  }

  lemma EncodedSpecial(i: Instruction)
    requires WellFormed(i) && FormatOf(i.op).Special?
    ensures Encode(i) < 0x1_0000_0000
    ensures var value, f := Encode(i) as Word, FormatOf(i.op);
      var p, imm := value / 0x400_0000, value % 0x1_0000;
      && value / 0x20_0000 % 0x20 == i.rs && value / 0x1_0000 % 0x20 == i.rt && imm / 0x800 == i.rd
      && p == 0 && imm % 0x40 == f.funct && imm / 0x40 % 0x20 == i.extra
  {
    hide FormatOf;
    var funct := FormatOf(i.op).funct;
    var imm := i.rd * 0x800 + i.extra * 0x40 + funct;
    SpecialLow(i.rd, i.extra, funct);
    Assembled(0, i.rs, i.rt, imm, Encode(i));
  }

  lemma SpecialLow(rd: nat, x: nat, funct: nat)
    requires rd < 0x20 && x < 0x20 && funct < 0x40
    ensures var imm := rd * 0x800 + x * 0x40 + funct;
      imm < 0x1_0000 && imm / 0x800 == rd && imm % 0x40 == funct && imm / 0x40 % 0x20 == x
  {
    var imm := rd * 0x800 + x * 0x40 + funct;
    ModUnique(imm, 0x800, rd, x * 0x40 + funct);
    ModUnique(imm, 0x40, rd * 0x20 + x, funct);
    ModUnique(rd * 0x20 + x, 0x20, rd, x);
  }

  lemma Assembled(p: nat, s: nat, t: nat, imm: nat, value: nat)
    requires p < 64 && s < 0x20 && t < 0x20 && imm < 0x1_0000
    requires value == p * 0x400_0000 + s * 0x20_0000 + t * 0x1_0000 + imm
    ensures value < 0x1_0000_0000 && value / 0x400_0000 == p && value / 0x20_0000 % 0x20 == s
    ensures value / 0x1_0000 % 0x20 == t && value % 0x1_0000 == imm
  {
    PutTogether(p, s, t, imm);
  }

  lemma EncodedJump(i: Instruction)
    requires WellFormed(i) && FormatOf(i.op).Jump?
    ensures Encode(i) < 0x1_0000_0000
    ensures var value, f := Encode(i) as Word, FormatOf(i.op);
      var p, imm := value / 0x400_0000, value % 0x1_0000;
      && value / 0x20_0000 % 0x20 == i.rs && value / 0x1_0000 % 0x20 == i.rt && imm / 0x800 == i.rd
      && p == f.opcode && value % 0x400_0000 == i.extra
  {
    hide FormatOf;
    var opcode := FormatOf(i.op).opcode;
    JumpFields(i.extra);
    PutTogether(opcode, i.rs, i.rt, i.extra % 0x1_0000);
    ModUnique(opcode * 0x400_0000 + i.extra, 0x400_0000, opcode, i.extra);
  }

  lemma EncodedImmediate(i: Instruction)
    requires WellFormed(i) && (FormatOf(i.op).Bcond? || FormatOf(i.op).Immed?)
    ensures Encode(i) < 0x1_0000_0000
    ensures var value, f := Encode(i) as Word, FormatOf(i.op);
      var p, imm := value / 0x400_0000, value % 0x1_0000;
      && value / 0x20_0000 % 0x20 == i.rs && value / 0x1_0000 % 0x20 == i.rt && imm / 0x800 == i.rd
      && p == (if f.Bcond? then 1 else f.opcode)
      && i.extra == if imm >= 0x8000 then imm + 0xffff_0000 else imm
  {
    hide FormatOf, Short;
    ShortIs(i.extra);
    var low := i.extra % 0x1_0000;
    match FormatOf(i.op)
    case Bcond(cond) => Assembled(1, i.rs, cond, low, Encode(i));
    case Immed(opcode) => Assembled(opcode, i.rs, i.rt, low, Encode(i));
  }

  lemma JumpFields(x: Word)
    requires x < 0x400_0000
    ensures x / 0x20_0000 < 0x20 && x / 0x20_0000 == x / 0x20_0000 % 0x20
    ensures x == x / 0x20_0000 * 0x20_0000 + x / 0x1_0000 % 0x20 * 0x1_0000 + x % 0x1_0000
    ensures x % 0x1_0000 / 0x800 == x / 0x800 % 0x20
  {
    Fields(x);
    ModUnique(x, 0x400_0000, 0, x);
  }

  /** And every word is the word of the instruction it decodes to, or decodes to none that is implemented. */
  lemma EncodeDecode(value: Word)
    ensures var i := Decode(value); i.op == UNIMP || i.op == RES || (WellFormed(i) && Encode(i) == value)
  {
    hide Decode, SpecialOp, BranchOp, PrimaryOp, FormatOf;
    DecodeFields(value);
    Fields(value);
    var i, p, imm := Decode(value), value / 0x400_0000, value % 0x1_0000;
    if p == 0 {
      SpecialIsFormat(imm % 0x40);
    } else if p == 1 {
      BranchIs(value);
      BcondFormats();
      Extended(imm);
    } else {
      PrimaryIsFormat(p);
      Extended(imm);
      if p < 4 {
        JumpDecoded(value);
      }
    }
  }

  /** Which words are unimplemented: the coprocessor instructions, BREAK, and BCOND but for its four branches.  With
      EncodeDecode, the reserved ones are all that are left. */
  lemma Unimplemented(value: Word)
    ensures var p, rt, f := value / 0x400_0000, value / 0x1_0000 % 0x20, value % 0x40;
      Decode(value).op == UNIMP <==>
        || 16 <= p < 20 || 48 <= p < 52 || 56 <= p < 60
        || (p == 0 && f == 13)
        || (p == 1 && rt != 0 && rt != 1 && rt != 16 && rt != 17)
  {
    hide Decode;
    DecodeFields(value);
    Fields(value);
    if value / 0x400_0000 == 1 {
      BranchIs(value);
    }
  }

  lemma BcondFormats()
    ensures FormatOf(BLTZ) == Bcond(0) && FormatOf(BGEZ) == Bcond(1)
    ensures FormatOf(BLTZAL) == Bcond(0x10) && FormatOf(BGEZAL) == Bcond(0x11)
  {
  }

  lemma Extended(imm: nat)
    requires imm < 0x1_0000
    ensures var x: Word := if imm >= 0x8000 then imm + 0xffff_0000 else imm; Short(x) && x % 0x1_0000 == imm
  {
    if imm >= 0x8000 {
      ModUnique(imm + 0xffff_0000, 0x1_0000, 0xffff, imm);
    } else {
      ModUnique(imm, 0x1_0000, 0, imm);
    }
  }

  lemma JumpDecoded(value: Word)
    ensures var x, p := value % 0x400_0000, value / 0x400_0000;
      && x / 0x20_0000 == value / 0x20_0000 % 0x20 && x / 0x1_0000 % 0x20 == value / 0x1_0000 % 0x20
      && x / 0x800 % 0x20 == value % 0x1_0000 / 0x800 && value == p * 0x400_0000 + x
  {
    Fields(value);
    var x := value % 0x400_0000;
    var s, t, imm := value / 0x20_0000 % 0x20, value / 0x1_0000 % 0x20, value % 0x1_0000;
    PutTogether(0, s, t, imm);
    assert x == s * 0x20_0000 + t * 0x1_0000 + imm;
    ModUnique(x, 0x20_0000, s, t * 0x1_0000 + imm);
    JumpFields(x);
  }
}
