/** Instruction formats (machine/mipssim.cc, Instruction::Decode): the fields of a word come out where they were put in. */
module Decoding {
  import opened Common
  import opened Bits
  import opened Memory
  import opened Multiplier
  import opened Mips
  import opened Unaligned

  type Primary = x: nat | x < 64

  /** The top sixteen bits of every format with registers. */
  function Top(primary: Primary, rs: Reg, rt: Reg): (r: nat)
    ensures r < 0x1_0000
  {
    primary * 0x400 + rs * 0x20 + rt
  }

  function Immediate16(primary: Primary, rs: Reg, rt: Reg, imm: nat): Word
    requires imm < 0x1_0000
  {
    Top(primary, rs, rt) * 0x1_0000 + imm
  }

  function Special(rs: Reg, rt: Reg, rd: Reg, shamt: Reg, funct: Primary): Word {
    Immediate16(0, rs, rt, rd * 0x800 + shamt * 0x40 + funct)
  }

  lemma FieldIs(value: Word, unit: nat)
    requires unit > 0
    ensures Field(value, unit) == value / unit % 0x20
  {
    assert Pow2(5) == 0x20;
    AndOnes(value / unit, 5);
  }

  lemma SixBits(x: nat)
    ensures And(x, 0x3f) == x % 0x40
    ensures x < 0x40 ==> And(x, 0x3f) == x
  {
    assert Pow2(6) == 0x40;
    AndOnes(x, 6);
  }

  lemma LowParts(value: Word)
    ensures And(value, 0xffff) == value % 0x1_0000 && And(value, 0x3ff_ffff) == value % 0x400_0000
  {
    Pow2Width();
    assert Pow2(26) == 4 * Pow2(24);
    AndOnes(value, 16);
    AndOnes(value, 26);
  }

  /** Dividing and masking pick the middle part out of a sum. */
  lemma Pick(high: nat, mid: nat, low: nat, unit: nat, width: nat)
    requires 0 < unit && low < unit && mid < width
    ensures ((high * width + mid) * unit + low) / unit % width == mid
    ensures ((high * width + mid) * unit + low) / unit == high * width + mid
  {
    ModUnique((high * width + mid) * unit + low, unit, high * width + mid, low);
    ModUnique(high * width + mid, width, high, mid);
  }

  lemma TopParts(primary: Primary, rs: Reg, rt: Reg, imm: nat)
    requires imm < 0x1_0000
    ensures var value := Immediate16(primary, rs, rt, imm);
      && value / 0x400_0000 == primary && value / 0x20_0000 % 0x20 == rs && value / 0x1_0000 % 0x20 == rt
      && value / 0x1_0000 == Top(primary, rs, rt) && value % 0x1_0000 == imm
  {
    var value := Immediate16(primary, rs, rt, imm);
    ModUnique(value, 0x400_0000, primary, (rs * 0x20 + rt) * 0x1_0000 + imm);
    Pick(primary, rs, rt * 0x1_0000 + imm, 0x20_0000, 0x20);
    assert value == (primary * 0x20 + rs) * 0x20_0000 + (rt * 0x1_0000 + imm);
    Pick(primary * 0x20 + rs, rt, imm, 0x1_0000, 0x20);
    assert value == ((primary * 0x20 + rs) * 0x20 + rt) * 0x1_0000 + imm;
    ModUnique(value, 0x1_0000, Top(primary, rs, rt), imm);
  }

  /** Primary opcode and both source registers, in any format that has them. */
  lemma DecodesTop(primary: Primary, rs: Reg, rt: Reg, imm: nat)
    requires imm < 0x1_0000
    ensures var value := Immediate16(primary, rs, rt, imm);
      && And(value / 0x400_0000, 0x3f) == primary
      && Decode(value).rs == rs && Decode(value).rt == rt
      && And(value, 0xffff) == imm
  {
    var value := Immediate16(primary, rs, rt, imm);
    TopParts(primary, rs, rt, imm);
    hide Immediate16, And, Field, SpecialOp, BranchOp, PrimaryOp, Extra, Top;
    SixBits(value / 0x400_0000);
    FieldIs(value, 0x20_0000);
    FieldIs(value, 0x1_0000);
    LowParts(value);
  }

  /** Immediates come out sign-extended. */
  lemma DecodesImmediate(primary: Primary, rs: Reg, rt: Reg, imm: nat)
    requires primary > 3 && imm < 0x1_0000
    ensures var i := Decode(Immediate16(primary, rs, rt, imm));
      && i.op == PrimaryOp(primary) && i.rs == rs && i.rt == rt
      && ToInt(i.extra) == if imm < 0x8000 then imm else imm - 0x1_0000
  {
    DecodesTop(primary, rs, rt, imm);
    SignExtends(imm);
    hide And, Or32, SpecialOp, BranchOp, PrimaryOp, Field;
  }

  lemma SignExtends(imm: nat)
    requires imm < 0x1_0000
    ensures And(imm, 0x8000) != 0 <==> imm >= 0x8000
    ensures Or32(imm, 0xffff_0000) == imm + 0xffff_0000
  {
    hide And, Or32, Bits.Or;
    SignOfHalf(imm);
    Join(0xffff_0000, imm);
  }

  lemma SignOfHalf(imm: nat)
    requires imm < 0x1_0000
    ensures And(imm, 0x8000) != 0 <==> imm >= 0x8000
  {
    Pow2Width();
    HalfWidth();
    AndHighOnes(imm, 0x8000, 15, 16);
    ModUnique(imm, 0x8000, if imm < 0x8000 then 0 else 1, if imm < 0x8000 then imm else imm - 0x8000);
    hide And, Pow2;
  }

  lemma HalfWidth()
    ensures Pow2(15) == 0x8000 && Pow2(16) == 0x1_0000
  {
    Pow2Width();
    assert Pow2(16) == 2 * Pow2(15);
  }

  lemma SpecialParts(rs: Reg, rt: Reg, rd: Reg, shamt: Reg, funct: Primary)
    ensures var value := Special(rs, rt, rd, shamt, funct);
      value / 0x800 % 0x20 == rd && value / 0x40 % 0x20 == shamt && value % 0x40 == funct
  {
    var value := Special(rs, rt, rd, shamt, funct);
    var top := Top(0, rs, rt);
    hide Top;
    Pick(top, rd, shamt * 0x40 + funct, 0x800, 0x20);
    assert value == (top * 0x20 + rd) * 0x800 + (shamt * 0x40 + funct);
    Pick(top * 0x20 + rd, shamt, funct, 0x40, 0x20);
    assert value == ((top * 0x20 + rd) * 0x20 + shamt) * 0x40 + funct;
    ModUnique(value, 0x40, (top * 0x20 + rd) * 0x20 + shamt, funct);
  }

  /** SPECIAL instructions: three registers, the shift amount and the function. */
  lemma DecodesSpecial(rs: Reg, rt: Reg, rd: Reg, shamt: Reg, funct: Primary)
    ensures Decode(Special(rs, rt, rd, shamt, funct)) == Instruction(SpecialOp(funct), rs, rt, rd, shamt)
  {
    var value := Special(rs, rt, rd, shamt, funct);
    DecodesTop(0, rs, rt, rd * 0x800 + shamt * 0x40 + funct);
    SpecialParts(rs, rt, rd, shamt, funct);
    assert value == Immediate16(0, rs, rt, rd * 0x800 + shamt * 0x40 + funct);
    hide Special, Immediate16, And, Field, SpecialOp, BranchOp, PrimaryOp;
    SixBits(value);
    FieldIs(value, 0x40);
    FieldIs(value, 0x800);
  }

  /** J and JAL: the target. */
  lemma DecodesJump(primary: Primary, target: nat)
    requires (primary == 2 || primary == 3) && target < 0x400_0000
    ensures var i := Decode(primary * 0x400_0000 + target);
      i.op == (if primary == 2 then J else JAL) && i.extra == target
  {
    hide And, SpecialOp, BranchOp, Field, Or32;
    var value := primary * 0x400_0000 + target;
    ModUnique(value, 0x400_0000, primary, target);
    SixBits(value / 0x400_0000);
    LowParts(value);
  }
}
