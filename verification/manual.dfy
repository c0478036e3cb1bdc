/**
 The instructions of the MIPS R2/3000 as its architecture manual describes them (Kane and Heinrich, MIPS RISC Architecture,
 appendix A), in numbers, bits and bytes, proved of what one instruction of the simulator (machine/mipssim.cc) does.

 A load takes effect after the next instruction, a branch after the one behind it: an instruction reads the registers as they
 are, then the pending load arrives.
 */
module Manual {
  import opened Common
  import opened Bits
  import opened Memory
  import opened Multiplier
  import opened Mips
  import opened DelaySlot
  import opened Unaligned
  import opened Arithmetic
  import Decoding
  import E = Encoding
  import V = SoftwareTlb
  import Bitmaps

  /** A number cut to 32 bits. */
  function Mod32(x: int): (r: Word)
    ensures 0 <= x < 0x1_0000_0000 ==> r == x
  {
    x % 0x1_0000_0000
  }

  lemma Mod32Is(x: int)
    ensures Mod32(x) == Wrap(x) && Mod32(Wrap(x)) == Wrap(x)
  {
  }

  // ---------------------------------------------------------------- what completing and trapping leave behind

  /** The registers afterwards: `v` in register `d`, then the load that was pending; register 0 is zero. */
  predicate Written(c: Cpu, c': Cpu, d: Reg, v: Word)
    requires c.Valid()
  {
    c'.Valid() && forall x: nat :: x < 32 ==>
      c'.gpr[x] == if x == 0 then 0 else if x == c.loadReg then c.loadValue else if x == d then v else c.gpr[x]
  }

  /** The instruction completed, `next` follows the instruction behind it, and HI and LO are these. */
  predicate Completed(c: Cpu, r: Result, next: int, hi: Word, lo: Word) {
    && r.exception == NoException && r.cpu.prevPc == c.pc && r.cpu.pc == c.nextPc && r.cpu.nextPc == Mod32(next)
    && r.cpu.hi == hi && r.cpu.lo == lo && r.cpu.badVAddr == c.badVAddr
  }

  /** The instruction completed and wrote `v` to `d`; nothing else but the program counters changed. */
  predicate Gives(c: Cpu, i: Instruction, m: Memory, d: Reg, v: Word)
    requires c.Valid() && m.Valid()
  {
    var r := Do(c, i, m);
    && Completed(c, r, c.nextPc + 4, c.hi, c.lo) && Written(c, r.cpu, d, v)
    && r.cpu.loadReg == 0 && r.mem == m
  }

  /** The exception: nothing but the pending load and the bad address changed. */
  predicate Traps(c: Cpu, i: Instruction, m: Memory, exception: Exception, badVAddr: Word)
    requires c.Valid() && m.Valid()
  {
    var r := Do(c, i, m);
    && r.exception == exception && r.exception != NoException && Written(c, r.cpu, 0, 0) && r.cpu.badVAddr == badVAddr
    && r.cpu.pc == c.pc && r.cpu.nextPc == c.nextPc && r.cpu.prevPc == c.prevPc && r.cpu.hi == c.hi && r.cpu.lo == c.lo
    && r.cpu.loadReg == 0
  }

  /** The registers when an effect is carried out. */
  lemma FinishWrites(c: Cpu, e: Effect)
    requires Good(c) && e.Effect?
    ensures var r := Finish(c, e);
      && Completed(c, r, e.pcAfter, e.hi, e.lo) && r.mem == e.mem
      && Written(c, r.cpu, if e.write.Some? then e.write.value.0 else 0, if e.write.Some? then e.write.value.1 else 0)
      && r.cpu.loadReg == e.load.0 && r.cpu.loadValue == e.load.1
  {
    Mod32Is(e.pcAfter);
    hide Mod32;
  }

  lemma FinishTraps(c: Cpu, e: Effect)
    requires Good(c) && e.Raise?
    ensures var r := Finish(c, e);
      && r.exception == e.exception && Written(c, r.cpu, 0, 0) && r.cpu.badVAddr == e.badVAddr && r.mem == e.mem
      && r.cpu.pc == c.pc && r.cpu.nextPc == c.nextPc && r.cpu.prevPc == c.prevPc && r.cpu.hi == c.hi && r.cpu.lo == c.lo
      && r.cpu.loadReg == 0
  {
  }

  // ---------------------------------------------------------------- instructions that compute

  /** Computing instructions with an immediate operand write rt, the others rd. */
  function Dest(i: Instruction): Reg {
    if i.op == ADDI || i.op == ADDIU || i.op == SLTI || i.op == SLTIU || i.op == ANDI || i.op == ORI || i.op == XORI || i.op == LUI
    then i.rt else i.rd
  }

  lemma Computed(c: Cpu, i: Instruction, m: Memory)
    requires Good(c) && m.Valid() && Computes(i.op)
    ensures var v := Compute(c.gpr[i.rs], c.gpr[i.rt], c.hi, c.lo, i);
      if v.Some? then Gives(c, i, m, Dest(i), v.value) else Traps(c, i, m, OverflowException, 0) && Do(c, i, m).mem == m
  {
    hide Compute, Transfer, Control, Finish, Wrap;
    var o := OperandsOf(c, i);
    var e := Execute(o, i, m);
    if e.Effect? {
      FinishWrites(c, e);
      Mod32Is(c.nextPc + 4);
    } else {
      FinishTraps(c, e);
    }
  }

  /** ADD, ADDI, SUB: the exact sum or difference of two's complement numbers, or the overflow exception if it does not fit. */
  lemma AddsExactly(c: Cpu, i: Instruction, m: Memory)
    requires Good(c) && m.Valid() && (i.op == ADD || i.op == ADDI || i.op == SUB)
    ensures var s, t := ToInt(c.gpr[i.rs]), ToInt(if i.op == ADDI then i.extra else c.gpr[i.rt]);
      var n := if i.op == SUB then s - t else s + t;
      if Fits(n) then exists v: Word :: Gives(c, i, m, if i.op == ADDI then i.rt else i.rd, v) && ToInt(v) == n
      else Traps(c, i, m, OverflowException, 0) && Do(c, i, m).mem == m
  {
    hide Compute, Gives, Traps, Do, Fits, ToInt;
    Computed(c, i, m);
    if i.op == SUB {
      SubTrapsOnOverflow(c.gpr[i.rs], c.gpr[i.rt], c.hi, c.lo, i);
    } else {
      AddTrapsOnOverflow(c.gpr[i.rs], c.gpr[i.rt], c.hi, c.lo, i);
    }
  }

  /** ADDU, ADDIU, SUBU: the same modulo 2^32, without an exception. */
  lemma AddsModulo(c: Cpu, i: Instruction, m: Memory)
    requires Good(c) && m.Valid() && (i.op == ADDU || i.op == ADDIU || i.op == SUBU)
    ensures var s, t := ToInt(c.gpr[i.rs]), ToInt(if i.op == ADDIU then i.extra else c.gpr[i.rt]);
      var n := if i.op == SUBU then s - t else s + t;
      Gives(c, i, m, if i.op == ADDIU then i.rt else i.rd, Mod32(n))
  {
    hide Gives, ToInt, Compute, Wrap, Mod32, Dest;
    var s, t := c.gpr[i.rs], if i.op == ADDIU then i.extra else c.gpr[i.rt];
    ModuloSum(s, t);
    UnsignedAdds(s, c.gpr[i.rt], c.hi, c.lo, i);
    DestIs(i);
    var v := Compute(s, c.gpr[i.rt], c.hi, c.lo, i).value;
    ComputedTo(c, i, m, v);
  }

  lemma DestIs(i: Instruction)
    requires i.op == ADDU || i.op == ADDIU || i.op == SUBU
    ensures Dest(i) == if i.op == ADDIU then i.rt else i.rd
    ensures Computes(i.op)
  {
  }

  lemma ModuloSum(s: Word, t: Word)
    ensures Wrap(s + t) == Mod32(ToInt(s) + ToInt(t)) && Wrap(s - t) == Mod32(ToInt(s) - ToInt(t))
  {
    hide Wrap, Mod32, ToInt;
    WrapSum(s, t);
    Mod32Is(ToInt(s) + ToInt(t));
    Mod32Is(ToInt(s) - ToInt(t));
  }

  lemma ComputedTo(c: Cpu, i: Instruction, m: Memory, v: Word)
    requires Good(c) && m.Valid() && Computes(i.op)
    requires Compute(c.gpr[i.rs], c.gpr[i.rt], c.hi, c.lo, i) == Some(v)
    ensures Gives(c, i, m, Dest(i), v)
  {
    hide Compute, Gives, Traps, Dest;
    Computed(c, i, m);
  }

  lemma UnsignedAdds(s: Word, t: Word, hi: Word, lo: Word, i: Instruction)
    requires i.op == ADDU || i.op == ADDIU || i.op == SUBU
    ensures Compute(s, t, hi, lo, i) ==
      Some(if i.op == ADDIU then Wrap(s + i.extra) else if i.op == ADDU then Wrap(s + t) else Wrap(s - t))
  {
    hide And, Or32, Xor32, Shl, Sar, SignSet, Wrap;
  }

  /** SLT and SLTI compare two's complement numbers, SLTU and SLTIU unsigned ones. */
  lemma SetsIff(c: Cpu, i: Instruction, m: Memory)
    requires Good(c) && m.Valid() && (i.op == SLT || i.op == SLTI || i.op == SLTU || i.op == SLTIU)
    ensures var s, t := c.gpr[i.rs], if i.op == SLTI || i.op == SLTIU then i.extra else c.gpr[i.rt];
      var less := if i.op == SLT || i.op == SLTI then ToInt(s) < ToInt(t) else s < t;
      Gives(c, i, m, if i.op == SLTI || i.op == SLTIU then i.rt else i.rd, if less then 1 else 0)
  {
    hide Gives, Do, ToInt, And, Or32, Xor32, Shl, Sar, SignSet, Wrap;
    Computed(c, i, m);
  }

  /** The logical instructions, bit by bit; their immediate is the low half of a word. */
  lemma LogicalDone(c: Cpu, i: Instruction, m: Memory)
    requires Good(c) && m.Valid()
    requires i.op == AND || i.op == ANDI || i.op == OR || i.op == ORI || i.op == XOR || i.op == XORI || i.op == NOR
    ensures var y := if i.op == ANDI || i.op == ORI || i.op == XORI then i.extra % 0x1_0000 else c.gpr[i.rt];
      var d := if i.op == ANDI || i.op == ORI || i.op == XORI then i.rt else i.rd;
      exists v: Word :: Gives(c, i, m, d, v) && Combined(i.op, v, c.gpr[i.rs], y)
  {
    hide Gives, Do, Compute, Bit, And;
    Computed(c, i, m);
    LogicalBits(c.gpr[i.rs], c.gpr[i.rt], c.hi, c.lo, i, 0);
    LowMasks(i.extra);
    var v := Compute(c.gpr[i.rs], c.gpr[i.rt], c.hi, c.lo, i).value;
    forall k: nat | k < 32 ensures CombinedAt(i.op, v, c.gpr[i.rs], LogicalOperand(c.gpr[i.rt], i), k) {
      LogicalBits(c.gpr[i.rs], c.gpr[i.rt], c.hi, c.lo, i, k);
    }
  }

  /** Bit `k` of a logical instruction's result. */
  predicate CombinedAt(op: Op, v: Word, x: Word, y: Word, k: nat) {
    Bit(v, k) <==>
      if op == AND || op == ANDI then Bit(x, k) && Bit(y, k)
      else if op == OR || op == ORI then Bit(x, k) || Bit(y, k)
      else if op == NOR then !Bit(x, k) && !Bit(y, k)
      else Bit(x, k) != Bit(y, k)
  }

  predicate Combined(op: Op, v: Word, x: Word, y: Word) {
    forall k: nat :: k < 32 ==> CombinedAt(op, v, x, y, k)
  }

  /** The shifts, bit by bit, by the shift amount or the low five bits of rs.  SRL and SRLV, too, fill with the sign bit. */
  lemma ShiftDone(c: Cpu, i: Instruction, m: Memory)
    requires Good(c) && m.Valid() && i.extra < 32
    requires i.op == SLL || i.op == SLLV || i.op == SRA || i.op == SRAV || i.op == SRL || i.op == SRLV
    ensures var t, n := c.gpr[i.rt], if i.op == SLL || i.op == SRA || i.op == SRL then i.extra else c.gpr[i.rs] % 32;
      exists v: Word :: Gives(c, i, m, i.rd, v) && Shifted(v, t, n, i.op == SLL || i.op == SLLV)
  {
    hide Gives, Do, And, Shl, Sar, Compute, Shifted;
    Computed(c, i, m);
    FiveLow(c.gpr[i.rs]);
    var t, n := c.gpr[i.rt], if i.op == SLL || i.op == SRA || i.op == SRL then i.extra else c.gpr[i.rs] % 32;
    ShiftComputes(c.gpr[i.rs], t, c.hi, c.lo, i);
    ShiftedRight(t, n);
  }

  /** Every bit `n` places up or down; zeros, or the sign bit, come in. */
  predicate Shifted(v: Word, t: Word, n: nat, left: bool) {
    forall k: nat :: k < 32 ==>
      (Bit(v, k) <==> if left then k >= n && Bit(t, k - n) else if k + n < 32 then Bit(t, k + n) else t >= 0x8000_0000)
  }

  lemma ShiftedRight(t: Word, n: nat)
    requires n < 32
    ensures Shifted(Shl(t, n), t, n, true) && Shifted(Sar(t, n), t, n, false)
  {
    hide Bit, Shl, Sar;
    forall k: nat | k < 32
      ensures Bit(Shl(t, n), k) <==> k >= n && Bit(t, k - n)
      ensures Bit(Sar(t, n), k) <==> if k + n < 32 then Bit(t, k + n) else t >= 0x8000_0000
    {
      ShlBits(t, n, k);
      SarBits(t, n, k);
    }
  }

  lemma ShiftComputes(s: Word, t: Word, hi: Word, lo: Word, i: Instruction)
    requires i.op == SLL || i.op == SLLV || i.op == SRA || i.op == SRAV || i.op == SRL || i.op == SRLV
    ensures var n := if i.op == SLL || i.op == SRA || i.op == SRL then i.extra else And(s, 0x1f);
      Compute(s, t, hi, lo, i) == Some(if i.op == SLL || i.op == SLLV then Shl(t, n) else Sar(t, n))
  {
    hide And, Or32, Xor32, Shl, Sar, SignSet, Wrap;
  }

  lemma FiveLow(x: Word)
    ensures And(x, 0x1f) == x % 32
  {
    assert Pow2(5) == 32;
    AndOnes(x, 5);
  }

  /** LUI puts the low half of its operand into the upper half of the register. */
  lemma LoadsUpper(c: Cpu, i: Instruction, m: Memory)
    requires Good(c) && m.Valid() && i.op == LUI
    ensures Gives(c, i, m, i.rt, i.extra % 0x1_0000 * 0x1_0000)
  {
    hide Gives, Do, And, Or32, Xor32, Sar, SignSet, Wrap, ToInt;
    Computed(c, i, m);
    UpperHalf(i.extra);
  }

  lemma UpperHalf(x: Word)
    ensures Shl(x, 16) == x % 0x1_0000 * 0x1_0000
  {
    Pow2Width();
    ModUnique(x * 0x1_0000, W, x / 0x1_0000, x % 0x1_0000 * 0x1_0000);
  }

  /** MFHI and MFLO. */
  lemma MovesFrom(c: Cpu, i: Instruction, m: Memory)
    requires Good(c) && m.Valid() && (i.op == MFHI || i.op == MFLO)
    ensures Gives(c, i, m, i.rd, if i.op == MFHI then c.hi else c.lo)
  {
    hide Gives, Do, And, Or32, Xor32, Shl, Sar, SignSet, Wrap, ToInt;
    Computed(c, i, m);
  }

  // ---------------------------------------------------------------- HI and LO

  /** The instruction completed, with new values of HI and LO and nothing else. */
  predicate GivesHiLo(c: Cpu, i: Instruction, m: Memory, hi: Word, lo: Word)
    requires c.Valid() && m.Valid()
  {
    var r := Do(c, i, m);
    Completed(c, r, c.nextPc + 4, hi, lo) && Written(c, r.cpu, 0, 0) && r.cpu.loadReg == 0 && r.mem == m
  }

  lemma Controlled(c: Cpu, i: Instruction, m: Memory)
    requires Good(c) && m.Valid() && !Computes(i.op) && !Transfers(i.op)
    ensures Do(c, i, m) == Finish(c,
      Control(Effect(None, c.hi, c.lo, Wrap(c.nextPc + 4), (0, 0), m), i, c.nextPc, c.gpr[i.rs], c.gpr[i.rt], m))
  {
    hide Control, Finish, Wrap;
  }

  lemma HiLoDone(c: Cpu, i: Instruction, m: Memory, hi: Word, lo: Word)
    requires Good(c) && m.Valid() && !Computes(i.op) && !Transfers(i.op)
    requires Control(Effect(None, c.hi, c.lo, Wrap(c.nextPc + 4), (0, 0), m), i, c.nextPc, c.gpr[i.rs], c.gpr[i.rt], m)
      == Effect(None, hi, lo, Wrap(c.nextPc + 4), (0, 0), m)
    ensures GivesHiLo(c, i, m, hi, lo)
  {
    hide Control, Finish, Wrap, Do;
    Controlled(c, i, m);
    FinishWrites(c, Effect(None, hi, lo, Wrap(c.nextPc + 4), (0, 0), m));
    Mod32Is(c.nextPc + 4);
  }

  lemma MovesTo(c: Cpu, i: Instruction, m: Memory)
    requires Good(c) && m.Valid() && (i.op == MTHI || i.op == MTLO)
    ensures GivesHiLo(c, i, m, if i.op == MTHI then c.gpr[i.rs] else c.hi, if i.op == MTLO then c.gpr[i.rs] else c.lo)
  {
    hide GivesHiLo, Wrap;
    HiLoDone(c, i, m, if i.op == MTHI then c.gpr[i.rs] else c.hi, if i.op == MTLO then c.gpr[i.rs] else c.lo);
  }

  /** The exact product, of two's complement or of unsigned numbers. */
  function ProductOf(op: Op, s: Word, t: Word): int {
    if op == MULT then ToInt(s) * ToInt(t) else (s as int) * (t as int)
  }

  /** The double word is the number, cut to 64 bits. */
  predicate IsDouble(hi: Word, lo: Word, n: int) {
    hi * 0x1_0000_0000 + lo == n % 0x1_0000_0000_0000_0000
  }

  /** MULT and MULTU: HI and LO are the double word of the product. */
  lemma Multiplies(c: Cpu, i: Instruction, m: Memory)
    requires Good(c) && m.Valid() && (i.op == MULT || i.op == MULTU)
    ensures exists hi: Word, lo: Word ::
      GivesHiLo(c, i, m, hi, lo) && IsDouble(hi, lo, ProductOf(i.op, c.gpr[i.rs], c.gpr[i.rt]))
  {
    hide GivesHiLo, Wrap, ToInt;
    var s, t := c.gpr[i.rs], c.gpr[i.rt];
    var hi, lo := MultHi(s, t, i.op == MULT), MultLo(s, t, i.op == MULT);
    DoubleWord(s, t, i.op == MULT);
    HiLoDone(c, i, m, hi, lo);
  }

  lemma DoubleWord(s: Word, t: Word, signedArith: bool)
    ensures MultHi(s, t, signedArith) * W + MultLo(s, t, signedArith) == Product(s, t, signedArith)
  {
    hide Product;
  }

  /** DIV: quotient in LO, remainder in HI; they put the dividend together, and the remainder is smaller than the divisor and has
      the dividend's sign.  Only the most negative number divided by -1 has no quotient that fits. */
  lemma Divides(c: Cpu, i: Instruction, m: Memory)
    requires Good(c) && m.Valid() && i.op == DIV && c.gpr[i.rt] != 0
    ensures var s, t := ToInt(c.gpr[i.rs]), ToInt(c.gpr[i.rt]);
      exists hi: Word, lo: Word :: GivesHiLo(c, i, m, hi, lo)
        && (!(s == -0x8000_0000 && t == -1) ==> ToInt(lo) * t + ToInt(hi) == s)
        && -(if t < 0 then -t else t) < ToInt(hi) < (if t < 0 then -t else t)
        && (ToInt(hi) == 0 || (ToInt(hi) < 0 <==> s < 0))
  {
    hide GivesHiLo;
    var s, t := ToInt(c.gpr[i.rs]), ToInt(c.gpr[i.rt]);
    var q := TruncDiv(s, t);
    var hi, lo := Wrap(s - q * t), Wrap(q);
    DivisionRight(s, t);
    hide TruncDiv;
    RemainderFits(s, t, q);
    WrapInt(s - q * t);
    WrapInt(q);
    hide Wrap;
    HiLoDone(c, i, m, hi, lo);
  }

  lemma RemainderFits(s: int, t: int, q: int)
    requires Fits(s) && Fits(t) && t != 0 && q == TruncDiv(s, t)
    ensures Fits(s - q * t) && -W <= q < W
  {
    DivisionRight(s, t);
    hide TruncDiv;
    QuotientRange(s, t, q);
  }

  lemma QuotientRange(s: int, t: int, q: int)
    requires Fits(s) && t != 0 && q == TruncDiv(s, t)
    ensures -0x8000_0000 <= q <= 0x8000_0000
  {
    Quotient(if s < 0 then -s else s, if t < 0 then -t else t);
  }

  /** DIVU, the same on unsigned numbers; division by zero leaves zeros. */
  lemma DividesUnsigned(c: Cpu, i: Instruction, m: Memory)
    requires Good(c) && m.Valid() && i.op == DIVU && c.gpr[i.rt] != 0
    ensures var s, t := c.gpr[i.rs], c.gpr[i.rt];
      exists hi: Word, lo: Word :: GivesHiLo(c, i, m, hi, lo) && lo * t + hi == s && hi < t
  {
    hide GivesHiLo, Wrap;
    var s, t := c.gpr[i.rs], c.gpr[i.rt];
    DivMod(s, t);
    Bounded(s, t);
    HiLoDone(c, i, m, s % t, s / t);
  }

  lemma Bounded(s: Word, t: Word)
    requires t != 0
    ensures 0 <= s / t <= s && s % t < t
  {
    Quotient(s, t);
    DivMod(s, t);
  }

  lemma DividesByZero(c: Cpu, i: Instruction, m: Memory)
    requires Good(c) && m.Valid() && (i.op == DIV || i.op == DIVU) && c.gpr[i.rt] == 0
    ensures GivesHiLo(c, i, m, 0, 0)
  {
    hide GivesHiLo, Wrap;
    ZeroIs();
    HiLoDone(c, i, m, 0, 0);
  }

  lemma ZeroIs()
    ensures ToInt(0) == 0
  {
  }

  // ---------------------------------------------------------------- branches and jumps

  /** The instruction completed; `next` follows the one behind it, and `d`, if not 0, has the link `v`. */
  predicate Goes(c: Cpu, i: Instruction, m: Memory, next: int, d: Reg, v: Word)
    requires c.Valid() && m.Valid()
  {
    var r := Do(c, i, m);
    Completed(c, r, next, c.hi, c.lo) && Written(c, r.cpu, d, v) && r.cpu.loadReg == 0 && r.mem == m
  }

  lemma GoesTo(c: Cpu, i: Instruction, m: Memory, next: Word, link: Option<(Reg, Word)>)
    requires Good(c) && m.Valid() && !Computes(i.op) && !Transfers(i.op)
    requires Control(Effect(None, c.hi, c.lo, Wrap(c.nextPc + 4), (0, 0), m), i, c.nextPc, c.gpr[i.rs], c.gpr[i.rt], m)
      == Effect(link, c.hi, c.lo, next, (0, 0), m)
    ensures Goes(c, i, m, next, if link.Some? then link.value.0 else 0, if link.Some? then link.value.1 else 0)
  {
    hide Control, Finish, Wrap, Do;
    Controlled(c, i, m);
    FinishWrites(c, Effect(link, c.hi, c.lo, next, (0, 0), m));
  }

  predicate IsBranch(op: Op) {
    op == BEQ || op == BNE || op == BGEZ || op == BGTZ || op == BLEZ || op == BLTZ || op == BGEZAL || op == BLTZAL
  }

  /** The conditions; the link of BGEZAL and BLTZAL is written first, and seen if rs is register 31. */
  predicate Taken(c: Cpu, i: Instruction)
    requires c.Valid()
  {
    var linked := if i.rs == 31 then Mod32(c.nextPc + 4) else c.gpr[i.rs];
    match i.op
    case BEQ => c.gpr[i.rs] == c.gpr[i.rt]
    case BNE => c.gpr[i.rs] != c.gpr[i.rt]
    case BGEZ => ToInt(c.gpr[i.rs]) >= 0
    case BGTZ => ToInt(c.gpr[i.rs]) > 0
    case BLEZ => ToInt(c.gpr[i.rs]) <= 0
    case BLTZ => ToInt(c.gpr[i.rs]) < 0
    case BGEZAL => ToInt(linked) >= 0
    case _ => ToInt(linked) < 0
  }

  lemma SignIs(x: Word)
    ensures SignSet(x) <==> ToInt(x) < 0
  {
    MaskTests(x);
    hide And;
  }

  lemma BranchTarget(nextPc: Word, x: Word)
    ensures Branch(nextPc, true, x) == Mod32(nextPc + 4 * ToInt(x)) && Branch(nextPc, false, x) == Mod32(nextPc + 4)
  {
    Pow2Two();
    hide Pow2;
    Mod32Is(nextPc + Shl(x, 2));
    Mod32Is(nextPc + 4 * ToInt(x));
    Mod32Is(nextPc + 4);
    var k := x * 4 / W;
    assert Shl(x, 2) == x * 4 - k * W;
    var j := if x < 0x8000_0000 then 0 else 1;
    assert ToInt(x) == x - j * W;
    WrapSame(nextPc + Shl(x, 2), nextPc + 4 * ToInt(x), 4 * j - k);
  }

  lemma Pow2Two()
    ensures Pow2(2) == 4
  {
  }

  /** A branch goes, behind its delay slot, four times the signed offset from there, exactly if its condition holds, and
      otherwise on; the two that link put the address behind the delay slot into register 31 either way. */
  lemma Branches(c: Cpu, i: Instruction, m: Memory)
    requires Good(c) && m.Valid() && IsBranch(i.op)
    ensures Goes(c, i, m, if Taken(c, i) then c.nextPc + 4 * ToInt(i.extra) else c.nextPc + 4,
      if i.op == BGEZAL || i.op == BLTZAL then 31 else 0, if i.op == BGEZAL || i.op == BLTZAL then Mod32(c.nextPc + 4) else 0)
  {
    hide Wrap, ToInt, SignSet, Mod32, Branch;
    BranchTarget(c.nextPc, i.extra);
    Mod32Is(c.nextPc + 4);
    var next := Mod32(c.nextPc + 4);
    SignIs(c.gpr[i.rs]);
    SignIs(next);
    var to := Branch(c.nextPc, Taken(c, i), i.extra);
    var link := if i.op == BGEZAL || i.op == BLTZAL then Some((31 as Reg, next)) else None;
    BranchControl(c, i, m, to, link);
    GoesTo(c, i, m, to, link);
    GoesMod(c, i, m, if Taken(c, i) then c.nextPc + 4 * ToInt(i.extra) else c.nextPc + 4);
  }

  lemma BranchControl(c: Cpu, i: Instruction, m: Memory, to: Word, link: Option<(Reg, Word)>)
    requires Good(c) && m.Valid() && IsBranch(i.op) && to == Branch(c.nextPc, Taken(c, i), i.extra)
    requires link == if i.op == BGEZAL || i.op == BLTZAL then Some((31, Mod32(c.nextPc + 4))) else None
    ensures Control(Effect(None, c.hi, c.lo, Wrap(c.nextPc + 4), (0, 0), m), i, c.nextPc, c.gpr[i.rs], c.gpr[i.rt], m)
      == Effect(link, c.hi, c.lo, to, (0, 0), m)
    ensures !Computes(i.op) && !Transfers(i.op)
  {
    hide Wrap, ToInt, SignSet, Mod32, Branch, Or32, And, Shl, MultHi, MultLo, TruncDiv;
    Mod32Is(c.nextPc + 4);
    SignIs(c.gpr[i.rs]);
    SignIs(Mod32(c.nextPc + 4));
  }

  /** Cutting to 32 bits twice is cutting once. */
  lemma GoesMod(c: Cpu, i: Instruction, m: Memory, next: int)
    requires c.Valid() && m.Valid()
    ensures forall d: Reg, v: Word :: Goes(c, i, m, Mod32(next), d, v) <==> Goes(c, i, m, next, d, v)
  {
    hide Do, Written, Mod32;
    Mod32Is(next);
    hide Wrap;
  }

  /** The address `x` words into the 256 megabytes that `next` is in. */
  function InRegion(next: Word, x: Word): int {
    next - next % 0x1000_0000 + 4 * x
  }

  /** J and JAL go to the target within the 256 megabytes of the instruction behind the delay slot, JR and JALR to the register;
      JAL and JALR link, JALR before it reads the register. */
  lemma Jumps(c: Cpu, i: Instruction, m: Memory)
    requires Good(c) && m.Valid() && (i.op == J || i.op == JAL || i.op == JR || i.op == JALR)
    requires i.op == J || i.op == JAL ==> i.extra < 0x400_0000
    ensures var next := Mod32(c.nextPc + 4);
      Goes(c, i, m,
        if i.op == J || i.op == JAL then InRegion(next, i.extra)
        else if i.op == JALR && i.rs == i.rd then next else c.gpr[i.rs],
        if i.op == JAL then 31 else if i.op == JALR then i.rd else 0, if i.op == JAL || i.op == JALR then next else 0)
  {
    hide Mod32, Wrap, Goes, InRegion, Or32, And, Shl;
    Mod32Is(c.nextPc + 4);
    var next := Mod32(c.nextPc + 4);
    var link := if i.op == JAL then Some((31 as Reg, next)) else if i.op == JALR then Some((i.rd, next)) else None;
    if i.op == J || i.op == JAL {
      FarTarget(next, i.extra);
    }
    var to: Word := if i.op == J || i.op == JAL then InRegion(next, i.extra)
      else if i.op == JALR && i.rs == i.rd then next else c.gpr[i.rs];
    JumpControl(c, i, m, to, link);
    GoesTo(c, i, m, to, link);
  }

  lemma JumpControl(c: Cpu, i: Instruction, m: Memory, to: Word, link: Option<(Reg, Word)>)
    requires Good(c) && m.Valid() && (i.op == J || i.op == JAL || i.op == JR || i.op == JALR)
    requires var next := Wrap(c.nextPc + 4);
      && link == (if i.op == JAL then Some((31, next)) else if i.op == JALR then Some((i.rd, next)) else None)
      && to == if i.op == J || i.op == JAL then Or32(And(next, 0xf000_0000), Shl(i.extra, 2))
               else if i.op == JALR && i.rs == i.rd then next else c.gpr[i.rs]
    ensures Control(Effect(None, c.hi, c.lo, Wrap(c.nextPc + 4), (0, 0), m), i, c.nextPc, c.gpr[i.rs], c.gpr[i.rt], m)
      == Effect(link, c.hi, c.lo, to, (0, 0), m)
    ensures !Computes(i.op) && !Transfers(i.op)
  {
    hide Or32, And, Shl, Branch, SignSet, MultHi, MultLo, TruncDiv, Wrap;
  }

  lemma FarTarget(next: Word, x: Word)
    requires x < 0x400_0000
    ensures Or32(And(next, 0xf000_0000), Shl(x, 2)) == InRegion(next, x)
    ensures 0 <= InRegion(next, x) < 0x1_0000_0000
  {
    hide Pow2, And, Or;
    Pow2Two();
    TopNibble(next);
    NibbleFree(next);
    Pow28();
    WrapSmall(4 * x);
    OrDisjoint(next - next % 0x1000_0000, 4 * x, 28);
  }

  lemma Pow28()
    ensures Pow2(28) == 0x1000_0000
  {
    assert Pow2(24) == 0x100_0000 by { Pow2Width(); }
  }

  lemma TopNibble(x: Word)
    ensures And(x, 0xf000_0000) == x - x % 0x1000_0000
  {
    Pow28();
    Pow2Width();
    AndHighOnes(x, 0xf000_0000, 28, 32);
  }

  lemma NibbleFree(x: Word)
    ensures (x - x % 0x1000_0000) % 0x1000_0000 == 0 && x - x % 0x1000_0000 <= 0xf000_0000
  {
    ModUnique(x - x % 0x1000_0000, 0x1000_0000, x / 0x1000_0000, 0);
  }

  // ---------------------------------------------------------------- traps

  /** SYSCALL, and what is not implemented or reserved. */
  lemma Trapping(c: Cpu, i: Instruction, m: Memory)
    requires Good(c) && m.Valid() && (i.op == SYSCALL || i.op == UNIMP || i.op == RES)
    ensures Traps(c, i, m, if i.op == SYSCALL then SyscallException else IllegalInstrException, 0) && Do(c, i, m).mem == m
  {
    hide Finish, Wrap, MultHi, MultLo, TruncDiv, Branch, SignSet, Or32, And, Shl;
    var e := Raise(if i.op == SYSCALL then SyscallException else IllegalInstrException, 0, m);
    Controlled(c, i, m);
    FinishTraps(c, e);
  }

  // ---------------------------------------------------------------- loads and stores

  predicate IsLoad(op: Op) {
    op == LB || op == LBU || op == LH || op == LHU || op == LW
  }

  predicate IsStore(op: Op) {
    op == SB || op == SH || op == SW
  }

  function SizeOf(op: Op): (size: nat)
    ensures size == 1 || size == 2 || size == 4
  {
    if op == LB || op == LBU || op == SB then 1 else if op == LH || op == LHU || op == SH then 2 else 4
  }

  /** The address: register rs and the signed offset. */
  function Target(c: Cpu, i: Instruction): Word
    requires c.Valid()
  {
    Mod32(c.gpr[i.rs] + ToInt(i.extra))
  }

  /** What is at an address that a program cannot read or write with a page table. */
  function Fault(m: Memory, a: Word, size: nat, writing: bool): Exception {
    if !Aligned(a, size) || a / PAGE_SIZE >= |m.entries| then AddressErrorException
    else if !m.entries[a / PAGE_SIZE].valid then PageFaultException
    else if m.entries[a / PAGE_SIZE].readOnly && writing then ReadOnlyException
    else BusErrorException
  }

  /** The bytes that the program sees from an address on, as an unsigned number, least significant first. */
  predicate IsNumber(m: Memory, a: nat, size: nat, n: nat)
    requires m.Valid()
    decreases size
  {
    if size == 1 then Mapped(m, a) && n == Seen(m, a)
    else if size == 2 then IsNumber(m, a, 1, n % 0x100) && IsNumber(m, a + 1, 1, n / 0x100)
    else size == 4 && IsNumber(m, a, 2, n % 0x1_0000) && IsNumber(m, a + 2, 2, n / 0x1_0000)
  }

  lemma ByteSeen(m: Memory, a: Word, size: nat, k: nat)
    requires m.Valid() && !m.isTlb && (size == 1 || size == 2 || size == 4) && Fetched(m, a, size).exception == NoException
    requires k < size
    ensures Translated(m, a, size, false).physAddr + k < |m.main|
    ensures IsNumber(m, a + k, 1, m.main[Translated(m, a, size, false).physAddr + k])
  {
    TranslateAssertHolds(m, a, size, false);
    InPage(a, k);
  }

  /** What ReadMem delivers: the number, a single byte with its sign extended. */
  lemma RawIs(m: Memory, a: Word, size: nat)
    requires m.Valid() && !m.isTlb && (size == 1 || size == 2 || size == 4) && Fetched(m, a, size).exception == NoException
    ensures var raw := Fetched(m, a, size).value;
      var n: nat := if size == 1 then raw % 0x100 else raw;
      IsNumber(m, a, size, n) && (size == 2 ==> raw < 0x1_0000)
      && (size == 1 ==> raw == if n < 0x80 then n else 0xffff_ff00 + n)
  {
    hide Translated, Aligned;
    var p := Translated(m, a, size, false).physAddr;
    TranslateAssertHolds(m, a, size, false);
    ByteSeen(m, a, size, 0);
    if size == 1 {
      ByteRaw(m.main[p]);
    } else if size == 2 {
      ByteSeen(m, a, size, 1);
      TwoBytes(m, a, m.main[p], m.main[p + 1]);
    } else {
      ByteSeen(m, a, size, 1);
      ByteSeen(m, a, size, 2);
      ByteSeen(m, a, size, 3);
      TwoBytes(m, a, m.main[p], m.main[p + 1]);
      TwoBytes(m, a + 2, m.main[p + 2], m.main[p + 3]);
      FourBytes(m, a, m.main[p], m.main[p + 1], m.main[p + 2], m.main[p + 3]);
    }
  }

  lemma TwoBytes(m: Memory, a: nat, b0: Byte, b1: Byte)
    requires m.Valid() && IsNumber(m, a, 1, b0) && IsNumber(m, a + 1, 1, b1)
    ensures IsNumber(m, a, 2, (b0 as nat) + 0x100 * (b1 as nat)) && (b0 as nat) + 0x100 * (b1 as nat) < 0x1_0000
  {
    hide Seen, Mapped;
    ModUnique((b0 as nat) + 0x100 * (b1 as nat), 0x100, b1, b0);
  }

  lemma FourBytes(m: Memory, a: nat, b0: Byte, b1: Byte, b2: Byte, b3: Byte)
    requires m.Valid()
    requires IsNumber(m, a, 2, (b0 as nat) + 0x100 * (b1 as nat)) && IsNumber(m, a + 2, 2, (b2 as nat) + 0x100 * (b3 as nat))
    ensures IsNumber(m, a, 4, WordOf(b0, b1, b2, b3))
  {
    var low, high := (b0 as nat) + 0x100 * (b1 as nat), (b2 as nat) + 0x100 * (b3 as nat);
    ModUnique(WordOf(b0, b1, b2, b3), 0x1_0000, high, low);
    IsNumberFour(m, a, WordOf(b0, b1, b2, b3), low, high);
  }

  lemma IsNumberFour(m: Memory, a: nat, n: nat, low: nat, high: nat)
    requires m.Valid() && n % 0x1_0000 == low && n / 0x1_0000 == high
    requires IsNumber(m, a, 2, low) && IsNumber(m, a + 2, 2, high)
    ensures IsNumber(m, a, 4, n)
  {
    hide Seen, Mapped;
  }

  lemma ByteRaw(b: Byte)
    ensures (if b < 0x80 then b else 0xffff_ff00 + b) % 0x100 == b
  {
    ModUnique(if b < 0x80 then b else 0xffff_ff00 + b, 0x100, if b < 0x80 then 0 else 0xff_ffff, b);
  }

  /** The read raises the fault of its address, or none if there is none. */
  lemma ReadOutcome(m: Memory, a: Word, size: nat)
    requires m.Valid() && !m.isTlb && (size == 1 || size == 2 || size == 4)
    ensures var r := Fetched(m, a, size);
      && (r.exception == NoException <==> Aligned(a, size) && Mapped(m, a))
      && (r.exception != NoException ==> r.exception == Fault(m, a, size, false) && r.mem == m)
      && r.mem.main == m.main && SameMap(m, r.mem)
  {
    TranslationOutcome(m, a, size, false);
    ReadSeesBytes(m, a, size);
  }

  /** The number that each load makes of the bytes. */
  lemma LoadedIs(op: Op, raw: Word, n: nat)
    requires op == LB || op == LBU ==> n < 0x100 && raw == if n < 0x80 then n else 0xffff_ff00 + n
    requires op == LH || op == LHU ==> n < 0x1_0000 && raw == n
    requires op == LW ==> raw == n
    requires IsLoad(op)
    ensures ReadAs(op, n, LoadedValue(op, raw, 0, 0))
  {
    hide And, Or32;
    LowMasks(raw);
    if op == LB || op == LBU {
      ByteRaw(n);
      ByteSign(raw, n);
    } else if op == LH || op == LHU {
      Decoding.SignOfHalf(n);
      Join(0xffff_0000, n);
      ModUnique(n, 0x1_0000, 0, n);
    }
  }

  lemma ByteSign(raw: Word, n: nat)
    requires n < 0x100 && raw == if n < 0x80 then n else 0xffff_ff00 + n
    ensures And(raw, 0x80) != 0 <==> n >= 0x80
    ensures n >= 0x80 ==> Or32(raw, 0xffff_ff00) == raw
  {
    hide And, Or, Bit;
    Pow2Seven();
    Bitmaps.TestBit(raw, 7);
    OverBit(raw, 7, 0);
    LastBit(raw / 0x80);
    SeventhBit(raw, n);
    if n >= 0x80 {
      HighMasks(raw);
      Absorbs(raw, 0xffff_ff00);
    }
  }

  lemma Pow2Seven()
    ensures Pow2(7) == 0x80
  {
  }

  lemma LastBit(x: nat)
    ensures Bit(x, 0) <==> x % 2 == 1
  {
  }

  lemma SeventhBit(raw: Word, n: nat)
    requires n < 0x100 && raw == if n < 0x80 then n else 0xffff_ff00 + n
    ensures raw / 0x80 % 2 == 1 <==> n >= 0x80
    ensures n >= 0x80 ==> raw - raw % 0x100 == 0xffff_ff00
  {
    if n >= 0x80 {
      ModUnique(raw, 0x80, 0x1ff_ffff, n - 0x80);
      ModUnique(raw, 0x100, 0xff_ffff, n);
    } else {
      ModUnique(raw, 0x80, 0, n);
    }
  }

  /** Or adds nothing to a number that has all the bits. */
  lemma Absorbs(x: nat, y: nat)
    requires And(x, y) == y
    ensures Or(x, y) == x
  {
    hide And, Or, Bit;
    forall k: nat ensures Bit(Or(x, y), k) <==> Bit(x, k) {
      OrBit(x, y, k);
      AndBit(x, y, k);
    }
    SameBits(Or(x, y), x);
  }

  /** The number that a load makes of the unsigned number in memory. */
  predicate ReadAs(op: Op, n: nat, v: Word) {
    if op == LB then ToInt(v) == if n < 0x80 then n else n - 0x100
    else if op == LH then ToInt(v) == if n < 0x8000 then n else n - 0x1_0000
    else v == n
  }

  lemma LoadDone(c: Cpu, i: Instruction, m: Memory)
    requires Good(c) && m.Valid() && IsLoad(i.op)
    ensures var a := Wrap(c.gpr[i.rs] + i.extra);
      var f := Fetched(m, a, SizeOf(i.op));
      Do(c, i, m) == Finish(c, if f.exception != NoException then Raise(f.exception, a, f.mem)
        else Effect(None, c.hi, c.lo, Wrap(c.nextPc + 4), (i.rt, LoadedValue(i.op, f.value, 0, 0)), f.mem))
  {
    TransferDone(c, i, m);
    hide Do, Finish, Wrap, Transfer, Fetched, LoadedValue, OperandsOf;
    var a := Wrap(c.gpr[i.rs] + i.extra);
    LoadTransfer(Effect(None, c.hi, c.lo, Wrap(c.nextPc + 4), (0, 0), m), i, m, a, c.gpr[i.rt], OperandsOf(c, i).merge);
  }

  lemma TransferDone(c: Cpu, i: Instruction, m: Memory)
    requires Good(c) && m.Valid() && (IsLoad(i.op) || IsStore(i.op))
    ensures var plain := Effect(None, c.hi, c.lo, Wrap(c.nextPc + 4), (0, 0), m);
      Do(c, i, m) == Finish(c,
        Transfer(plain, i, m, Wrap(c.gpr[i.rs] + i.extra), c.gpr[i.rt], OperandsOf(c, i).merge))
  {
    hide Finish, Wrap, Transfer, Compute, Control;
  }

  lemma LoadTransfer(plain: Effect, i: Instruction, m: Memory, a: Word, t: Word, merge: Word)
    requires m.Valid() && plain.Effect? && IsLoad(i.op)
    ensures var f := Fetched(m, a, SizeOf(i.op));
      Transfer(plain, i, m, a, t, merge) == if f.exception != NoException then Raise(f.exception, a, f.mem)
        else plain.(load := (i.rt, LoadedValue(i.op, f.value, 0, 0)), mem := f.mem)
  {
    hide LoadedValue, And, Fetched, StoreUnaligned, Stores;
    LowMasks(a);
    OneMask(a);
    MisalignedFetch(m, a, SizeOf(i.op));
  }

  lemma OneMask(x: Word)
    ensures And(x, 1) == x % 2
  {
    assert Pow2(1) == 2;
    AndOnes(x, 1);
  }

  lemma MisalignedFetch(m: Memory, a: Word, size: nat)
    requires m.Valid() && (size == 1 || size == 2 || size == 4)
    ensures !Aligned(a, size) ==> Fetched(m, a, size) == Access(AddressErrorException, 0, m)
  {
  }

  lemma TargetIs(c: Cpu, i: Instruction)
    requires c.Valid()
    ensures Target(c, i) == Wrap(c.gpr[i.rs] + i.extra)
  {
    Mod32Is(c.gpr[i.rs] + ToInt(i.extra));
    WrapSame(c.gpr[i.rs] + i.extra, c.gpr[i.rs] + ToInt(i.extra), if i.extra < 0x8000_0000 then 0 else 1);
    hide Wrap, Mod32;
  }

  /** LB, LBU, LH, LHU and LW leave pending, for register rt, the number that the program sees at their address: two's
      complement for LB and LH, unsigned for LBU, LHU and LW; or they raise the fault of the address. */
  lemma Loads(c: Cpu, i: Instruction, m: Memory)
    requires Good(c) && m.Valid() && !m.isTlb && IsLoad(i.op)
    ensures var a, size, r := Target(c, i), SizeOf(i.op), Do(c, i, m);
      if Aligned(a, size) && Mapped(m, a) then
        && Completed(c, r, c.nextPc + 4, c.hi, c.lo) && Written(c, r.cpu, 0, 0)
        && r.mem.main == m.main && SameMap(m, r.mem) && r.cpu.loadReg == i.rt
        && exists n: nat :: IsNumber(m, a, size, n) && ReadAs(i.op, n, r.cpu.loadValue)
      else Traps(c, i, m, Fault(m, a, size, false), a) && r.mem == m
  {
    hide Do, Finish, Wrap, Mod32, Fetched, LoadedValue, ReadAs, Written, SameMap, IsNumber, Mapped, Aligned, Target;
    var a, size := Target(c, i), SizeOf(i.op);
    TargetIs(c, i);
    LoadDone(c, i, m);
    ReadOutcome(m, a, size);
    var f := Fetched(m, a, size);
    if f.exception == NoException {
      var v := LoadedValue(i.op, f.value, 0, 0);
      FinishWrites(c, Effect(None, c.hi, c.lo, Wrap(c.nextPc + 4), (i.rt, v), f.mem));
      Mod32Is(c.nextPc + 4);
      CompletedMod(c, Do(c, i, m), c.nextPc + 4);
      RawIs(m, a, size);
      LoadedNumber(i.op, f.value);
    } else {
      FinishTraps(c, Raise(f.exception, a, f.mem));
    }
  }

  lemma CompletedMod(c: Cpu, r: Result, next: int)
    ensures Completed(c, r, Mod32(next), c.hi, c.lo) <==> Completed(c, r, next, c.hi, c.lo)
  {
    Mod32Is(next);
    hide Wrap;
  }

  lemma LoadedNumber(op: Op, raw: Word)
    requires IsLoad(op)
    requires var n: nat := if SizeOf(op) == 1 then raw % 0x100 else raw;
      (SizeOf(op) == 2 ==> raw < 0x1_0000) && (SizeOf(op) == 1 ==> raw == if n < 0x80 then n else 0xffff_ff00 + n)
    ensures ReadAs(op, if SizeOf(op) == 1 then raw % 0x100 else raw, LoadedValue(op, raw, 0, 0))
  {
    hide LoadedValue, ReadAs;
    LoadedIs(op, raw, if SizeOf(op) == 1 then raw % 0x100 else raw);
  }

  lemma StoreDone(c: Cpu, i: Instruction, m: Memory)
    requires Good(c) && m.Valid() && IsStore(i.op)
    ensures var a := Wrap(c.gpr[i.rs] + i.extra);
      var f := Stored(m, a, SizeOf(i.op), c.gpr[i.rt]);
      Do(c, i, m) == Finish(c, if f.exception != NoException then Raise(f.exception, a, f.mem)
        else Effect(None, c.hi, c.lo, Wrap(c.nextPc + 4), (0, 0), f.mem))
  {
    hide Finish, Wrap, LoadedValue, And, Stored, StoreUnaligned, LoadInto, Compute, Control;
  }

  /** SB, SH and SW change exactly the bytes of their address, of all that the program sees, to the low bytes of rt; or they
      raise the fault of the address. */
  lemma StoresBytes(c: Cpu, i: Instruction, m: Memory, v: nat)
    requires Good(c) && Injective(m) && Mapped(m, v) && IsStore(i.op)
    ensures m.Valid()
    ensures var a, size, r := Target(c, i), SizeOf(i.op), Do(c, i, m);
      if Aligned(a, size) && Mapped(m, a) && !m.entries[a / PAGE_SIZE].readOnly then
        && Completed(c, r, c.nextPc + 4, c.hi, c.lo) && Written(c, r.cpu, 0, 0) && r.cpu.loadReg == 0
        && Injective(r.mem) && SameMap(m, r.mem) && Mapped(r.mem, v)
        && Seen(r.mem, v) == if a <= v < a + size then ByteOf(c.gpr[i.rt], v - a) else Seen(m, v)
      else Traps(c, i, m, Fault(m, a, size, true), a) && r.mem == m
  {
    hide Do, Finish, Wrap, Mod32, ToInt, Stored, Written, SameMap, Injective, Mapped, Seen, ByteOf, Aligned, Target;
    InjectiveValid(m);
    var a, size := Target(c, i), SizeOf(i.op);
    TargetIs(c, i);
    StoreDone(c, i, m);
    WriteOutcome(m, a, size, c.gpr[i.rt]);
    WriteChangesExactly(m, a, size, c.gpr[i.rt], v);
    var f := Stored(m, a, size, c.gpr[i.rt]);
    if f.exception == NoException {
      FinishWrites(c, Effect(None, c.hi, c.lo, Wrap(c.nextPc + 4), (0, 0), f.mem));
      Mod32Is(c.nextPc + 4);
      CompletedMod(c, Do(c, i, m), c.nextPc + 4);
    } else {
      FinishTraps(c, Raise(f.exception, a, f.mem));
    }
  }

  lemma WriteOutcome(m: Memory, a: Word, size: nat, value: Word)
    requires m.Valid() && !m.isTlb && (size == 1 || size == 2 || size == 4)
    ensures var r := Stored(m, a, size, value);
      && (r.exception == NoException <==> Aligned(a, size) && Mapped(m, a) && !m.entries[a / PAGE_SIZE].readOnly)
      && (r.exception != NoException ==> r.exception == Fault(m, a, size, true) && r.mem == m)
  {
    hide Store;
    TranslationOutcome(m, a, size, true);
  }

  /** LWL, LWR, SWL and SWR go to the aligned word that has the byte at their address; they raise the fault of that word, and
      write nothing but the load or the word.  Which bytes they move is in module Unaligned. */
  lemma UnalignedDone(c: Cpu, i: Instruction, m: Memory)
    requires Good(c) && m.Valid() && !m.isTlb && (i.op == LWL || i.op == LWR || i.op == SWL || i.op == SWR)
    ensures var x, r := FirstWord(Target(c, i)), Do(c, i, m);
      if Moves(m, x, i.op) then
        && Completed(c, r, c.nextPc + 4, c.hi, c.lo) && Written(c, r.cpu, 0, 0)
        && r.cpu.loadReg == (if i.op == LWL || i.op == LWR then i.rt else 0) && SameMap(m, r.mem)
        && (i.op == LWL || i.op == LWR ==> r.mem.main == m.main)
      else Traps(c, i, m, UnalignedFault(m, x), x) && r.mem.main == m.main
  {
    hide Do, Finish, Wrap, Mod32, Transfer, Fetched, Written, SameMap, Moves, Target, OperandsOf, UnalignedFault, FirstWord;
    TargetIs(c, i);
    UnalignedTransfer(c, i, m);
    var a := Target(c, i);
    var plain := Effect(None, c.hi, c.lo, Wrap(c.nextPc + 4), (0, 0), m);
    var merge := OperandsOf(c, i).merge;
    var e := Transfer(plain, i, m, a, c.gpr[i.rt], merge);
    if i.op == LWL || i.op == LWR {
      MergeLoadOutcome(plain, i, m, a, c.gpr[i.rt], merge);
    } else {
      MergeStoreOutcome(plain, i, m, a, c.gpr[i.rt], merge);
    }
    if e.Effect? {
      FinishWrites(c, e);
      CompletedMod(c, Do(c, i, m), c.nextPc + 4);
      Mod32Is(c.nextPc + 4);
    } else {
      FinishTraps(c, e);
    }
  }

  /** The word can be read, and written if it is to be. */
  predicate Moves(m: Memory, x: Word, op: Op) {
    Mapped(m, x) && (op == SWL || op == SWR ==> !m.entries[x / PAGE_SIZE].readOnly)
  }

  function UnalignedFault(m: Memory, x: Word): (e: Exception)
    ensures e != NoException
  {
    if Mapped(m, x) then ReadOnlyException else Fault(m, x, 4, false)
  }

  lemma UnalignedTransfer(c: Cpu, i: Instruction, m: Memory)
    requires Good(c) && m.Valid() && (i.op == LWL || i.op == LWR || i.op == SWL || i.op == SWR)
    ensures var plain := Effect(None, c.hi, c.lo, Wrap(c.nextPc + 4), (0, 0), m);
      Do(c, i, m) == Finish(c,
        Transfer(plain, i, m, Wrap(c.gpr[i.rs] + i.extra), c.gpr[i.rt], OperandsOf(c, i).merge))
  {
    hide Finish, Wrap, Transfer, Compute, Control;
  }

  lemma MergeLoadOutcome(plain: Effect, i: Instruction, m: Memory, a: Word, t: Word, merge: Word)
    requires m.Valid() && !m.isTlb && plain.Effect? && plain.write == None && plain.load == (0, 0)
    requires i.op == LWL || i.op == LWR
    ensures var x, e := FirstWord(a), Transfer(plain, i, m, a, t, merge);
      if Moves(m, x, i.op) then
        && e.Effect? && e.write == None && e.hi == plain.hi && e.lo == plain.lo && e.pcAfter == plain.pcAfter
        && e.load.0 == i.rt && SameMap(m, e.mem) && e.mem.main == m.main
      else e.Raise? && e.badVAddr == x && e.mem.main == m.main && e.exception == UnalignedFault(m, x)
  {
    hide And, LoadedValue, Fetched, SameMap, Mapped, Fault;
    LowMasks(a);
    WordAligned(a);
    ReadOutcome(m, FirstWord(a), 4);
    MergeLoadIs(plain, i, m, a, t, merge);
    hide Transfer, LoadInto;
  }

  lemma MergeLoadIs(plain: Effect, i: Instruction, m: Memory, a: Word, t: Word, merge: Word)
    requires m.Valid() && plain.Effect? && (i.op == LWL || i.op == LWR)
    ensures var f := Fetched(m, FirstWord(a), 4);
      Transfer(plain, i, m, a, t, merge) == if f.exception != NoException then Raise(f.exception, FirstWord(a), f.mem)
        else plain.(load := (i.rt, LoadedValue(i.op, f.value, a % 4, merge)), mem := f.mem)
  {
    hide And, LoadedValue, Fetched, StoreUnaligned, Stores;
    LowMasks(a);
  }

  lemma MergeStoreOutcome(plain: Effect, i: Instruction, m: Memory, a: Word, t: Word, merge: Word)
    requires m.Valid() && !m.isTlb && plain.Effect? && plain.write == None && plain.load == (0, 0)
    requires i.op == SWL || i.op == SWR
    ensures var x, e := FirstWord(a), Transfer(plain, i, m, a, t, merge);
      if Moves(m, x, i.op) then
        && e.Effect? && e.write == None && e.hi == plain.hi && e.lo == plain.lo && e.pcAfter == plain.pcAfter
        && e.load.0 == 0 && SameMap(m, e.mem)
      else e.Raise? && e.badVAddr == x && e.mem.main == m.main && e.exception == UnalignedFault(m, x)
  {
    hide Transfer, Fetched, Stored, SameMap, Mapped, FirstWord, Fault, Merged;
    MergeStoreIs(plain, i, m, a, t, merge);
    var x := FirstWord(a);
    WordAligned(a);
    ReadOutcome(m, x, 4);
    var f := Fetched(m, x, 4);
    if f.exception == NoException {
      var value := Merged(i.op, a, f.value, t);
      SameTable(m, f.mem);
      SameMapped(m, f.mem, x);
      SameProtection(m, f.mem, x);
      WriteOutcome(f.mem, x, 4, value);
      StoredSameMap(f.mem, x, value);
      SameMapTransitive(m, f.mem, Stored(f.mem, x, 4, value).mem);
    }
  }

  lemma MergeStoreIs(plain: Effect, i: Instruction, m: Memory, a: Word, t: Word, merge: Word)
    requires m.Valid() && plain.Effect? && (i.op == SWL || i.op == SWR)
    ensures var x := FirstWord(a);
      var f := Fetched(m, x, 4);
      var w := Stored(f.mem, x, 4, Merged(i.op, a, f.value, t));
      Transfer(plain, i, m, a, t, merge) ==
        if f.exception != NoException then Raise(f.exception, x, f.mem)
        else if w.exception != NoException then Raise(w.exception, x, w.mem)
        else WithMemory(plain, w.mem)
  {
    hide And, SwlMerge, SwrMerge, Fetched, Stored, LoadInto;
    LowMasks(a);
  }

  lemma WordAligned(a: Word)
    ensures Aligned(FirstWord(a), 4)
  {
    ModUnique(a - a % 4, 4, a / 4, 0);
  }

  lemma SameProtection(m: Memory, m': Memory, x: Word)
    requires SameMap(m, m') && Mapped(m, x)
    ensures m'.entries[x / PAGE_SIZE].readOnly == m.entries[x / PAGE_SIZE].readOnly
    ensures Fault(m', x, 4, true) == Fault(m, x, 4, true)
    ensures m.entries[x / PAGE_SIZE].readOnly && Aligned(x, 4) ==> Fault(m, x, 4, true) == ReadOnlyException
  {
    var j := x / PAGE_SIZE;
    assert m'.entries[j].(use := false, dirty := false) == m.entries[j].(use := false, dirty := false);
  }

  // ---------------------------------------------------------------- a few in a row

  /** The processor after an instruction. */
  predicate Runs(c: Cpu, i: Instruction, m: Memory, c': Cpu) {
    c.Valid() && m.Valid() && c'.Valid() && c' == Do(c, i, m).cpu
  }

  /** LUI and ORI build any constant in a register. */
  lemma LoadsConstant(c: Cpu, i: Instruction, j: Instruction, m: Memory, w: Word, c1: Cpu, c2: Cpu)
    requires Good(c) && m.Valid() && c.loadReg != i.rt && i.rt != 0
    requires i.op == LUI && i.extra % 0x1_0000 == w / 0x1_0000
    requires j.op == ORI && j.rs == j.rt == i.rt && j.extra % 0x1_0000 == w % 0x1_0000
    requires Runs(c, i, m, c1) && Runs(c1, j, m, c2)
    ensures c2.gpr[i.rt] == w
  {
    hide Do, Bit, Mod32, CombinedAt;
    LoadsUpper(c, i, m);
    LogicalDone(c1, j, m);
    var low, high := w % 0x1_0000, w / 0x1_0000 * 0x1_0000;
    assert c1.gpr[i.rt] == high;
    var v: Word :| Gives(c1, j, m, j.rt, v) && Combined(ORI, v, high, low);
    JoinsBits(w / 0x1_0000, low, v);
    assert w == high + low;
  }

  /** A number is determined by its 32 bits; the halves have none in common. */
  lemma JoinsBits(high: nat, low: nat, v: Word)
    requires high < 0x1_0000 && low < 0x1_0000
    requires Combined(ORI, v, high * 0x1_0000, low)
    ensures v == high * 0x1_0000 + low
  {
    hide Bit, Or;
    var x := Or(high * 0x1_0000, low);
    Pow2Width();
    ModUnique(high * 0x1_0000, 0x1_0000, high, 0);
    OrDisjoint(high * 0x1_0000, low, 16);
    assert x == high * 0x1_0000 + low;
    forall k: nat ensures Bit(v, k) <==> Bit(x, k) {
      OrBit(high * 0x1_0000, low, k);
      if k >= 32 {
        HighBit(v, 32, k);
        HighBit(x, 32, k);
      } else {
        assert CombinedAt(ORI, v, high * 0x1_0000, low, k);
      }
    }
    SameBits(v, x);
  }

  /** MULT or MULTU, then MFHI and MFLO, leave the product in two registers. */
  lemma MultipliesInto(
    c: Cpu, i: Instruction, j: Instruction, k: Instruction, m: Memory, c1: Cpu, c2: Cpu, c3: Cpu)
    requires Good(c) && m.Valid() && (i.op == MULT || i.op == MULTU) && j.op == MFHI && k.op == MFLO
    requires j.rd != 0 && k.rd != 0 && j.rd != k.rd
    requires Runs(c, i, m, c1) && Runs(c1, j, m, c2) && Runs(c2, k, m, c3)
    ensures IsDouble(c3.gpr[j.rd], c3.gpr[k.rd], ProductOf(i.op, c.gpr[i.rs], c.gpr[i.rt]))
  {
    hide Do, Mod32, ProductOf, IsDouble;
    Multiplies(c, i, m);
    var hi: Word, lo: Word :| GivesHiLo(c, i, m, hi, lo) && IsDouble(hi, lo, ProductOf(i.op, c.gpr[i.rs], c.gpr[i.rt]));
    MovesFrom(c1, j, m);
    MovesFrom(c2, k, m);
  }

  // ---------------------------------------------------------------- instructions in memory

  /** A program runs the instruction whose word it sees at its program counter. */
  lemma RunsWhatIsStored(c: Cpu, i: Instruction, m: Memory)
    requires Good(c) && m.Valid() && !m.isTlb && Aligned(c.pc, 4)
    requires E.WellFormed(i) && IsNumber(m, c.pc, 4, E.Encode(i))
    ensures var m' := Fetched(m, c.pc, 4).mem;
      && SameMap(m, m') && m'.main == m.main && m'.Valid() && OneInstruction(c, m) == Do(c, i, m')
  {
    hide OneInstruction, Do, Fetched, Decode, E.Encode, E.WellFormed, Aligned;
    ReadOutcome(m, c.pc, 4);
    NumberMapped(m, c.pc, E.Encode(i));
    E.DecodeEncode(i);
    RawIs(m, c.pc, 4);
    SameNumber(m, c.pc, 4, E.Encode(i), Fetched(m, c.pc, 4).value);
    V.FetchThenDo(c, m);
  }

  lemma NumberMapped(m: Memory, a: nat, n: nat)
    requires m.Valid() && IsNumber(m, a, 4, n)
    ensures Mapped(m, a)
  {
  }

  lemma {:induction false} SameNumber(m: Memory, a: nat, size: nat, n: nat, n': nat)
    requires m.Valid() && IsNumber(m, a, size, n) && IsNumber(m, a, size, n')
    ensures n == n'
    decreases size
  {
    hide Mapped, Seen;
    if size == 2 {
      SameNumber(m, a, 1, n % 0x100, n' % 0x100);
      SameNumber(m, a + 1, 1, n / 0x100, n' / 0x100);
    } else if size == 4 {
      SameNumber(m, a, 2, n % 0x1_0000, n' % 0x1_0000);
      SameNumber(m, a + 2, 2, n / 0x1_0000, n' / 0x1_0000);
    }
  }
}
