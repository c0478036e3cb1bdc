/** Overflow, division and comparison in the simulated ALU (machine/mipssim.cc), against the integers. */
module Arithmetic {
  import opened Common
  import opened Bits
  import opened Memory
  import opened Multiplier
  import opened Mips

  predicate Fits(x: int) {
    -0x8000_0000 <= x < 0x8000_0000
  }

  /** The top bit of an exclusive or tells whether the top bits differ. */
  lemma {:induction false} XorTop(x: nat, y: nat, n: nat)
    requires x < Pow2(n + 1) && y < Pow2(n + 1)
    ensures Xor(x, y) >= Pow2(n) <==> (x >= Pow2(n)) != (y >= Pow2(n))
  {
    if n > 0 {
      XorTop(x / 2, y / 2, n - 1);
      XorHalf(x, y);
    }
  }

  lemma XorHalf(x: nat, y: nat)
    ensures Xor(x, y) / 2 == Xor(x / 2, y / 2)
  {
  }

  lemma SignsDiffer(x: Word, y: Word)
    ensures SignSet(Xor32(x, y)) <==> (ToInt(x) < 0) != (ToInt(y) < 0)
  {
    Pow2Width();
    XorTop(x, y, 31);
    MaskTests(Xor32(x, y));
  }

  /** A wrapped sum or difference of two ints is off by 2^32 exactly when it does not fit. */
  lemma WrapInt(x: int)
    requires -W <= x < W
    ensures ToInt(Wrap(x)) == if Fits(x) then x else if x < 0 then x + W else x - W
  {
    ModUnique(x, W, if x < 0 then -1 else 0, if x < 0 then x + W else x);
  }

  lemma WrapSame(x: int, y: int, k: int)
    requires x == y + k * W
    ensures Wrap(x) == Wrap(y)
  {
    ModUnique(x, W, y / W + k, y % W);
  }

  lemma WrapSum(s: Word, t: Word)
    ensures Wrap(s + t) == Wrap(ToInt(s) + ToInt(t)) && Wrap(s - t) == Wrap(ToInt(s) - ToInt(t))
  {
    var j, k := if s == ToInt(s) then 0 else 1, if t == ToInt(t) then 0 else 1;
    WrapSame(s + t, ToInt(s) + ToInt(t), j + k);
    WrapSame(s - t, ToInt(s) - ToInt(t), j - k);
  }

  /** The overflow tests on exclusive ors, against the integers. */
  lemma SumOverflows(s: Word, t: Word)
    ensures var sum := Wrap(s + t);
      var overflow := !SignSet(Xor32(s, t)) && SignSet(Xor32(s, sum));
      && overflow == (!SignSet(Xor32(s, t)) && SignSet(Xor32(t, sum)))
      && overflow == !Fits(ToInt(s) + ToInt(t))
      && (!overflow ==> ToInt(sum) == ToInt(s) + ToInt(t))
  {
    WrapSum(s, t);
    WrapInt(ToInt(s) + ToInt(t));
    SignsDiffer(s, t);
    SignsDiffer(s, Wrap(s + t));
    SignsDiffer(t, Wrap(s + t));
    hide SignSet, Xor32, Wrap;
  }

  lemma DifferenceOverflows(s: Word, t: Word)
    ensures var diff := Wrap(s - t);
      var overflow := SignSet(Xor32(s, t)) && SignSet(Xor32(s, diff));
      && overflow == !Fits(ToInt(s) - ToInt(t))
      && (!overflow ==> ToInt(diff) == ToInt(s) - ToInt(t))
  {
    WrapSum(s, t);
    WrapInt(ToInt(s) - ToInt(t));
    SignsDiffer(s, t);
    SignsDiffer(s, Wrap(s - t));
    hide SignSet, Xor32, Wrap;
  }

  /** ADD and ADDI trap exactly when the signed sum does not fit in 32 bits, and otherwise deliver it. */
  lemma AddTrapsOnOverflow(s: Word, t: Word, hi: Word, lo: Word, i: Instruction)
    requires i.op == ADD || i.op == ADDI
    ensures var sum := ToInt(s) + ToInt(if i.op == ADD then t else i.extra);
      match Compute(s, t, hi, lo, i) case None => !Fits(sum) case Some(v) => Fits(sum) && ToInt(v) == sum
  {
    hide SignSet, Xor32, Wrap, ToInt, Fits;
    SumOverflows(s, if i.op == ADD then t else i.extra);
  }

  /** SUB traps exactly when the signed difference does not fit. */
  lemma SubTrapsOnOverflow(s: Word, t: Word, hi: Word, lo: Word, i: Instruction)
    requires i.op == SUB
    ensures var diff := ToInt(s) - ToInt(t);
      match Compute(s, t, hi, lo, i) case None => !Fits(diff) case Some(v) => Fits(diff) && ToInt(v) == diff
  {
    hide SignSet, Xor32, Wrap, ToInt, Fits;
    DifferenceOverflows(s, t);
  }

  /** Truncating division and its remainder put the dividend back together; the remainder is smaller than the divisor
      and has the sign of the dividend. */
  lemma DivisionRight(x: int, y: int)
    requires y != 0
    ensures var q := TruncDiv(x, y);
      var r := x - q * y;
      && -(if y < 0 then -y else y) < r < (if y < 0 then -y else y)
      && (r == 0 || (r < 0 <==> x < 0))
      && (Fits(x) && Fits(y) ==> (Fits(q) <==> !(x == -0x8000_0000 && y == -1)))
  {
    var ax, ay := if x < 0 then -x else x, if y < 0 then -y else y;
    Quotient(ax, ay);
    QuotientSigns(x, y, ax / ay);
  }

  lemma Quotient(x: nat, y: nat)
    requires y > 0
    ensures 0 <= x - (x / y) * y < y && (if y == 1 then x / y == x else 2 * (x / y) <= x)
  {
    var n, r := x / y, x % y;
    assert x == n * y + r;
    AtLeastTwice(n, y);
  }

  lemma AtLeastTwice(n: nat, y: nat)
    ensures y >= 2 ==> n * y >= 2 * n
    ensures n * y >= 0
  {
  }

  lemma QuotientSigns(x: int, y: int, n: int)
    ensures (-n) * y == -(n * y) && n * (-y) == -(n * y) && (-n) * (-y) == n * y
  {
  }

  lemma {:induction false} Pow2Sum(k: nat, n: nat)
    requires k <= n
    ensures Pow2(k) * Pow2(n - k) == Pow2(n)
  {
    if k > 0 {
      Pow2Sum(k - 1, n - 1);
      DoubleTimes(Pow2(n - k), Pow2(k - 1));
    }
  }

  /** Dividing a two's complement pattern by a power of two: the sign bits that come in are a multiple of the quotient. */
  lemma SarIs(t: Word, p: nat, q: nat)
    requires p > 0 && q > 0 && p * q == W
    ensures ToInt(t) / p == if t < 0x8000_0000 then t / p else t / p - q
  {
    if t >= 0x8000_0000 {
      assert t == p * (t / p) + t % p;
      assert (t / p - q) * p == p * (t / p) - W;
      ModUnique(t - W, p, t / p - q, t % p);
    }
  }

  lemma WrapNegative(x: int)
    requires -W <= x < 0
    ensures Wrap(x) == x + W
  {
    ModUnique(x, W, -1, x + W);
  }

  lemma ShiftIsQuotientIff(t: Word, p: nat, q: nat)
    requires p > 0 && q > 0 && p * q == W
    ensures Wrap(ToInt(t) / p) == t / p <==> t < 0x8000_0000 || p == 1
  {
    SarIs(t, p, q);
    Quotient(t, p);
    QuotientBelow(t, p, q);
    Quotients(p, q);
    hide ToInt, Wrap;
    if t < 0x8000_0000 {
      WrapSmall(t / p);
    } else {
      WrapNegative(t / p - q);
    }
  }

  lemma WrapSmall(x: Word)
    ensures Wrap(x) == x
  {
    ModUnique(x, W, 0, x);
  }

  lemma Quotients(p: nat, q: nat)
    requires p > 0 && p * q == W
    ensures q <= W && (q == W <==> p == 1)
  {
    if p >= 2 {
      assert p * q == 2 * q + (p - 2) * q && (p - 2) * q >= 0;
    }
  }

  lemma QuotientBelow(t: Word, p: nat, q: nat)
    requires p > 0 && p * q == W
    ensures t / p < q
  {
    var n := t / p;
    assert t == p * n + t % p;
    assert p * (n - q) < 0;
    assert n - q >= 0 ==> p * (n - q) >= 0;
  }

  /** SRL and SRLV copy the sign bit in, so they are the logical shifts they should be exactly for words without it, and for
      shifts by nothing. */
  lemma SrlIsLogicalIff(s: Word, t: Word, hi: Word, lo: Word, i: Instruction)
    requires (i.op == SRL && i.extra < 32) || i.op == SRLV
    ensures var count := if i.op == SRL then i.extra else And(s, 0x1f);
      Compute(s, t, hi, lo, i) == Some(t / Pow2(count)) <==> t < 0x8000_0000 || count == 0
  {
    hide ToInt, Wrap, Pow2, Shl, Or32, Xor32, And, SignSet;
    var count := if i.op == SRL then i.extra else And(s, 0x1f);
    Pow2Width();
    Pow2Sum(count, 32);
    ShiftIsQuotientIff(t, Pow2(count), Pow2(32 - count));
    Pow2One(count);
  }

  /** The word 0x80000000 shifted right by one. */
  lemma SrlExample(s: Word, hi: Word, lo: Word)
    ensures Compute(s, 0x8000_0000, hi, lo, Instruction(SRL, 0, 1, 2, 1)) != Some(0x4000_0000)
  {
    assert Pow2(1) == 2;
    SrlIsLogicalIff(s, 0x8000_0000, hi, lo, Instruction(SRL, 0, 1, 2, 1));
  }

  // ---------------------------------------------------------------- bit by bit

  /** The second operand of a logical instruction. */
  function LogicalOperand(t: Word, i: Instruction): Word {
    if Immediate(i.op) then And(i.extra, 0xffff) else t
  }

  /** The logical instructions work on each bit. */
  lemma LogicalBits(s: Word, t: Word, hi: Word, lo: Word, i: Instruction, k: nat)
    requires i.op == AND || i.op == ANDI || i.op == OR || i.op == ORI || i.op == XOR || i.op == XORI || i.op == NOR
    requires k < 32
    ensures var r, x, y := Compute(s, t, hi, lo, i), Bit(s, k), Bit(LogicalOperand(t, i), k);
      r.Some? && Bit(r.value, k) ==
        if i.op == AND || i.op == ANDI then x && y
        else if i.op == OR || i.op == ORI then x || y
        else if i.op == NOR then !(x || y) else x != y
  {
    hide Compute, LogicalOperand, Bit, And, Or32, Xor32, Not32;
    LogicalResult(s, t, hi, lo, i);
    BitsOfWords(s, LogicalOperand(t, i), k);
  }

  lemma BitsOfWords(x: Word, y: Word, k: nat)
    requires k < 32
    ensures Bit(And(x, y), k) <==> Bit(x, k) && Bit(y, k)
    ensures Bit(Or32(x, y), k) <==> Bit(x, k) || Bit(y, k)
    ensures Bit(Xor32(x, y), k) <==> Bit(x, k) != Bit(y, k)
    ensures Bit(Not32(Or32(x, y)), k) <==> !(Bit(x, k) || Bit(y, k))
  {
    hide Bit, And, Or, Xor, Pow2;
    Pow2Width();
    AndBit(x, y, k);
    OrBit(x, y, k);
    XorBit(x, y, k);
    ComplementBit(Or32(x, y), 32, k);
  }

  lemma LogicalResult(s: Word, t: Word, hi: Word, lo: Word, i: Instruction)
    requires i.op == AND || i.op == ANDI || i.op == OR || i.op == ORI || i.op == XOR || i.op == XORI || i.op == NOR
    ensures var y := LogicalOperand(t, i);
      Compute(s, t, hi, lo, i) == Some(
        if i.op == AND || i.op == ANDI then And(s, y)
        else if i.op == OR || i.op == ORI then Or32(s, y)
        else if i.op == NOR then Not32(Or32(s, y)) else Xor32(s, y))
  {
    hide And, Or32, Xor32, Not32, SignSet, Shl, Sar, Wrap;
  }

  /** A left shift moves bit k - count to bit k and fills with zeros. */
  lemma ShlBits(t: Word, count: nat, k: nat)
    requires k < 32
    ensures Bit(Shl(t, count), k) <==> k >= count && Bit(t, k - count)
  {
    Pow2Width();
    TimesBit(t, count, k);
    ModBit(t * Pow2(count), 32, k);
    hide Bit, Pow2;
  }

  /** The right shift moves bit k + count to bit k and fills with the sign bit. */
  lemma SarBits(t: Word, count: nat, k: nat)
    requires k < 32 && count < 32
    ensures Bit(Sar(t, count), k) <==> if k + count < 32 then Bit(t, k + count) else t >= 0x8000_0000
  {
    var p, q := Pow2(count), Pow2(32 - count);
    Pow2Width();
    Pow2Sum(count, 32);
    SarIs(t, p, q);
    QuotientBelow(t, p, q);
    OverBit(t, count, k);
    var low := t / p;
    HighBitOf(t, k + count);
    Pow2Grows(32 - count, 32);
    if t < 0x8000_0000 {
      WrapSmall(low);
    } else {
      WrapNegative(low - q);
      FilledBits(low, 32 - count, k);
    }
    hide Bit, Pow2, Wrap, ToInt;
  }

  lemma HighBitOf(t: Word, i: nat)
    ensures i >= 32 ==> !Bit(t, i)
  {
    Pow2Width();
    if i >= 32 {
      HighBit(t, 32, i);
    }
  }

  /** Ones above the low `n` bits of a word. */
  lemma FilledBits(low: nat, n: nat, k: nat)
    requires n <= 32 && k < 32 && low < Pow2(n) && Pow2(n) <= W
    ensures Bit(low + W - Pow2(n), k) <==> k >= n || Bit(low, k)
  {
    Pow2Width();
    var high := W - Pow2(n);
    OnesBit(n, k);
    ComplementBit(Pow2(n) - 1, 32, k);
    HighMultiple(n, 32);
    OrDisjoint(high, low, n);
    OrBit(high, low, k);
    if k >= n {
      HighBit(low, n, k);
    }
    hide Bit, Or, Pow2;
  }

  lemma {:induction false} HighMultiple(n: nat, m: nat)
    requires n <= m
    ensures Pow2(m) >= Pow2(n) && (Pow2(m) - Pow2(n)) % Pow2(n) == 0
  {
    Pow2Grows(n, m);
    Pow2Sum(n, m);
    OneLess(Pow2(n), Pow2(m - n));
    ModUnique(Pow2(m) - Pow2(n), Pow2(n), Pow2(m - n) - 1, 0);
  }

  lemma OneLess(p: int, q: int)
    ensures p * q - p == (q - 1) * p
  {
  }

  /** The shift instructions, bit by bit; the count is the shift amount or the low bits of rs. */
  lemma ShiftBits(s: Word, t: Word, hi: Word, lo: Word, i: Instruction, k: nat)
    requires i.op == SLL || i.op == SLLV || i.op == SRA || i.op == SRAV
    requires k < 32 && i.extra < 32
    ensures var r := Compute(s, t, hi, lo, i);
      var count := if i.op == SLL || i.op == SRA then i.extra else And(s, 0x1f);
      && r.Some?
      && (Bit(r.value, k) <==>
            if i.op == SLL || i.op == SLLV then k >= count && Bit(t, k - count)
            else if k + count < 32 then Bit(t, k + count) else t >= 0x8000_0000)
  {
    hide Compute, Shl, Sar, Bit, And;
    var count := if i.op == SLL || i.op == SRA then i.extra else And(s, 0x1f);
    ShiftResult(s, t, hi, lo, i);
    ShlBits(t, count, k);
    SarBits(t, count, k);
  }

  lemma ShiftResult(s: Word, t: Word, hi: Word, lo: Word, i: Instruction)
    requires i.op == SLL || i.op == SLLV || i.op == SRA || i.op == SRAV
    ensures var count := if i.op == SLL || i.op == SRA then i.extra else And(s, 0x1f);
      Compute(s, t, hi, lo, i) == Some(if i.op == SLL || i.op == SLLV then Shl(t, count) else Sar(t, count))
  {
    hide And, Or32, Xor32, Not32, SignSet, Shl, Sar, Wrap;
  }

  lemma Pow2One(k: nat)
    ensures Pow2(k) == 1 <==> k == 0
  {
  }
}
