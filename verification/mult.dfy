/** The R2000 multiplier (machine/mipssim.cc, Mult): a 64-bit product from 32-bit halves. */
module Multiplier {
  import opened Bits

  const W := 0x1_0000_0000
  const WW := 0x1_0000_0000_0000_0000

  /** The C `int` with the bit pattern `w`. */
  function ToInt(w: Word): (r: int)
    ensures -0x8000_0000 <= r < 0x8000_0000
    ensures r == w || r == w - W
  {
    if w < 0x8000_0000 then w else w - W
  }

  /** The bit pattern of a C `int`. */
  function ToWord(x: int): (r: Word)
    requires -0x8000_0000 <= x < 0x8000_0000
    ensures ToInt(r) == x
  {
    if x >= 0 then x else x + W
  }

  /** Unary minus on a C `int`; the most negative value wraps to itself. */
  function Negate(x: int): (r: int)
    requires -0x8000_0000 <= x < 0x8000_0000
    ensures -0x8000_0000 <= r < 0x8000_0000
  {
    if x == -0x8000_0000 then x else -x
  }

  lemma Pow2Width()
    ensures Pow2(8) == 0x100 && Pow2(16) == 0x1_0000 && Pow2(24) == 0x100_0000 && Pow2(31) == 0x8000_0000 && Pow2(32) == W
  {
    assert Pow2(2) == 4 && Pow2(4) == 16 && Pow2(6) == 64 && Pow2(8) == 256;
    assert Pow2(10) == 1024 && Pow2(12) == 4096 && Pow2(14) == 16384 && Pow2(16) == 65536;
    assert Pow2(18) == 0x4_0000 && Pow2(20) == 0x10_0000 && Pow2(22) == 0x40_0000 && Pow2(24) == 0x100_0000;
    assert Pow2(26) == 0x400_0000 && Pow2(28) == 0x1000_0000 && Pow2(30) == 0x4000_0000;
  }

  /** The tests `a & 0xfffffffe` and `bLo & 0x80000000`. */
  lemma MaskTests(w: Word)
    ensures And(w, 0xffff_fffe) == 0 <==> w <= 1
    ensures And(w, 0x8000_0000) != 0 <==> w >= 0x8000_0000
  {
    Pow2Width();
    assert Pow2(1) == 2;
    AndHighOnes(w, 0xffff_fffe, 1, 32);
    AndHighOnes(w, 0x8000_0000, 31, 32);
  }

  /** Adding two double words, low halves first, with the carry found by `lo < bLo`. */
  function AddDouble(hi: Word, lo: Word, bHi: Word, bLo: Word): (r: (Word, Word))
    requires hi * W + lo + bHi * W + bLo < WW
    ensures r.0 * W + r.1 == (hi * W + lo) + (bHi * W + bLo)
  {
    var lo' := (lo + bLo) % W;
    var hi' := if lo' < bLo then (hi + 1) % W else hi;
    ((hi' + bHi) % W, lo')
  }

  /** Doubling a double word: bHi <<= 1; carry the top bit of bLo over; bLo <<= 1. */
  function ShiftDouble(bHi: Word, bLo: Word): (r: (Word, Word))
    requires 2 * (bHi * W + bLo) < WW
    ensures r.0 * W + r.1 == 2 * (bHi * W + bLo)
  {
    MaskTests(bLo);
    CarryIn(bHi);
    (if And(bLo, 0x8000_0000) != 0 then Or((bHi * 2) % W, 1) else (bHi * 2) % W, (bLo * 2) % W)
  }

  lemma CarryIn(bHi: Word)
    ensures Or((bHi * 2) % W, 1) == (bHi * 2) % W + 1
    ensures (bHi * 2) % W == (if bHi < 0x8000_0000 then 2 * bHi else 2 * bHi - W)
  {
    assert Pow2(1) == 2;
    ModUnique(bHi * 2, W, if bHi < 0x8000_0000 then 0 else 1, if bHi < 0x8000_0000 then 2 * bHi else 2 * bHi - W);
    OrDisjoint((bHi * 2) % W, 1, 1);
  }

  /** Two's complement of a double word: complement both halves, add one to the low one and carry. */
  function NegateDouble(hi: Word, lo: Word): (r: (Word, Word))
    ensures r.0 * W + r.1 == (WW - (hi * W + lo)) % WW
  {
    var hi', lo' := W - 1 - hi, (W - 1 - lo + 1) % W;
    (if lo' == 0 then (hi' + 1) % W else hi', lo')
  }

  lemma ProductBound(u: nat, b: nat)
    requires u <= W && b < W
    ensures 0 <= u * b < WW
  {
    assert (W - u) * b >= 0;
    assert u * b >= 0;
  }

  /** The product Mult should deliver: exact as an integer, cut to 64 bits. */
  function Product(a: Word, b: Word, signedArith: bool): nat {
    if signedArith then (ToInt(a) * ToInt(b)) % WW else (a * b) % WW
  }

  /** What the remaining bits `u` of the multiplier, from bit `i` up, will still add to the sum. */
  ghost function Rest(u: nat, i: nat, b: nat): nat {
    u * (Pow2(i) * b)
  }

  lemma RestWhole(u: nat, b: nat)
    ensures Rest(u, 0, b) == u * b && Pow2(0) * b == b && Pow2(0) == 1 && Rest(0, 32, b) == 0
  {
  }

  /** One turn moves bit `i` from the rest to the sum. */
  lemma RestSplits(u: nat, i: nat, b: nat)
    ensures Rest(u, i, b) == (if u % 2 == 1 then Pow2(i) * b else 0) + Rest(u / 2, i + 1, b)
    ensures Pow2(i + 1) * b == 2 * (Pow2(i) * b) && Rest(0, i + 1, b) == 0
  {
    var h, s := u / 2, Pow2(i) * b;
    assert h * (Pow2(i + 1) * b) == (2 * h) * s;
    if u % 2 == 1 {
      assert (2 * h + 1) * s == (2 * h) * s + s;
    }
  }

  /** The signed shift a >>= 1 drops the low bit of the unsigned pattern that is left. */
  lemma ShiftDropsBit(x: int, neg: bool, u: nat, i: nat)
    requires i < 32 && u < Pow2(32 - i)
    requires x == u - (if neg then Pow2(32 - i) else 0)
    ensures x % 2 == u % 2 && u / 2 < Pow2(31 - i)
    ensures x / 2 == u / 2 - (if neg then Pow2(31 - i) else 0)
  {
    assert Pow2(32 - i) == 2 * Pow2(31 - i);
  }

  lemma ShiftFits(i: nat, b: Word)
    requires i < 32
    ensures 2 * (Pow2(i) * b) < WW
  {
    Pow2Grows(i + 1, 32);
    Pow2Width();
    ProductBound(Pow2(i + 1), b);
    RestSplits(0, i, b);
  }

  /** The loop of Mult: add up shifted copies of `b` for the bits of `x0`, read as an unsigned number. */
  method Accumulate(x0: int, b: Word) returns (hi: Word, lo: Word)
    requires -0x8000_0000 <= x0 < 0x8000_0000
    ensures hi * W + lo == ToWord(x0) * b
  {
    hide And, Rest, Pow2, AddDouble, ShiftDouble;
    RestWhole(ToWord(x0), b);
    var x := x0;
    ghost var neg, u: nat, s: nat := x0 < 0, ToWord(x0), b;
    ProductBound(u, b);
    Pow2Width();
    var bLo: Word, bHi: Word := b, 0;
    lo, hi := 0, 0;
    for i := 0 to 32
      invariant -0x8000_0000 <= x < 0x8000_0000 && (x < 0 <==> neg)
      invariant x == u - (if neg then Pow2(32 - i) else 0)
      invariant u < Pow2(32 - i)
      invariant s == Pow2(i) * b && bHi * W + bLo == s
      invariant (hi * W + lo) + Rest(u, i, b) == ToWord(x0) * b
    {
      ShiftDropsBit(x, neg, u, i);
      RestSplits(u, i, b);
      ShiftFits(i, b);
      if x % 2 == 1 {
        var sum := AddDouble(hi, lo, bHi, bLo);
        hi, lo := sum.0, sum.1;
        MaskTests(ToWord(x));
        if And(ToWord(x), 0xffff_fffe) == 0 {
          assert u / 2 == 0;
          return;
        }
      }
      var shifted := ShiftDouble(bHi, bLo);
      bHi, bLo := shifted.0, shifted.1;
      x := x / 2;
      u, s := u / 2, 2 * s;
    }
  }

  method Mult(a: Word, b: Word, signedArith: bool) returns (hi: Word, lo: Word)
    ensures hi * W + lo == Product(a, b, signedArith)
    ensures hi == Product(a, b, signedArith) / W && lo == Product(a, b, signedArith) % W
  {
    if a == 0 || b == 0 {
      return 0, 0;
    }
    var negative := false;
    var x, y := ToInt(a), ToInt(b);
    if signedArith {
      if x < 0 {
        negative := !negative;
        x := Negate(x);
      }
      if y < 0 {
        negative := !negative;
        y := Negate(y);
      }
    }
    hi, lo := Accumulate(x, ToWord(y));
    ProductFromSigns(a, b, signedArith, ToWord(x), ToWord(y), negative);
    hide ToInt, ToWord, Negate, Product, Magnitude;
    if negative {
      var complement := NegateDouble(hi, lo);
      hi, lo := complement.0, complement.1;
    }
  }

  /** The double word that the loop computes, before the sign is put back. */
  function Magnitude(a: Word): nat {
    ToWord(if ToInt(a) < 0 then Negate(ToInt(a)) else ToInt(a))
  }

  lemma ProductOfMagnitudes(x: int, y: int, p: int, q: int)
    requires p == (if x < 0 then -x else x) && q == (if y < 0 then -y else y)
    ensures (x < 0 <==> y < 0) ==> x * y == p * q
    ensures x != 0 && y != 0 && !(x < 0 <==> y < 0) ==> x * y == -(p * q) < 0
  {
    assert p == -x && q == -y ==> p * q == (-x) * (-y) == x * y;
    assert p == -x && q == y ==> p * q == (-x) * y == -(x * y);
    assert p == x && q == -y ==> p * q == x * (-y) == -(x * y);
    assert p > 0 && q > 0 ==> p * q > 0;
  }

  lemma ModWide(z: int)
    requires 0 <= z < WW
    ensures z % WW == z
    ensures 0 < z ==> (-z) % WW == WW - z == (WW - z) % WW
  {
  }

  lemma SignsRight(a: Word, b: Word)
    ensures (ToInt(a) < 0 <==> ToInt(b) < 0) ==> Product(a, b, true) == Magnitude(a) * Magnitude(b)
    ensures a != 0 && b != 0 && !(ToInt(a) < 0 <==> ToInt(b) < 0) ==>
      Product(a, b, true) == (WW - Magnitude(a) * Magnitude(b)) % WW
  {
    ProductBound(Magnitude(a), Magnitude(b));
    ModWide(Magnitude(a) * Magnitude(b));
    MagnitudeIs(a);
    MagnitudeIs(b);
    ProductOfMagnitudes(ToInt(a), ToInt(b), Magnitude(a), Magnitude(b));
    hide ToInt, Magnitude;
  }

  lemma MagnitudeIs(a: Word)
    ensures Magnitude(a) == (if ToInt(a) < 0 then -ToInt(a) else ToInt(a))
    ensures ToInt(a) == 0 <==> a == 0
  {
  }

  lemma ProductFromSigns(a: Word, b: Word, signedArith: bool, p: Word, q: Word, negative: bool)
    requires a != 0 && b != 0
    requires p == (if signedArith then Magnitude(a) else a) && q == (if signedArith then Magnitude(b) else b)
    requires negative == (signedArith && !(ToInt(a) < 0 <==> ToInt(b) < 0))
    ensures Product(a, b, signedArith) == if negative then (WW - p * q) % WW else p * q
  {
    if signedArith {
      SignsRight(a, b);
    } else {
      ProductBound(a, b);
      ModWide(a * b);
    }
  }
}
