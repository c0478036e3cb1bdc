/** 32-bit words as natural numbers, with the bitwise operators of C defined by recursion on the bits. */
module Bits {

  type Word = x: nat | x < 0x1_0000_0000

  function Pow2(k: nat): (r: nat)
    ensures r > 0
  {
    if k == 0 then 1 else 2 * Pow2(k - 1)
  }

  /** Bit `i` of `x`, the least significant being bit 0. */
  predicate Bit(x: nat, i: nat) {
    if i == 0 then x % 2 == 1 else Bit(x / 2, i - 1)
  }

  function And(x: nat, y: nat): (r: nat)
    ensures r <= x && r <= y
  {
    if x == 0 || y == 0 then 0 else
      2 * And(x / 2, y / 2) + (if x % 2 == 1 && y % 2 == 1 then 1 else 0)
  }

  function Or(x: nat, y: nat): (r: nat)
    ensures r <= x + y
    decreases x + y
  {
    if x == 0 then y else if y == 0 then x else
      2 * Or(x / 2, y / 2) + (if x % 2 == 1 || y % 2 == 1 then 1 else 0)
  }

  function Xor(x: nat, y: nat): (r: nat)
    ensures r <= x + y
    decreases x + y
  {
    if x == 0 then y else if y == 0 then x else
      2 * Xor(x / 2, y / 2) + (if x % 2 != y % 2 then 1 else 0)
  }

  lemma {:induction false} AndBit(x: nat, y: nat, i: nat)
    ensures Bit(And(x, y), i) <==> Bit(x, i) && Bit(y, i)
  {
    if x == 0 || y == 0 {
      ZeroBit(i);
    } else if i > 0 {
      AndBit(x / 2, y / 2, i - 1);
    }
  }

  lemma {:induction false} OrBit(x: nat, y: nat, i: nat)
    ensures Bit(Or(x, y), i) <==> Bit(x, i) || Bit(y, i)
  {
    if x == 0 || y == 0 {
      ZeroBit(i);
    } else if i > 0 {
      OrBit(x / 2, y / 2, i - 1);
    }
  }

  lemma {:induction false} XorBit(x: nat, y: nat, i: nat)
    ensures Bit(Xor(x, y), i) <==> Bit(x, i) != Bit(y, i)
  {
    if x == 0 || y == 0 {
      ZeroBit(i);
    } else if i > 0 {
      XorBit(x / 2, y / 2, i - 1);
    }
  }

  lemma ZeroBit(i: nat)
    ensures !Bit(0, i)
  {
  }

  /** Numbers with the same bits are equal. */
  lemma {:induction false} SameBits(x: nat, y: nat)
    requires forall i: nat :: Bit(x, i) <==> Bit(y, i)
    ensures x == y
    decreases x + y
  {
    assert Bit(x, 0) <==> Bit(y, 0);
    if x + y > 0 {
      forall i: nat ensures Bit(x / 2, i) <==> Bit(y / 2, i) {
        assert Bit(x, i + 1) <==> Bit(y, i + 1);
      }
      SameBits(x / 2, y / 2);
    }
  }

  /** Bits of a power of two. */
  lemma {:induction false} Pow2Bit(k: nat, i: nat)
    ensures Bit(Pow2(k), i) <==> i == k
  {
    if k == 0 {
      if i > 0 { ZeroBit(i - 1); }
    } else if i > 0 {
      Pow2Bit(k - 1, i - 1);
    }
  }

  /** Bits of an all-ones number. */
  lemma {:induction false} OnesBit(n: nat, i: nat)
    ensures Bit(Pow2(n) - 1, i) <==> i < n
  {
    if n == 0 {
      ZeroBit(i);
    } else if i > 0 {
      assert (Pow2(n) - 1) / 2 == Pow2(n - 1) - 1;
      OnesBit(n - 1, i - 1);
    }
  }

  /** The complement in `n` bits flips every bit below `n`. */
  lemma {:induction false} ComplementBit(x: nat, n: nat, i: nat)
    requires x < Pow2(n) && i < n
    ensures Bit(Pow2(n) - 1 - x, i) <==> !Bit(x, i)
  {
    HalfComplement(x, Pow2(n - 1));
    if i > 0 {
      ComplementBit(x / 2, n - 1, i - 1);
    }
  }

  lemma HalfComplement(x: nat, p: nat)
    requires x < 2 * p
    ensures (2 * p - 1 - x) / 2 == p - 1 - x / 2 && (2 * p - 1 - x) % 2 != x % 2
  {
  }

  /** A bit above the width of a number is clear. */
  lemma {:induction false} HighBit(x: nat, n: nat, i: nat)
    requires x < Pow2(n) && n <= i
    ensures !Bit(x, i)
  {
    if n == 0 {
      ZeroBit(i);
    } else {
      HighBit(x / 2, n - 1, i - 1);
    }
  }

  lemma {:induction false} OrBound(x: nat, y: nat, n: nat)
    requires x < Pow2(n) && y < Pow2(n)
    ensures Or(x, y) < Pow2(n)
  {
    if n > 0 {
      OrBound(x / 2, y / 2, n - 1);
    }
  }

  lemma {:induction false} XorBound(x: nat, y: nat, n: nat)
    requires x < Pow2(n) && y < Pow2(n)
    ensures Xor(x, y) < Pow2(n)
  {
    if n > 0 {
      XorBound(x / 2, y / 2, n - 1);
    }
  }

  lemma ModDouble(x: nat, q: nat)
    requires q > 0
    ensures x % (2 * q) == 2 * ((x / 2) % q) + x % 2
  {
    var d, m := (x / 2) / q, (x / 2) % q;
    assert x == 2 * (d * q + m) + x % 2;
    assert x == d * (2 * q) + (2 * m + x % 2);
    ModUnique(x, 2 * q, d, 2 * m + x % 2);
  }

  /** The low bits of a number are those of its remainder. */
  lemma {:induction false} ModBit(x: nat, n: nat, i: nat)
    requires i < n
    ensures x % Pow2(n) >= 0 && (Bit(x % Pow2(n), i) <==> Bit(x, i))
  {
    ModDouble(x, Pow2(n - 1));
    ModUnique(x % Pow2(n), 2, (x / 2) % Pow2(n - 1), x % 2);
    if i > 0 {
      ModBit(x / 2, n - 1, i - 1);
    }
  }

  /** Multiplying by a power of two shifts to the left, dividing by it to the right. */
  lemma {:induction false} TimesBit(x: nat, k: nat, i: nat)
    ensures x * Pow2(k) >= 0 && (Bit(x * Pow2(k), i) <==> i >= k && Bit(x, i - k))
  {
    if k > 0 {
      var half := x * Pow2(k - 1);
      assert x * Pow2(k) == 2 * half by { DoubleTimes(x, Pow2(k - 1)); }
      TimesBit(x, k - 1, if i > 0 then i - 1 else 0);
    }
  }

  lemma DoubleTimes(x: nat, y: nat)
    ensures x * (2 * y) == 2 * (x * y)
  {
  }

  lemma {:induction false} OverBit(x: nat, k: nat, i: nat)
    ensures x / Pow2(k) >= 0 && (Bit(x / Pow2(k), i) <==> Bit(x, i + k))
  {
    if k > 0 {
      DivTwice(x, 2, Pow2(k - 1));
      OverBit(x / 2, k - 1, i);
    }
  }

  lemma DivTwice(x: nat, a: nat, b: nat)
    requires a > 0 && b > 0
    ensures x / a / b == x / (a * b)
  {
    var q, r := x / a, x % a;
    var q', r' := q / b, q % b;
    DivMod(x, a);
    DivMod(q, b);
    TwoDigits(a, b, q', r', r);
    ModUnique(x, a * b, q', a * r' + r);
  }

  lemma DivMod(x: nat, a: nat)
    requires a > 0
    ensures x == a * (x / a) + x % a && x % a < a && x / a >= 0
  {
  }

  /** A number in mixed base b, a. */
  lemma TwoDigits(a: nat, b: nat, high: nat, mid: nat, low: nat)
    requires low < a && mid < b
    ensures a * (b * high + mid) + low == high * (a * b) + (a * mid + low) && 0 <= a * mid + low < a * b
  {
    Distribute(a, b * high, mid);
    Associate(a, b, high);
    Distribute(a, mid + 1, b - mid - 1);
    Distribute(a, mid, 1);
  }

  lemma Distribute(a: nat, x: nat, y: nat)
    ensures a * (x + y) == a * x + a * y && a * x >= 0 && a * y >= 0
  {
  }

  lemma Associate(a: nat, b: nat, c: nat)
    ensures a * (b * c) == c * (a * b)
  {
  }

  lemma ModUnique(x: int, n: int, d: int, m: int)
    requires n > 0 && 0 <= m < n && x == d * n + m
    ensures x / n == d && x % n == m
  {
    var e := x / n;
    assert x == e * n + x % n;
    assert (d - e) * n == x % n - m;
    SmallMultiple(d - e, n);
  }

  lemma SmallMultiple(c: int, n: int)
    requires n > 0
    ensures -n < c * n < n ==> c == 0
  {
    assert c >= 1 ==> c * n >= n;
    assert c <= -1 ==> c * n <= -n;
  }

  /** Masking with k ones keeps the k low bits. */
  lemma {:induction false} AndOnes(x: nat, k: nat)
    ensures And(x, Pow2(k) - 1) == x % Pow2(k)
  {
    if x == 0 || k == 0 {
    } else {
      AndOnes(x / 2, k - 1);
      ModDouble(x, Pow2(k - 1));
      assert (Pow2(k) - 1) / 2 == Pow2(k - 1) - 1;
    }
  }

  /** Masking with ones from bit k to bit n-1 clears the k low bits. */
  lemma {:induction false} AndHighOnes(x: nat, mask: nat, k: nat, n: nat)
    requires k <= n && x < Pow2(n) && mask + Pow2(k) == Pow2(n)
    ensures And(x, mask) == x - x % Pow2(k)
  {
    if mask == 0 {
      ModUnique(x, Pow2(k), 0, x);
    } else if k == 0 {
      AndOnes(x, n);
      ModUnique(x, Pow2(n), 0, x);
    } else if x != 0 {
      HalfMask(mask, k, n);
      AndHighOnes(x / 2, mask / 2, k - 1, n - 1);
      AndEven(x, mask);
      ModDouble(x, Pow2(k - 1));
    }
  }

  lemma AndEven(x: nat, y: nat)
    requires y % 2 == 0
    ensures And(x, y) == 2 * And(x / 2, y / 2)
  {
  }

  lemma HalfMask(mask: nat, k: nat, n: nat)
    requires 0 < k <= n && mask + Pow2(k) == Pow2(n)
    ensures mask % 2 == 0 && mask / 2 + Pow2(k - 1) == Pow2(n - 1)
  {
  }

  /** Or of numbers without common bits is their sum. */
  lemma {:induction false} OrDisjoint(high: nat, low: nat, k: nat)
    requires high % Pow2(k) == 0 && low < Pow2(k)
    ensures Or(high, low) == high + low
    decreases k
  {
    if k > 0 && high != 0 && low != 0 {
      ModDouble(high, Pow2(k - 1));
      OrDisjoint(high / 2, low / 2, k - 1);
    }
  }

  lemma {:induction false} Pow2Grows(k: nat, n: nat)
    requires k <= n
    ensures Pow2(k) <= Pow2(n)
  {
    if k < n {
      Pow2Grows(k, n - 1);
    }
  }
}
