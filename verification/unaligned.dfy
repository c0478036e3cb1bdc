/**
 Unaligned words on a little-endian machine (LWL, LWR, SWL and SWR of machine/mipssim.cc): a pair of instructions moves
 the four bytes at any address.
 */
module Unaligned {
  import opened Common
  import opened Bits
  import opened Memory
  import opened Multiplier
  import opened Mips
  import opened DelaySlot

  // ---------------------------------------------------------------- masks and shifts as arithmetic

  lemma LowMasks(x: Word)
    ensures And(x, 3) == x % 4 && And(x, 0xff) == x % 0x100 && And(x, 0xffff) == x % 0x1_0000
    ensures And(x, 0xff_ffff) == x % 0x100_0000
  {
    Pow2Width();
    assert Pow2(2) == 4;
    AndOnes(x, 2);
    AndOnes(x, 8);
    AndOnes(x, 16);
    AndOnes(x, 24);
  }

  lemma HighMasks(x: Word)
    ensures And(x, 0xffff_ff00) == x - x % 0x100 && And(x, 0xffff_0000) == x - x % 0x1_0000
    ensures And(x, 0xff00_0000) == x - x % 0x100_0000
  {
    Pow2Width();
    AndHighOnes(x, 0xffff_ff00, 8, 32);
    AndHighOnes(x, 0xffff_0000, 16, 32);
    AndHighOnes(x, 0xff00_0000, 24, 32);
  }

  /** `>>` copies the sign bit in; masking it away leaves the unsigned quotient. */
  lemma ShiftedDown(x: Word)
    ensures And(Sar(x, 8), 0xff_ffff) == x / 0x100
    ensures And(Sar(x, 16), 0xffff) == x / 0x1_0000
    ensures And(Sar(x, 24), 0xff) == x / 0x100_0000
  {
    Pow2Width();
    LowMasks(Sar(x, 8));
    LowMasks(Sar(x, 16));
    LowMasks(Sar(x, 24));
    hide And, Pow2;
    SarLow(x, 0x100, 0x100_0000);
    SarLow(x, 0x1_0000, 0x1_0000);
    SarLow(x, 0x100_0000, 0x100);
  }

  lemma SarLow(x: Word, p: nat, q: nat)
    requires (p == 0x100 && q == 0x100_0000) || (p == 0x1_0000 && q == 0x1_0000) || (p == 0x100_0000 && q == 0x100)
    ensures Wrap(ToInt(x) / p) % q == x / p
  {
    var y := x / p;
    assert x == p * y + x % p;
    if x >= 0x8000_0000 {
      ModUnique(x - W, p, y - q, x % p);
      ModUnique(y - q, W, -1, y - q + W);
      ModUnique(y - q + W, q, p - 1, y);
    } else {
      ModUnique(y, W, 0, y);
      ModUnique(y, q, 0, y);
    }
  }

  lemma ShiftedUp(x: Word)
    ensures Shl(x, 8) == 0x100 * (x % 0x100_0000)
    ensures Shl(x, 16) == 0x1_0000 * (x % 0x1_0000)
    ensures Shl(x, 24) == 0x100_0000 * (x % 0x100)
  {
    Pow2Width();
    ModUnique(x * 0x100, W, x / 0x100_0000, 0x100 * (x % 0x100_0000));
    ModUnique(x * 0x1_0000, W, x / 0x1_0000, 0x1_0000 * (x % 0x1_0000));
    ModUnique(x * 0x100_0000, W, x / 0x100, 0x100_0000 * (x % 0x100));
  }

  /** Or of a multiple of 2^k and something below it. */
  lemma Join(high: Word, low: Word)
    ensures high % 0x100 == 0 && low < 0x100 ==> Or32(high, low) == Or32(low, high) == high + low
    ensures high % 0x1_0000 == 0 && low < 0x1_0000 ==> Or32(high, low) == Or32(low, high) == high + low
    ensures high % 0x100_0000 == 0 && low < 0x100_0000 ==> Or32(high, low) == Or32(low, high) == high + low
  {
    Pow2Width();
    OrCommutes(high, low);
    if high % 0x100_0000 == 0 && low < 0x100_0000 {
      OrDisjoint(high, low, 24);
    } else if high % 0x1_0000 == 0 && low < 0x1_0000 {
      OrDisjoint(high, low, 16);
    } else if high % 0x100 == 0 && low < 0x100 {
      OrDisjoint(high, low, 8);
    }
  }

  lemma {:induction false} OrCommutes(x: nat, y: nat)
    ensures Or(x, y) == Or(y, x)
    decreases x + y
  {
    if x != 0 && y != 0 {
      OrCommutes(x / 2, y / 2);
    }
  }

  /** The number that the bytes `b` from 0 up spell. */
  function Low(b0: Byte, b1: Byte, b2: Byte): Word {
    (b0 as nat) + 0x100 * (b1 as nat) + 0x1_0000 * (b2 as nat)
  }

  lemma Parts(b0: Byte, b1: Byte, b2: Byte, b3: Byte)
    ensures var w := WordOf(b0, b1, b2, b3);
      && w % 0x100 == b0 && w % 0x1_0000 == Low(b0, b1, 0) && w % 0x100_0000 == Low(b0, b1, b2)
      && w / 0x100_0000 == b3 && w / 0x1_0000 == Low(b2, b3, 0) && w / 0x100 == Low(b1, b2, b3)
  {
    var w := WordOf(b0, b1, b2, b3);
    ModUnique(w, 0x100, Low(b1, b2, b3), b0);
    ModUnique(w, 0x1_0000, Low(b2, b3, 0), Low(b0, b1, 0));
    ModUnique(w, 0x100_0000, b3, Low(b0, b1, b2));
  }

  // ---------------------------------------------------------------- the four merges, byte by byte

  /** LWR puts the bytes from `byte` up at the bottom of the register. */
  lemma LwrWord(byte: nat, v0: Byte, v1: Byte, v2: Byte, v3: Byte, r0: Byte, r1: Byte, r2: Byte, r3: Byte)
    requires byte < 4
    ensures LwrMerge(byte, WordOf(v0, v1, v2, v3), WordOf(r0, r1, r2, r3)) ==
      match byte case 0 => WordOf(v0, v1, v2, v3) case 1 => WordOf(v1, v2, v3, r3) case 2 => WordOf(v2, v3, r2, r3)
        case _ => WordOf(v3, r1, r2, r3)
  {
    var value, register := WordOf(v0, v1, v2, v3), WordOf(r0, r1, r2, r3);
    Parts(v0, v1, v2, v3);
    Parts(r0, r1, r2, r3);
    HighMasks(register);
    ShiftedDown(value);
    hide Or32, Sar, And, Wrap;
    if byte == 3 {
      assert Clear(register, 0x100) == WordOf(0, r1, r2, r3);
      Join(Clear(register, 0x100), v3);
    } else if byte == 2 {
      assert Clear(register, 0x1_0000) == WordOf(0, 0, r2, r3);
      Join(Clear(register, 0x1_0000), Low(v2, v3, 0));
    } else if byte == 1 {
      assert Clear(register, 0x100_0000) == WordOf(0, 0, 0, r3);
      Join(Clear(register, 0x100_0000), Low(v1, v2, v3));
    }
  }

  /** A word with its part below `p` cleared. */
  function Clear(w: Word, p: nat): (r: Word)
    requires p > 0
    ensures r == w - w % p && r % p == 0
  {
    ModUnique(w - w % p, p, w / p, 0);
    w - w % p
  }

  lemma LwlWord(byte: nat, v0: Byte, v1: Byte, v2: Byte, v3: Byte, r0: Byte, r1: Byte, r2: Byte, r3: Byte)
    requires byte < 4
    ensures LwlMerge(byte, WordOf(v0, v1, v2, v3), WordOf(r0, r1, r2, r3)) ==
      match byte case 0 => WordOf(r0, r1, r2, v0) case 1 => WordOf(r0, r1, v0, v1) case 2 => WordOf(r0, v0, v1, v2)
        case _ => WordOf(v0, v1, v2, v3)
  {
    var value, register := WordOf(v0, v1, v2, v3), WordOf(r0, r1, r2, r3);
    Parts(v0, v1, v2, v3);
    Parts(r0, r1, r2, r3);
    LowMasks(register);
    ShiftedUp(value);
    if byte == 2 {
      MultipleOf(0x100, Low(v0, v1, v2));
      Join(Shl(value, 8), r0);
    } else if byte == 1 {
      MultipleOf(0x1_0000, Low(v0, v1, 0));
      Join(Shl(value, 16), Low(r0, r1, 0));
    } else if byte == 0 {
      MultipleOf(0x100_0000, v0);
      Join(Shl(value, 24), Low(r0, r1, r2));
    }
    hide Or32, Shl, And;
  }

  lemma MultipleOf(p: nat, x: nat)
    requires p > 0
    ensures (p * x) % p == 0
  {
    ModUnique(p * x, p, x, 0);
  }

  lemma LwrBytes(byte: nat, value: Word, register: Word, k: nat)
    requires byte < 4 && k < 4
    ensures ByteOf(LwrMerge(byte, value, register), k) == if k + byte <= 3 then ByteOf(value, k + byte) else ByteOf(register, k)
  {
    var v0, v1, v2, v3 := ByteOf(value, 0), ByteOf(value, 1), ByteOf(value, 2), ByteOf(value, 3);
    var r0, r1, r2, r3 := ByteOf(register, 0), ByteOf(register, 1), ByteOf(register, 2), ByteOf(register, 3);
    WordFromBytes(value);
    WordFromBytes(register);
    LwrWord(byte, v0, v1, v2, v3, r0, r1, r2, r3);
    WordBytes(v1, v2, v3, r3);
    WordBytes(v2, v3, r2, r3);
    WordBytes(v3, r1, r2, r3);
    hide ByteOf, LwrMerge, WordOf;
  }

  lemma LwlBytes(byte: nat, value: Word, register: Word, k: nat)
    requires byte < 4 && k < 4
    ensures ByteOf(LwlMerge(byte, value, register), k) == if 3 <= k + byte then ByteOf(value, k + byte - 3) else ByteOf(register, k)
  {
    var v0, v1, v2, v3 := ByteOf(value, 0), ByteOf(value, 1), ByteOf(value, 2), ByteOf(value, 3);
    var r0, r1, r2, r3 := ByteOf(register, 0), ByteOf(register, 1), ByteOf(register, 2), ByteOf(register, 3);
    WordFromBytes(value);
    WordFromBytes(register);
    LwlWord(byte, v0, v1, v2, v3, r0, r1, r2, r3);
    WordBytes(r0, v0, v1, v2);
    WordBytes(r0, r1, v0, v1);
    WordBytes(r0, r1, r2, v0);
    hide ByteOf, LwlMerge, WordOf;
  }

  /** SWL merges into memory the way LWR merges into a register, counting bytes from the other end. */
  lemma SwlBytes(byte: nat, value: Word, register: Word, k: nat)
    requires byte < 4 && k < 4
    ensures ByteOf(SwlMerge(byte, value, register), k) == if k <= byte then ByteOf(register, k + 3 - byte) else ByteOf(value, k)
  {
    LwrBytes(3 - byte, register, value, k);
    SwlIsLwr(byte, value, register);
    hide ByteOf;
  }

  lemma SwlIsLwr(byte: nat, value: Word, register: Word)
    requires byte < 4
    ensures SwlMerge(byte, value, register) == LwrMerge(3 - byte, register, value)
  {
  }

  lemma SwrBytes(byte: nat, value: Word, register: Word, k: nat)
    requires byte < 4 && k < 4
    ensures ByteOf(SwrMerge(byte, value, register), k) == if byte <= k then ByteOf(register, k - byte) else ByteOf(value, k)
  {
    LwlBytes(3 - byte, register, value, k);
    SwrIsLwl(byte, value, register);
    hide ByteOf;
  }

  lemma SwrIsLwl(byte: nat, value: Word, register: Word)
    requires byte < 4
    ensures SwrMerge(byte, value, register) == LwlMerge(3 - byte, register, value)
  {
  }

  // ---------------------------------------------------------------- the pairs

  /** The address `k` bytes after `a`. */
  function At(a: Word, k: nat): Word {
    Wrap(a + k)
  }

  /** The aligned words that the two halves of a pair go to. */
  function FirstWord(a: Word): Word {
    a - a % 4
  }

  function SecondWord(a: Word): Word {
    FirstWord(At(a, 3))
  }

  /** Byte `k` of the unaligned word at `a` is byte j of one of the two aligned words. */
  function HomeInFirst(a: Word, k: nat): bool {
    a % 4 > 0 && k + a % 4 <= 3
  }

  function HomeByte(a: Word, k: nat): nat
    requires k < 4
  {
    if a % 4 == 0 then k else if k + a % 4 <= 3 then k + a % 4 else k + a % 4 - 4
  }

  /** The byte three further on is in the same aligned word, the next one, or, at the very top, in word 0. */
  lemma ThirdByte(a: Word)
    ensures At(a, 3) % 4 == if a % 4 == 0 then 3 else a % 4 - 1
    ensures SecondWord(a) == if a % 4 == 0 then a else if a + 3 < W then a - a % 4 + 4 else 0
  {
    var q, b := a / 4, a % 4;
    WrapNear(a + 3);
    hide Wrap;
    var c := At(a, 3);
    if a + 3 < W {
      ModUnique(c, 4, if b == 0 then q else q + 1, if b == 0 then 3 else b - 1);
    } else {
      assert q == 0x3fff_ffff && c == b - 1;
    }
  }

  lemma ByteHome(a: Word, k: nat)
    requires k < 4
    ensures HomeByte(a, k) < 4
    ensures At(a, k) == (if HomeInFirst(a, k) then FirstWord(a) else SecondWord(a)) + HomeByte(a, k)
    ensures At(a, 3) % 4 == if a % 4 == 0 then 3 else a % 4 - 1
  {
    ThirdByte(a);
    WrapNear(a + k);
    hide Wrap, SecondWord;
    assert a == 4 * (a / 4) + a % 4;
  }

  lemma WrapNear(x: nat)
    requires x < 2 * W
    ensures Wrap(x) == if x < W then x else x - W
  {
    ModUnique(x, W, if x < W then 0 else 1, if x < W then x else x - W);
  }

  /** LWR at `a` merging into `register`, then LWL at a + 3 merging into that. */
  function PairLoaded(a: Word, first: Word, second: Word, register: Word): Word {
    LwlMerge(At(a, 3) % 4, second, LwrMerge(a % 4, first, register))
  }

  lemma PairBytes(a: Word, first: Word, second: Word, register: Word, k: nat)
    requires k < 4
    ensures HomeByte(a, k) < 4
    ensures ByteOf(PairLoaded(a, first, second, register), k) == ByteOf(if HomeInFirst(a, k) then first else second, HomeByte(a, k))
  {
    hide ByteOf, LwlMerge, LwrMerge, Wrap;
    ByteHome(a, k);
    LwrBytes(a % 4, first, register, k);
    LwlBytes(At(a, 3) % 4, second, LwrMerge(a % 4, first, register), k);
  }

  /** The pair of loads delivers the bytes that the program sees at a, a + 1, a + 2 and a + 3, whatever was in the register. */
  lemma PairLoads(m: Memory, m': Memory, a: Word, register: Word, k: nat)
    requires m.Valid() && m'.Valid() && !m.isTlb && k < 4 && SameMap(m, m') && m'.main == m.main
    requires Fetched(m, FirstWord(a), 4).exception == NoException
    requires Fetched(m', SecondWord(a), 4).exception == NoException
    ensures Mapped(m, At(a, k))
    ensures ByteOf(PairLoaded(a, Fetched(m, FirstWord(a), 4).value, Fetched(m', SecondWord(a), 4).value, register), k)
      == Seen(m, At(a, k))
  {
    hide Fetched, ByteOf, PairLoaded, At, Seen, Mapped, SameMap, FirstWord, SecondWord, HomeInFirst, HomeByte;
    ByteHome(a, k);
    PairBytes(a, Fetched(m, FirstWord(a), 4).value, Fetched(m', SecondWord(a), 4).value, register, k);
    if HomeInFirst(a, k) {
      ReadByteSeen(m, FirstWord(a), 4, HomeByte(a, k));
    } else {
      SameTable(m, m');
      ReadByteSeen(m', SecondWord(a), 4, HomeByte(a, k));
      SameSeen(m, m', At(a, k));
    }
  }

  lemma SameTable(m: Memory, m': Memory)
    requires SameMap(m, m')
    ensures m'.isTlb == m.isTlb
  {
  }

  lemma SameSeen(m: Memory, m': Memory, a: nat)
    requires m.Valid() && SameMap(m, m') && m'.main == m.main
    ensures Mapped(m, a) == Mapped(m', a) && (Mapped(m, a) ==> Seen(m, a) == Seen(m', a))
  {
    var i := a / PAGE_SIZE;
    if i < |m.entries| {
      assert m'.entries[i].(use := false, dirty := false) == m.entries[i].(use := false, dirty := false);
    }
  }

  lemma SameInjective(m: Memory, m': Memory)
    requires Injective(m) && SameMap(m, m')
    ensures Injective(m')
  {
    forall i, j | 0 <= i < j < |m'.entries| && m'.entries[i].valid && m'.entries[j].valid
      ensures Frame(m'.entries[i]) != Frame(m'.entries[j])
    {
      assert m'.entries[i].(use := false, dirty := false) == m.entries[i].(use := false, dirty := false);
      assert m'.entries[j].(use := false, dirty := false) == m.entries[j].(use := false, dirty := false);
    }
  }

  lemma SameMapTransitive(m: Memory, m': Memory, m'': Memory)
    requires SameMap(m, m') && SameMap(m', m'')
    ensures SameMap(m, m'')
  {
  }

  /** What the second half of SWL and SWR stores back into the aligned word. */
  function Merged(op: Op, a: Word, raw: Word, t: Word): Word {
    if op == SWL then SwlMerge(a % 4, raw, t) else SwrMerge(a % 4, raw, t)
  }

  /** SWR sets the bytes from `a` to the end of the aligned word, SWL those from its start to `a`. */
  lemma HalfStored(plain: Effect, op: Op, m: Memory, a: Word, t: Word, v: nat)
    requires Injective(m) && plain.Effect? && (op == SWL || op == SWR) && Mapped(m, v)
    requires StoreUnaligned(plain, op, m, a, t).Effect?
    ensures var m' := StoreUnaligned(plain, op, m, a, t).mem;
      && Injective(m') && SameMap(m, m') && Mapped(m', v)
      && Seen(m', v) ==
           if op == SWR && a <= v < FirstWord(a) + 4 then ByteOf(t, v - a)
           else if op == SWL && FirstWord(a) <= v <= a then ByteOf(t, v - a + 3)
           else Seen(m, v)
    ensures StoreUnaligned(plain, op, m, a, t) == WithMemory(plain, StoreUnaligned(plain, op, m, a, t).mem)
    ensures Mapped(m, FirstWord(a))
  {
    hide StoreUnaligned, Fetched, Stored, ByteOf, Merged, Seen, Injective, SameMap, Mapped;
    var x := FirstWord(a);
    assert x + a % 4 == a;
    InjectiveValid(m);
    HalfSteps(plain, op, m, a, t);
    hide FirstWord;
    var r := Fetched(m, x, 4);
    ReadSeesBytes(m, x, 4);
    SameInjective(m, r.mem);
    SameSeen(m, r.mem, v);
    var m' := Stored(r.mem, x, 4, Merged(op, a, r.value, t)).mem;
    WriteChangesExactly(r.mem, x, 4, Merged(op, a, r.value, t), v);
    SameMapTransitive(m, r.mem, m');
    if x <= v < x + 4 {
      ReadByteSeen(m, x, 4, v - x);
      MergedBytes(op, a, r.value, t, v - x);
    }
  }

  /** The two accesses of SWL and SWR, when they succeed. */
  lemma HalfSteps(plain: Effect, op: Op, m: Memory, a: Word, t: Word)
    requires m.Valid() && plain.Effect? && (op == SWL || op == SWR) && StoreUnaligned(plain, op, m, a, t).Effect?
    ensures var r := Fetched(m, FirstWord(a), 4);
      var w := Stored(r.mem, FirstWord(a), 4, Merged(op, a, r.value, t));
      && r.exception == NoException && w.exception == NoException
      && StoreUnaligned(plain, op, m, a, t) == WithMemory(plain, w.mem)
  {
    LowMasks(a);
    hide And, Fetched, Stored, SwlMerge, SwrMerge;
  }

  lemma MergedBytes(op: Op, a: Word, raw: Word, t: Word, k: nat)
    requires k < 4 && (op == SWL || op == SWR)
    ensures ByteOf(Merged(op, a, raw, t), k) ==
      if op == SWL then (if k <= a % 4 then ByteOf(t, k + 3 - a % 4) else ByteOf(raw, k))
      else if a % 4 <= k then ByteOf(t, k - a % 4) else ByteOf(raw, k)
  {
    SwlBytes(a % 4, raw, t, k);
    SwrBytes(a % 4, raw, t, k);
    hide ByteOf, SwlMerge, SwrMerge;
  }

  lemma InjectiveValid(m: Memory)
    requires Injective(m)
    ensures m.Valid() && !m.isTlb
  {
  }

  /** After SWR at `a` and SWL at a + 3, the bytes at a, a + 1, a + 2, a + 3 are those of the register, and no other
      address shows a change. */
  lemma PairStored(plain: Effect, plain': Effect, m: Memory, m': Memory, a: Word, t: Word, v: nat)
    requires Injective(m) && plain.Effect? && plain'.Effect? && Mapped(m, v)
    requires StoreUnaligned(plain, SWR, m, a, t).Effect?
    requires SameMap(StoreUnaligned(plain, SWR, m, a, t).mem, m') && m'.main == StoreUnaligned(plain, SWR, m, a, t).mem.main
    requires StoreUnaligned(plain', SWL, m', At(a, 3), t).Effect?
    ensures var m'' := StoreUnaligned(plain', SWL, m', At(a, 3), t).mem;
      && Injective(m'') && SameMap(m, m'') && Mapped(m'', v)
      && (forall k :: 0 <= k < 4 && v == At(a, k) ==> Seen(m'', v) == ByteOf(t, k))
      && ((forall k :: 0 <= k < 4 ==> v != At(a, k)) ==> Seen(m'', v) == Seen(m, v))
  {
    hide StoreUnaligned, SameMap, Injective, Mapped, Seen, ByteOf, At;
    InjectiveValid(m);
    HalfStored(plain, SWR, m, a, t, v);
    var m1 := StoreUnaligned(plain, SWR, m, a, t).mem;
    InjectiveValid(m1);
    SameInjective(m1, m');
    InjectiveValid(m');
    SameSeen(m1, m', v);
    HalfStored(plain', SWL, m', At(a, 3), t, v);
    SameMapTransitive(m, m1, m');
    SameMapTransitive(m, m', StoreUnaligned(plain', SWL, m', At(a, 3), t).mem);
    PairCovers(a, v);
    hide FirstWord, SecondWord;
  }

  /** Which of its four bytes a pair puts at `v`, if any: the two halves together cover each exactly once. */
  lemma PairCovers(a: Word, v: nat)
    ensures var c := At(a, 3);
      var inSecond, inFirst := FirstWord(c) <= v <= c, a <= v < FirstWord(a) + 4;
      && (inSecond ==> 0 <= v - c + 3 < 4 && v == At(a, v - c + 3))
      && (inFirst ==> 0 <= v - a < 4 && v == At(a, v - a))
      && (forall k :: 0 <= k < 4 && v == At(a, k) ==> if inSecond then k == v - c + 3 else inFirst && k == v - a)
  {
    var c := At(a, 3);
    CoversSecond(a, v);
    CoversFirst(a, v);
    forall k | 0 <= k < 4 && v == At(a, k)
      ensures if FirstWord(c) <= v <= c then k == v - c + 3 else a <= v < FirstWord(a) + 4 && k == v - a
    {
      CoversOnce(a, k);
    }
    hide At, FirstWord;
  }

  lemma CoversSecond(a: Word, v: nat)
    ensures var c := At(a, 3); FirstWord(c) <= v <= c ==> 0 <= v - c + 3 < 4 && v == At(a, v - c + 3)
  {
    hide Wrap;
    ByteHome(a, 0);
    WrapNear(a + 3);
    var c := At(a, 3);
    if FirstWord(c) <= v <= c {
      WrapNear(a + (v - c + 3));
    }
  }

  lemma CoversFirst(a: Word, v: nat)
    ensures a <= v < FirstWord(a) + 4 ==> 0 <= v - a < 4 && v == At(a, v - a)
  {
    hide Wrap;
    if a <= v < FirstWord(a) + 4 {
      WrapNear(a + (v - a));
    }
  }

  lemma CoversOnce(a: Word, k: nat)
    requires k < 4
    ensures var c, v := At(a, 3), At(a, k);
      if FirstWord(c) <= v <= c then k == v - c + 3 else a <= v < FirstWord(a) + 4 && k == v - a
  {
    hide Wrap;
    ByteHome(a, k);
    WrapNear(a + 3);
    WrapNear(a + k);
  }

  /** Words with the same bytes are equal. */
  lemma SameBytes(w: Word, w': Word)
    requires forall k :: 0 <= k < 4 ==> ByteOf(w, k) == ByteOf(w', k)
    ensures w == w'
  {
    WordFromBytes(w);
    WordFromBytes(w');
    hide ByteOf;
  }

  // ---------------------------------------------------------------- as instructions

  /** OneInstruction once the instruction is fetched and decoded. */
  function Do(c: Cpu, i: Instruction, m: Memory): Result
    requires c.Valid() && m.Valid()
  {
    Finish(c, Execute(OperandsOf(c, i), i, m))
  }

  /** The address of a load or store. */
  function Address(c: Cpu, i: Instruction): Word
    requires c.Valid()
  {
    Wrap(c.gpr[i.rs] + i.extra)
  }

  predicate Ok(r: Result) {
    r.exception == NoException
  }

  /** The effect of an instruction that has none yet. */
  function Plain(c: Cpu, m: Memory): (e: Effect)
    ensures e.Effect?
  {
    Effect(None, c.hi, c.lo, Wrap(c.nextPc + 4), (0, 0), m)
  }

  lemma LoadHalf(c: Cpu, i: Instruction, m: Memory, r: Result)
    requires Good(c) && m.Valid() && (i.op == LWR || i.op == LWL) && r == Do(c, i, m) && Ok(r)
    ensures var a, o := Address(c, i), OperandsOf(c, i);
      var raw := Fetched(m, FirstWord(a), 4);
      && raw.exception == NoException && r.mem == raw.mem && r.cpu.loadReg == i.rt
      && r.cpu.loadValue == (if i.op == LWR then LwrMerge(a % 4, raw.value, o.merge) else LwlMerge(a % 4, raw.value, o.merge))
    ensures r.cpu.gpr == c.gpr[c.loadReg := c.loadValue][0 := 0]
  {
    var a, o := Address(c, i), OperandsOf(c, i);
    hide Execute, LoadInto, Fetched, LwrMerge, LwlMerge, FirstWord, Wrap;
    ExecutesLoad(c, i, m);
    LoadIntoIs(Plain(c, m), i, m, FirstWord(a), a % 4, o.merge);
  }

  lemma ExecutesLoad(c: Cpu, i: Instruction, m: Memory)
    requires c.Valid() && m.Valid() && (i.op == LWR || i.op == LWL)
    ensures var a, o := Address(c, i), OperandsOf(c, i);
      Execute(o, i, m) == LoadInto(Plain(c, m), i, m, FirstWord(a), 4, a % 4, o.merge)
  {
    hide And, Transfer, LoadInto, Compute, Control, Wrap;
    var a, o := Address(c, i), OperandsOf(c, i);
    assert Execute(o, i, m) == Transfer(Plain(c, m), i, m, a, o.t, o.merge);
    TransfersWord(Plain(c, m), i, m, a, o.t, o.merge);
  }

  lemma TransfersWord(plain: Effect, i: Instruction, m: Memory, a: Word, t: Word, merge: Word)
    requires m.Valid() && plain.Effect? && (i.op == LWR || i.op == LWL)
    ensures Transfer(plain, i, m, a, t, merge) == LoadInto(plain, i, m, FirstWord(a), 4, a % 4, merge)
  {
    LowMasks(a);
    hide And, LoadInto;
  }

  lemma LoadIntoIs(plain: Effect, i: Instruction, m: Memory, x: Word, byte: nat, merge: Word)
    requires m.Valid() && plain.Effect? && (i.op == LWR || i.op == LWL)
    ensures var raw, e := Fetched(m, x, 4), LoadInto(plain, i, m, x, 4, byte, merge);
      if e.Raise? then e.exception == raw.exception != NoException
      else raw.exception == NoException && e == plain.(mem := raw.mem, load :=
        (i.rt, if i.op == LWR then LwrMerge(byte, raw.value, merge) else LwlMerge(byte, raw.value, merge)))
  {
    hide Fetched, LwrMerge, LwlMerge;
  }

  lemma StoreKeepsPlain(plain: Effect, op: Op, m: Memory, a: Word, t: Word)
    requires m.Valid() && plain.Effect? && StoreUnaligned(plain, op, m, a, t).Effect?
    ensures StoreUnaligned(plain, op, m, a, t) == WithMemory(plain, StoreUnaligned(plain, op, m, a, t).mem)
  {
    hide And, Fetched, Stored, SwlMerge, SwrMerge;
  }

  lemma StoreHalf(c: Cpu, i: Instruction, m: Memory, r: Result)
    requires Good(c) && m.Valid() && (i.op == SWR || i.op == SWL) && r == Do(c, i, m) && Ok(r)
    ensures var e := StoreUnaligned(Plain(c, m), i.op, m, Address(c, i), c.gpr[i.rt]); e.Effect? && r.mem == e.mem
    ensures r.cpu.gpr == c.gpr[c.loadReg := c.loadValue][0 := 0]
  {
    hide StoreUnaligned, Compute, Control, LoadInto, Stores, Wrap;
    var e := StoreUnaligned(Plain(c, m), i.op, m, Address(c, i), c.gpr[i.rt]);
    assert Execute(OperandsOf(c, i), i, m) == e;
    if e.Effect? {
      StoreKeepsPlain(Plain(c, m), i.op, m, Address(c, i), c.gpr[i.rt]);
    } else {
      RaiseIsTrouble(Plain(c, m), i.op, m, Address(c, i), c.gpr[i.rt]);
    }
  }

  lemma RaiseIsTrouble(plain: Effect, op: Op, m: Memory, a: Word, t: Word)
    requires m.Valid() && plain.Effect? && StoreUnaligned(plain, op, m, a, t).Raise?
    ensures StoreUnaligned(plain, op, m, a, t).exception != NoException
  {
    hide And, Fetched, Stored, SwlMerge, SwrMerge;
  }

  /** Adding three to the offset adds three to the address. */
  lemma OffsetByThree(s: Word, x: Word)
    ensures Wrap(s + Wrap(x + 3)) == At(Wrap(s + x), 3)
  {
    WrapNear(x + 3);
    WrapNear(s + x);
    WrapNear(s + Wrap(x + 3));
    WrapNear(Wrap(s + x) + 3);
    hide Wrap;
  }

  /** The second instruction of a pair: the same registers, three bytes further on. */
  function Second(i: Instruction, op: Op): Instruction {
    i.(op := op, extra := Wrap(i.extra + 3))
  }

  /** The memory that the second instruction of a pair finds: the first's, with page table bits set by the fetch. */
  predicate FetchedAfter(r: Result, m': Memory) {
    m'.Valid() && SameMap(r.mem, m') && m'.main == r.mem.main
  }

  /** LWR rt, x(rs) and then LWL rt, x+3(rs), the second merging into the pending load of the first: the load that is
      then pending for rt has the four bytes that the program sees from address rs + x on. */
  lemma LoadPair(c: Cpu, i: Instruction, m: Memory, r: Result, m': Memory, r': Result, k: nat)
    requires Good(c) && m.Valid() && !m.isTlb && i.op == LWR && (c.loadReg == 0 || c.loadReg != i.rs) && k < 4
    requires r == Do(c, i, m) && Ok(r) && FetchedAfter(r, m')
    requires r' == Do(r.cpu, Second(i, LWL), m') && Ok(r')
    ensures r'.cpu.loadReg == i.rt
    ensures Mapped(m, At(Address(c, i), k)) && ByteOf(r'.cpu.loadValue, k) == Seen(m, At(Address(c, i), k))
  {
    hide Do, Fetched, Seen, Mapped, ByteOf, LwrMerge, LwlMerge, At, FirstWord, Wrap, SameMap;
    LoadHalf(c, i, m, r);
    assert r.cpu.gpr[i.rs] == c.gpr[i.rs];
    LoadHalf(r.cpu, Second(i, LWL), m', r');
    OffsetByThree(c.gpr[i.rs], i.extra);
    var a := Address(c, i);
    assert Address(r.cpu, Second(i, LWL)) == At(a, 3);
    ReadSeesBytes(m, FirstWord(a), 4);
    SameMapTransitive(m, r.mem, m');
    PairLoads(m, m', a, OperandsOf(c, i).merge, k);
  }

  /** SWR rt, x(rs) and then SWL rt, x+3(rs): exactly the four bytes from address rs + x on change, to the bytes of rt. */
  lemma StorePair(c: Cpu, i: Instruction, m: Memory, r: Result, m': Memory, r': Result, v: nat)
    requires Good(c) && Injective(m) && Mapped(m, v) && i.op == SWR
    requires c.loadReg == 0 || (c.loadReg != i.rs && c.loadReg != i.rt)
    requires r == Do(c, i, m) && Ok(r) && FetchedAfter(r, m')
    requires r' == Do(r.cpu, Second(i, SWL), m') && Ok(r')
    ensures Injective(r'.mem) && SameMap(m, r'.mem) && Mapped(r'.mem, v)
    ensures forall k :: 0 <= k < 4 && v == At(Address(c, i), k) ==> Seen(r'.mem, v) == ByteOf(c.gpr[i.rt], k)
    ensures (forall k :: 0 <= k < 4 ==> v != At(Address(c, i), k)) ==> Seen(r'.mem, v) == Seen(m, v)
  {
    hide Do, Execute, Fetched, StoreUnaligned, Seen, Mapped, ByteOf, At, Wrap, SameMap, Injective, Plain;
    InjectiveValid(m);
    StoreHalf(c, i, m, r);
    assert r.cpu.gpr[i.rs] == c.gpr[i.rs] && r.cpu.gpr[i.rt] == c.gpr[i.rt];
    RegisterZeroDone(c, i, m);
    StoreHalf(r.cpu, Second(i, SWL), m', r');
    OffsetByThree(c.gpr[i.rs], i.extra);
    assert Address(r.cpu, Second(i, SWL)) == At(Address(c, i), 3);
    PairStored(Plain(c, m), Plain(r.cpu, m'), m, m', Address(c, i), c.gpr[i.rt], v);
  }

  lemma RegisterZeroDone(c: Cpu, i: Instruction, m: Memory)
    requires c.Valid() && m.Valid()
    ensures Good(Do(c, i, m).cpu)
  {
    hide Execute;
  }

  /** What SWR and SWL store, LWR and LWL at the same address load, whatever instructions that do not store come between. */
  lemma StoreThenLoad(
    c: Cpu, i: Instruction, m: Memory, r: Result, m': Memory, r': Result,
    d: Cpu, j: Instruction, n: Memory, s: Result, n': Memory, s': Result)
    requires Good(c) && Injective(m) && i.op == SWR && (c.loadReg == 0 || (c.loadReg != i.rs && c.loadReg != i.rt))
    requires r == Do(c, i, m) && Ok(r) && FetchedAfter(r, m')
    requires r' == Do(r.cpu, Second(i, SWL), m') && Ok(r') && FetchedAfter(r', n)
    requires Good(d) && j.op == LWR && (d.loadReg == 0 || d.loadReg != j.rs) && Address(d, j) == Address(c, i)
    requires s == Do(d, j, n) && Ok(s) && FetchedAfter(s, n')
    requires s' == Do(s.cpu, Second(j, LWL), n') && Ok(s')
    ensures s'.cpu.loadReg == j.rt && s'.cpu.loadValue == c.gpr[i.rt]
  {
    hide Do, Ok, Second, Seen, Mapped, ByteOf, At, SameMap, Injective, Address;
    InjectiveValid(m);
    var a, t, w := Address(c, i), c.gpr[i.rt], s'.cpu.loadValue;
    forall k | 0 <= k < 4 ensures ByteOf(w, k) == ByteOf(t, k) && s'.cpu.loadReg == j.rt {
      var v := At(a, k);
      PairMemory(c, i, m, r, m', r', n);
      LoadPair(d, j, n, s, n', s', k);
      SameSeen(r'.mem, n, v);
      SameMapped(m, r'.mem, v);
      StorePair(c, i, m, r, m', r', v);
    }
    assert ByteOf(w, 0) == ByteOf(t, 0);
    SameBytes(w, t);
  }

  lemma SameMapped(m: Memory, m': Memory, v: nat)
    requires SameMap(m, m')
    ensures Mapped(m, v) == Mapped(m', v)
  {
    var i := v / PAGE_SIZE;
    if i < |m.entries| {
      assert m'.entries[i].(use := false, dirty := false) == m.entries[i].(use := false, dirty := false);
    }
  }

  lemma StoredSameMap(m: Memory, addr: Word, value: Word)
    requires m.Valid()
    ensures SameMap(m, Stored(m, addr, 4, value).mem)
  {
    hide Store;
  }

  lemma FetchedSameMap(m: Memory, addr: Word)
    requires m.Valid()
    ensures SameMap(m, Fetched(m, addr, 4).mem)
  {
    hide Load;
  }

  lemma HalfKeepsMap(plain: Effect, op: Op, m: Memory, a: Word, t: Word)
    requires m.Valid() && plain.Effect?
    ensures SameMap(m, StoreUnaligned(plain, op, m, a, t).mem)
  {
    hide And, Fetched, Stored, SwlMerge, SwrMerge, SameMap;
    LowMasks(a);
    var x := FirstWord(a);
    FetchedSameMap(m, x);
    var r := Fetched(m, x, 4);
    var value := if op == SWL then SwlMerge(a % 4, r.value, t) else SwrMerge(a % 4, r.value, t);
    StoredSameMap(r.mem, x, value);
    SameMapTransitive(m, r.mem, Stored(r.mem, x, 4, value).mem);
  }

  /** The pair of stores leaves the map alone. */
  lemma PairMemory(c: Cpu, i: Instruction, m: Memory, r: Result, m': Memory, r': Result, n: Memory)
    requires Good(c) && Injective(m) && i.op == SWR
    requires r == Do(c, i, m) && Ok(r) && FetchedAfter(r, m')
    requires r' == Do(r.cpu, Second(i, SWL), m') && Ok(r') && FetchedAfter(r', n)
    ensures SameMap(m, r'.mem) && r'.mem.Valid() && !n.isTlb
  {
    hide Do, StoreUnaligned, SameMap, Injective;
    InjectiveValid(m);
    StoreHalf(c, i, m, r);
    RegisterZeroDone(c, i, m);
    StoreHalf(r.cpu, Second(i, SWL), m', r');
    HalfKeepsMap(Plain(c, m), SWR, m, Address(c, i), c.gpr[i.rt]);
    var d := r.cpu;
    HalfKeepsMap(Plain(d, m'), SWL, m', Address(d, Second(i, SWL)), d.gpr[i.rt]);
    SameMapTransitive(m, r.mem, m');
    SameMapTransitive(m, m', r'.mem);
    SameMapTransitive(m, r'.mem, n);
    SameTable(m, r'.mem);
    SameTable(m, n);
  }
}
