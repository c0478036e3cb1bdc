/** Bitmaps packed into words (lib/bitmap.cc): a finite set of numbers. */
module Bitmaps {
  import opened Bits
  import opened Multiplier

  const BITS_IN_WORD := 32

  /** `words[w] |= 1 << bit`. */
  function SetBit(word: Word, bit: nat): (r: Word)
    requires bit < BITS_IN_WORD
    ensures forall i: nat :: Bit(r, i) <==> Bit(word, i) || i == bit
  {
    Pow2Width();
    Pow2Grows(bit + 1, 32);
    OrBound(word, Pow2(bit), 32);
    assert forall i: nat :: Bit(Or(word, Pow2(bit)), i) <==> Bit(word, i) || i == bit by {
      forall i: nat ensures Bit(Or(word, Pow2(bit)), i) <==> Bit(word, i) || i == bit {
        OrBit(word, Pow2(bit), i);
        Pow2Bit(bit, i);
      }
    }
    Or(word, Pow2(bit))
  }

  /** `words[w] &= ~(1 << bit)`. */
  function ResetBit(word: Word, bit: nat): (r: Word)
    requires bit < BITS_IN_WORD
    ensures forall i: nat :: Bit(r, i) <==> Bit(word, i) && i != bit
  {
    Pow2Width();
    Pow2Grows(bit + 1, 32);
    var mask := W - 1 - Pow2(bit);
    assert forall i: nat :: Bit(And(word, mask), i) <==> Bit(word, i) && i != bit by {
      forall i: nat ensures Bit(And(word, mask), i) <==> Bit(word, i) && i != bit {
        AndBit(word, mask, i);
        if i < 32 {
          ComplementBit(Pow2(bit), 32, i);
          Pow2Bit(bit, i);
        } else {
          HighBit(word, 32, i);
        }
      }
    }
    And(word, mask)
  }

  /** `words[w] & (1 << bit)`. */
  lemma {:induction false} TestBit(word: nat, bit: nat)
    ensures And(word, Pow2(bit)) == if Bit(word, bit) then Pow2(bit) else 0
  {
    if word == 0 {
      ZeroBit(bit);
    } else if bit > 0 {
      TestBit(word / 2, bit - 1);
    }
  }

  /** The numbers below `n` whose bits are set. */
  ghost function SetOf(words: seq<Word>, n: nat): set<nat>
    requires n <= BITS_IN_WORD * |words|
  {
    set i: nat | i < n && InWords(words, i)
  }

  predicate InWords(words: seq<Word>, i: nat) {
    i / BITS_IN_WORD < |words| && Bit(words[i / BITS_IN_WORD], i % BITS_IN_WORD)
  }

  /** The numbers below `n` that are not in the set. */
  ghost function Free(marked: set<nat>, n: nat): set<nat> {
    set i: nat | i < n && i !in marked
  }

  /** Numbers have the same bit exactly if they are the same. */
  lemma SameBitSameNumber(i: nat, j: nat)
    ensures i / BITS_IN_WORD == j / BITS_IN_WORD && i % BITS_IN_WORD == j % BITS_IN_WORD <==> i == j
  {
  }

  lemma FreeGrows(marked: set<nat>, n: nat)
    ensures |Free(marked, n + 1)| == |Free(marked, n)| + if n in marked then 0 else 1
  {
    if n in marked {
      assert Free(marked, n + 1) == Free(marked, n);
    } else {
      assert Free(marked, n + 1) == Free(marked, n) + {n};
    }
  }

  class Bitmap {
    const numBits: nat
    const words: array<Word>

    ghost predicate Valid() {
      numBits > 0 && words.Length == (numBits + BITS_IN_WORD - 1) / BITS_IN_WORD
    }

    ghost function Marked(): (s: set<nat>)
      requires Valid()
      reads words
      ensures forall i :: i in s ==> i < numBits
    {
      SetOf(words[..], numBits)
    }

    constructor (numItems: nat)
      requires numItems > 0
      ensures Valid() && numBits == numItems && Marked() == {} && fresh(words)
    {
      numBits := numItems;
      words := new Word[(numItems + BITS_IN_WORD - 1) / BITS_IN_WORD](i => 0);
      new;
      forall i: nat | i < numBits ensures !InWords(words[..], i) {
        ZeroBit(i % BITS_IN_WORD);
      }
    }

    method Mark(which: nat)
      requires Valid() && which < numBits
      modifies words
      ensures Marked() == old(Marked()) + {which}
    {
      ghost var was := words[..];
      var w := which / BITS_IN_WORD;
      words[w] := SetBit(words[w], which % BITS_IN_WORD);
      forall i: nat | i < numBits ensures InWords(words[..], i) <==> InWords(was, i) || i == which {
        SameBitSameNumber(i, which);
      }
    }

    method Clear(which: nat)
      requires Valid() && which < numBits
      modifies words
      ensures Marked() == old(Marked()) - {which}
    {
      ghost var was := words[..];
      var w := which / BITS_IN_WORD;
      words[w] := ResetBit(words[w], which % BITS_IN_WORD);
      forall i: nat | i < numBits ensures InWords(words[..], i) <==> InWords(was, i) && i != which {
        SameBitSameNumber(i, which);
      }
    }

    method Test(which: nat) returns (marked: bool)
      requires Valid() && which < numBits
      ensures marked <==> which in Marked()
    {
      TestBit(words[which / BITS_IN_WORD], which % BITS_IN_WORD);
      marked := And(words[which / BITS_IN_WORD], Pow2(which % BITS_IN_WORD)) != 0;
      assert marked <==> InWords(words[..], which);
    }

    /** The first clear bit, now marked, or -1 if there is none. */
    method FindAndSet() returns (r: int)
      requires Valid()
      modifies words
      ensures r == FirstFree(old(Marked()), numBits)
      ensures Marked() == if r == -1 then old(Marked()) else old(Marked()) + {r}
    {
      for i := 0 to numBits
        invariant words[..] == old(words[..])
        invariant forall j: nat :: j < i ==> j in Marked()
      {
        var marked := Test(i);
        if !marked {
          FirstFreeIs(Marked(), numBits, i);
          Mark(i);
          return i;
        }
      }
      assert Free(Marked(), numBits) == {};
      return -1;
    }

    method NumClear() returns (count: nat)
      requires Valid()
      ensures count == |Free(Marked(), numBits)|
    {
      count := 0;
      ghost var m := Marked();
      for i := 0 to numBits
        invariant count == |Free(m, i)|
      {
        FreeGrows(m, i);
        var marked := Test(i);
        if !marked {
          count := count + 1;
        }
      }
    }
  }

  /** The least number below `n` that is not in the set, or -1. */
  ghost function FirstFree(marked: set<nat>, n: nat): (r: int)
    ensures r == -1 <==> Free(marked, n) == {}
    ensures r != -1 ==> r in Free(marked, n) && forall j: nat :: j < r ==> j in marked
  {
    if n == 0 then -1 else
      var r := FirstFree(marked, n - 1);
      if r != -1 then r
      else if n - 1 in marked then
        assert forall i :: i in Free(marked, n) ==> i in Free(marked, n - 1);
        -1
      else
        assert n - 1 in Free(marked, n);
        assert forall j: nat :: j < n - 1 && j !in marked ==> j in Free(marked, n - 1);
        n - 1
  }

  lemma FirstFreeIs(marked: set<nat>, n: nat, i: nat)
    requires i < n && i !in marked && forall j: nat :: j < i ==> j in marked
    ensures FirstFree(marked, n) == i
  {
    assert i in Free(marked, n);
  }
}
