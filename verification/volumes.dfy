/**
 What a run of allocations and deallocations on one free map (filesys/filehdr.cc) comes to in numbers, and which of the
 clear sectors it takes.
 */
module Volumes {
  import opened Common
  import opened Bits
  import opened Bitmaps
  import opened FileHeaders

  // ---------------------------------------------------------------- the lowest clear sectors, in order

  /** What is marked in addition are the lowest of the clear sectors. */
  ghost predicate Lowest(marked: set<nat>, marked': set<nat>) {
    marked <= marked' && forall x: nat, y :: y in marked' && y !in marked && x < y ==> x in marked'
  }

  predicate Ascending(s: seq<nat>) {
    forall i, j :: 0 <= i < j < |s| ==> s[i] < s[j]
  }

  /** All of `s` is below all of `t`. */
  predicate Below(s: seq<nat>, t: seq<nat>) {
    forall x, y :: x in s && y in t ==> x < y
  }

  lemma LowestAgain(a: set<nat>, b: set<nat>, c: set<nat>)
    requires Lowest(a, b) && Lowest(b, c)
    ensures Lowest(a, c)
  {
  }

  lemma FirstIsLowest(marked: set<nat>, n: nat)
    requires FirstFree(marked, n) != -1
    ensures FirstFree(marked, n) >= 0 && Lowest(marked, marked + {FirstFree(marked, n) as nat})
  {
  }

  lemma AscendingConcat(s: seq<nat>, t: seq<nat>)
    requires Ascending(s) && Ascending(t) && Below(s, t)
    ensures Ascending(s + t)
  {
    forall i, j | 0 <= i < j < |s + t| ensures (s + t)[i] < (s + t)[j] {
      if i < |s| <= j {
        assert (s + t)[i] in s && (s + t)[j] in t;
      }
    }
  }

  lemma {:induction false} GrabbedLowest(marked: set<nat>, n: nat, k: nat)
    requires k <= |Free(marked, n)|
    ensures Lowest(marked, marked + Elements(Grabbed(marked, n, k))) && Ascending(Grabbed(marked, n, k))
    decreases k
  {
    hide Free, FirstFree;
    if k == 0 {
      ElementsCons(0, []);
    } else {
      hide Lowest, Ascending, Below;
      var x := FirstFree(marked, n);
      FirstFreeUsable(marked, n);
      FreeWithout(marked, n, x);
      FirstIsLowest(marked, n);
      GrabbedFresh(marked + {x}, n, k - 1);
      GrabbedLowest(marked + {x}, n, k - 1);
      var rest := Grabbed(marked + {x}, n, k - 1);
      ElementsCons(x, rest);
      hide Elements;
      assert marked + Elements([x] + rest) == marked + {x} + Elements(rest);
      LowestAgain(marked, marked + {x}, marked + Elements([x] + rest));
      LaterAbove(marked, marked + {x}, [x], rest);
      OneAscends(x);
      AscendingConcat([x], rest);
    }
  }

  lemma OneAscends(x: nat)
    ensures Ascending([x])
  {
  }

  /** What was clear after the lowest were marked is above them. */
  lemma LaterAbove(marked: set<nat>, marked': set<nat>, s: seq<nat>, t: seq<nat>)
    requires Lowest(marked, marked')
    requires forall x :: x in s ==> x in marked' && x !in marked
    requires forall y :: y in Elements(t) ==> y !in marked'
    ensures Below(s, t)
  {
    forall x, y | x in s && y in t ensures x < y {
      assert y in Elements(t);
    }
  }

  /** The first header of an allocation: its data sectors and its link are the lowest clear sectors. */
  lemma FirstHeaderLowest(marked: set<nat>, n: nat, k: nat)
    requires k <= |Free(marked, n)|
    ensures var data := Grabbed(marked, n, k);
      var marked' := marked + Elements(data);
      var link := FirstFree(marked', n);
      && Ascending(data) && Lowest(marked, marked') && (forall x :: x in data ==> x in marked' && x !in marked)
      && (link != -1 ==> link >= 0 && link !in marked' && Lowest(marked, marked' + {link as nat}))
  {
    hide Lowest, Ascending, Free, FirstFree;
    GrabbedFresh(marked, n, k);
    GrabbedLowest(marked, n, k);
    var data := Grabbed(marked, n, k);
    assert forall x :: x in data ==> x in Elements(data);
    hide Elements, Grabbed;
    var marked' := marked + Elements(data);
    FirstFreeUsable(marked', n);
    if FirstFree(marked', n) != -1 {
      FirstIsLowest(marked', n);
      LowestAgain(marked, marked', marked' + {FirstFree(marked', n) as nat});
    }
  }

  /** Allocate takes the lowest of the clear sectors, and of these a file has its data, and its chain, in ascending order. */
  lemma {:induction false} AllocatesLowest(direct: Direct, marked: set<nat>, n: nat, fileSize: int)
    ensures var o := Allocated(direct, marked, n, fileSize);
      Lowest(marked, o.marked) && (o.header.Some? ==> Ascending(DataOf(o.header.value)) && Ascending(LinksOf(o.header.value)))
    decreases fileSize
  {
    hide Grabbed, Free, FirstFree, Elements, FirstSectors, Lowest, Below;
    Itself(marked);
    var k := FirstSectors(direct, fileSize);
    if |Free(marked, n)| >= k {
      FirstHeaderLowest(marked, n, k);
      var data := Grabbed(marked, n, k);
      assert data + [] == data;
      var marked' := marked + Elements(data);
      var link := FirstFree(marked', n);
      var bytes := FirstBytes(direct, fileSize);
      if fileSize > bytes && link != -1 {
        var o := Allocated(direct, marked' + {link as nat}, n, fileSize - bytes);
        AllocatesLowest(direct, marked' + {link as nat}, n, fileSize - bytes);
        LowestAgain(marked, marked' + {link as nat}, o.marked);
        if o.header.Some? {
          OwnsNewSectors(direct, marked' + {link as nat}, n, fileSize - bytes);
          hide Allocated, Proper, Length;
          RestAbove(marked, marked' + {link as nat}, data, link, o.header.value);
        }
      }
    }
  }

  lemma Itself(marked: set<nat>)
    ensures Lowest(marked, marked)
  {
  }

  lemma RestAbove(marked: set<nat>, marked': set<nat>, data: seq<nat>, link: nat, rest: Header)
    requires Lowest(marked, marked') && Ascending(data) && Ascending(DataOf(rest)) && Ascending(LinksOf(rest))
    requires forall x :: x in data ==> x in marked' && x !in marked
    requires link in marked' && link !in marked && Owned(rest) !! marked'
    ensures Ascending(data + DataOf(rest)) && Ascending([link] + LinksOf(rest))
  {
    hide Lowest, Ascending, DataOf, LinksOf;
    assert forall y :: y in Elements(DataOf(rest)) + Elements(LinksOf(rest)) ==> y !in marked';
    LaterAbove(marked, marked', data, DataOf(rest));
    LaterAbove(marked, marked', [link], LinksOf(rest));
    OneAscends(link);
    AscendingConcat(data, DataOf(rest));
    AscendingConcat([link], LinksOf(rest));
  }

  // ---------------------------------------------------------------- the books of a volume

  /** How many sectors an Allocate marks, whether it succeeds or not, when `clear` are clear. */
  function Spent(direct: Direct, clear: nat, fileSize: int): (r: nat)
    ensures r <= clear
    decreases fileSize
  {
    var k := FirstSectors(direct, fileSize);
    if clear < k then 0
    else if fileSize <= FirstBytes(direct, fileSize) || clear == k then k
    else k + 1 + Spent(direct, clear - k - 1, fileSize - FirstBytes(direct, fileSize))
  }

  lemma {:induction false} AllocateSpends(direct: Direct, marked: set<nat>, n: nat, fileSize: int)
    ensures |Free(Allocated(direct, marked, n, fileSize).marked, n)| == |Free(marked, n)| - Spent(direct, |Free(marked, n)|, fileSize)
    decreases fileSize
  {
    hide Grabbed, Free, FirstFree, Elements, FirstSectors, Distinct;
    var k := FirstSectors(direct, fileSize);
    if |Free(marked, n)| >= k {
      GrabbedFresh(marked, n, k);
      var marked' := marked + Elements(Grabbed(marked, n, k));
      var link := FirstFree(marked', n);
      FirstFreeUsable(marked', n);
      var bytes := FirstBytes(direct, fileSize);
      if fileSize > bytes && link != -1 {
        FreeWithout(marked', n, link);
        AllocateSpends(direct, marked' + {link as nat}, n, fileSize - bytes);
      }
    }
  }

  /** A volume told in numbers: the clear sectors, the leaked ones, and the length of each live file. */
  datatype Books = Books(clear: nat, leaked: nat, lengths: map<nat, nat>)

  ghost function BooksOf(v: Volume, n: nat): Books {
    Books(|Free(v.marked, n)|, |v.leaked|, map id | id in v.files :: Length(v.files[id]))
  }

  function Sectors(direct: Direct, length: nat): nat {
    DataNeeded(length) + LinksNeeded(direct, length)
  }

  /** What a failed Allocate has marked when it gives up: as many full headers, each with its link, as there is room for, and
      if just one link is missing the sectors before it. */
  function Lost(direct: Direct, clear: nat, length: nat): nat {
    var chain := direct + 1;
    DivMod(clear, chain);
    clear / chain * chain + if clear / chain < LinksNeeded(direct, length) && clear % chain == direct then direct else 0
  }

  /** An Allocate with room takes the sectors that it needs and makes the file; without, what it has marked is leaked.
      A Deallocate gives the data sectors back and leaks the chain. */
  function Booked(direct: Direct, b: Books, op: Op): Books {
    match op
    case Allocate(id, fileSize) =>
      var length := Made(direct, fileSize);
      if b.clear >= Sectors(direct, length) then
        Books(b.clear - Sectors(direct, length), b.leaked, b.lengths[id := length])
      else
        var lost := Lost(direct, b.clear, length);
        Books(if lost <= b.clear then b.clear - lost else 0, b.leaked + lost, b.lengths)
    case Deallocate(id) =>
      if id !in b.lengths then b else
        var length := b.lengths[id];
        Books(b.clear + DataNeeded(length), b.leaked + LinksNeeded(direct, length), b.lengths - {id})
  }

  function AllBooked(direct: Direct, b: Books, ops: seq<Op>): Books
    decreases |ops|
  {
    if ops == [] then b else AllBooked(direct, Booked(direct, b, ops[0]), ops[1..])
  }

  lemma {:induction false} SpentIs(direct: Direct, clear: nat, fileSize: int)
    ensures var length := Made(direct, fileSize);
      Spent(direct, clear, fileSize) == if clear >= Sectors(direct, length) then Sectors(direct, length) else Lost(direct, clear, length)
    decreases fileSize < 0, fileSize
  {
    hide DataNeeded, LinksNeeded, FirstSectors, MaxFileSize;
    if fileSize < 0 {
      NegativeSpent(direct, clear, fileSize);
      SpentIs(direct, clear, MaxFileSize(direct));
      return;
    }
    NeedsSplit(direct, fileSize);
    FirstAtMost(direct, fileSize);
    var k := FirstSectors(direct, fileSize);
    if clear < k {
      ModUnique(clear, direct + 1, 0, clear);
    } else if fileSize > MaxFileSize(direct) {
      if clear == k {
        ModUnique(clear, direct + 1, 0, clear);
      } else {
        SpentIs(direct, clear - k - 1, fileSize - MaxFileSize(direct));
        ChainOff(direct, clear);
      }
    }
  }

  lemma NegativeSpent(direct: Direct, clear: nat, fileSize: int)
    requires fileSize < 0
    ensures Spent(direct, clear, fileSize) == Spent(direct, clear, MaxFileSize(direct))
  {
  }

  lemma FirstAtMost(direct: Direct, fileSize: int)
    ensures FirstSectors(direct, fileSize) <= direct
  {
    FullSectors(direct);
  }

  /** One chain header fewer. */
  lemma ChainOff(direct: Direct, clear: nat)
    requires clear >= direct + 1
    ensures var chain := direct + 1;
      && clear / chain == (clear - chain) / chain + 1 && clear % chain == (clear - chain) % chain
      && clear / chain * chain == (clear - chain) / chain * chain + chain
  {
    var chain := direct + 1;
    var q, r := (clear - chain) / chain, (clear - chain) % chain;
    DivMod(clear - chain, chain);
    assert clear == (q + 1) * chain + r;
    ModUnique(clear, chain, q + 1, r);
  }

  /** A file has the sectors that its length needs. */
  predicate Sized(direct: Direct, h: Header) {
    |DataOf(h)| == DataNeeded(Length(h)) && |LinksOf(h)| == LinksNeeded(direct, Length(h))
  }

  ghost predicate AllSized(direct: Direct, v: Volume) {
    forall id :: id in v.files ==> Sized(direct, v.files[id])
  }

  lemma AllocateBooks(direct: Direct, v: Volume, n: nat, reserved: set<nat>, id: nat, fileSize: int)
    requires Inv(v, n, reserved) && AllSized(direct, v)
    ensures BooksOf(Next(direct, v, n, Allocate(id, fileSize)), n) == Booked(direct, BooksOf(v, n), Allocate(id, fileSize))
    ensures AllSized(direct, Next(direct, v, n, Allocate(id, fileSize)))
  {
    hide Allocated, Lost, Spent, Sectors, Next, AllSized, BooksOf, Booked, OwnedByAll, HandsOut, FirstSectors, Free;
    AllocateSpends(direct, v.marked, n, fileSize);
    SpentIs(direct, |Free(v.marked, n)|, fileSize);
    var o := Allocated(direct, v.marked, n, fileSize);
    if o.header.Some? {
      OwnsNewSectors(direct, v.marked, n, fileSize);
      SuccessBooks(direct, v, n, id, fileSize);
    } else {
      FailureMarks(direct, v.marked, n, fileSize);
      NewlyMarked(v.marked, o.marked, n);
      FailureBooks(direct, v, n, id, fileSize);
    }
  }

  lemma SuccessBooks(direct: Direct, v: Volume, n: nat, id: nat, fileSize: int)
    requires AllSized(direct, v)
    requires var o := Allocated(direct, v.marked, n, fileSize);
      && o.header.Some? && HandsOut(direct, v.marked, n, Made(direct, fileSize), o)
      && |Free(o.marked, n)| == |Free(v.marked, n)| - Spent(direct, |Free(v.marked, n)|, fileSize)
    ensures BooksOf(Next(direct, v, n, Allocate(id, fileSize)), n) == Booked(direct, BooksOf(v, n), Allocate(id, fileSize))
    ensures AllSized(direct, Next(direct, v, n, Allocate(id, fileSize)))
  {
    hide Allocated, Proper, Owned, Free, Lost, Spent, Made, DataNeeded, LinksNeeded, DataOf, LinksOf, Length;
    SucceedsIffRoom(direct, v.marked, n, fileSize);
    SpentIs(direct, |Free(v.marked, n)|, fileSize);
  }

  lemma FailureBooks(direct: Direct, v: Volume, n: nat, id: nat, fileSize: int)
    requires AllSized(direct, v) && v.leaked <= v.marked
    requires var o := Allocated(direct, v.marked, n, fileSize);
      && o.header == None && |o.marked - v.marked| == |Free(v.marked, n)| - |Free(o.marked, n)|
      && |Free(o.marked, n)| == |Free(v.marked, n)| - Spent(direct, |Free(v.marked, n)|, fileSize)
    ensures BooksOf(Next(direct, v, n, Allocate(id, fileSize)), n) == Booked(direct, BooksOf(v, n), Allocate(id, fileSize))
    ensures AllSized(direct, Next(direct, v, n, Allocate(id, fileSize)))
  {
    hide Allocated, Free, Lost, Spent, Made, DataNeeded, LinksNeeded, DataOf, LinksOf, Length;
    SucceedsIffRoom(direct, v.marked, n, fileSize);
    SpentIs(direct, |Free(v.marked, n)|, fileSize);
    assert v.leaked !! Allocated(direct, v.marked, n, fileSize).marked - v.marked;
  }

  lemma NewlyMarked(marked: set<nat>, marked': set<nat>, n: nat)
    requires marked <= marked' && forall x :: x in marked' - marked ==> x < n
    ensures |marked' - marked| == |Free(marked, n)| - |Free(marked', n)|
  {
    assert Free(marked, n) == Free(marked', n) + (marked' - marked);
  }

  lemma DeallocateBooks(direct: Direct, v: Volume, n: nat, reserved: set<nat>, id: nat)
    requires Inv(v, n, reserved) && AllSized(direct, v) && id in v.files
    ensures BooksOf(Next(direct, v, n, Deallocate(id)), n) == Booked(direct, BooksOf(v, n), Deallocate(id))
    ensures AllSized(direct, Next(direct, v, n, Deallocate(id)))
  {
    hide Deallocated, Elements, Free, DataNeeded, LinksNeeded, OwnedByAll, DataOf, LinksOf, Length, Distinct;
    var h := v.files[id];
    assert Holds(v, reserved, id) && Sized(direct, h);
    DeallocatedIs(v.marked, h);
    DistinctCount(DataOf(h));
    DistinctCount(LinksOf(h));
    NewlyMarked(v.marked - Elements(DataOf(h)), v.marked, n);
    assert v.marked - (v.marked - Elements(DataOf(h))) == Elements(DataOf(h));
    assert v.leaked !! Elements(LinksOf(h));
  }

  /** Over any run the clear sectors, the leaked sectors and the lengths of the live files are what the books say. */
  lemma {:induction false} BooksBalance(direct: Direct, v: Volume, n: nat, reserved: set<nat>, ops: seq<Op>)
    requires Inv(v, n, reserved) && AllSized(direct, v) && Legal(direct, v, n, ops)
    ensures BooksOf(After(direct, v, n, ops), n) == AllBooked(direct, BooksOf(v, n), ops)
    decreases |ops|
  {
    if ops != [] {
      hide Inv, Next, Booked, AllSized, BooksOf;
      if ops[0].Allocate? {
        AllocateKeeps(direct, v, n, reserved, ops[0].id, ops[0].fileSize);
        AllocateBooks(direct, v, n, reserved, ops[0].id, ops[0].fileSize);
      } else {
        DeallocateKeeps(direct, v, n, reserved, ops[0].id);
        DeallocateBooks(direct, v, n, reserved, ops[0].id);
      }
      BooksBalance(direct, Next(direct, v, n, ops[0]), n, reserved, ops[1..]);
    }
  }
}
