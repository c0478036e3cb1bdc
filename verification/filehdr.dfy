/**
 File headers (filesys/filehdr.cc of HW4): tables of data sectors, chained through sectors of their own when a file is
 larger than one table can hold.  The size of a table is a parameter: 29 sectors in HW4, 30 in HW1, whose files have one
 header and no chain.
 */
module FileHeaders {
  import opened Common
  import opened Bitmaps
  import opened Bits
  import Disks

  /** NumDirect. */
  type Direct = d: nat | d > 0 witness 1

  const HW1_DIRECT: Direct := 30
  const HW4_DIRECT: Direct := 29

  /** MaxFileSize: what one header can hold. */
  function MaxFileSize(direct: Direct): (r: nat)
    ensures r > 0 && r == direct * 128
  {
    direct * Disks.SECTOR_SIZE
  }

  /** One header and the rest of its chain; `link` is the sector of the next header, or -1. */
  datatype Header = Header(numBytes: nat, sectors: seq<nat>, link: int, next: Option<Header>)

  function DivRoundUp(n: nat, s: nat): nat
    requires s > 0
  {
    n / s + if n % s > 0 then 1 else 0
  }

  function Elements(s: seq<nat>): (r: set<nat>) {
    set x | x in s
  }

  /** All data sectors of a file, in the order of its bytes. */
  function DataOf(h: Header): seq<nat> {
    h.sectors + if h.next.Some? then DataOf(h.next.value) else []
  }

  /** The sectors that hold the second and later headers. */
  function LinksOf(h: Header): seq<nat> {
    if h.next.Some? && h.link >= 0 then [h.link] + LinksOf(h.next.value) else []
  }

  /** OpenFile::Length: the sum over the chain. */
  function Length(h: Header): nat {
    h.numBytes + if h.next.Some? then Length(h.next.value) else 0
  }

  // ---------------------------------------------------------------- allocation

  lemma FreeWithout(marked: set<nat>, n: nat, x: nat)
    requires x in Free(marked, n)
    ensures |Free(marked + {x}, n)| == |Free(marked, n)| - 1
  {
    assert Free(marked + {x}, n) == Free(marked, n) - {x};
  }

  /** The sectors that `k` calls of FindAndSet deliver. */
  ghost function Grabbed(marked: set<nat>, n: nat, k: nat): (r: seq<nat>)
    requires k <= |Free(marked, n)|
    ensures |r| == k
    decreases k
  {
    if k == 0 then [] else
      var x := FirstFree(marked, n);
      FreeWithout(marked, n, x);
      [x] + Grabbed(marked + {x}, n, k - 1)
  }

  lemma ElementsCons(x: nat, s: seq<nat>)
    ensures Elements([x] + s) == {x} + Elements(s)
    ensures Elements([]) == {}
  {
  }

  /** They are different, were clear, and are now marked. */
  lemma {:induction false} GrabbedFresh(marked: set<nat>, n: nat, k: nat)
    requires k <= |Free(marked, n)|
    ensures var r := Grabbed(marked, n, k);
      && Distinct(r) && Elements(r) !! marked && (forall x :: x in Elements(r) ==> x < n)
      && |Free(marked + Elements(r), n)| == |Free(marked, n)| - k
    decreases k
  {
    hide Free, FirstFree;
    if k == 0 {
      ElementsCons(0, []);
      assert marked + {} == marked;
    } else {
      var x := FirstFree(marked, n);
      FirstFreeUsable(marked, n);
      FreeWithout(marked, n, x);
      GrabbedFresh(marked + {x}, n, k - 1);
      var rest := Grabbed(marked + {x}, n, k - 1);
      ElementsCons(x, rest);
      assert x !in rest by { assert x !in Elements(rest); }
      assert marked + Elements([x] + rest) == marked + {x} + Elements(rest);
      hide Elements;
    }
  }

  lemma FirstFreeUsable(marked: set<nat>, n: nat)
    ensures var x := FirstFree(marked, n);
      if x == -1 then |Free(marked, n)| == 0 else 0 <= x < n && x !in marked && x in Free(marked, n)
  {
  }

  /** How Allocate ends: the bitmap it leaves, and the header if it succeeds. */
  datatype Outcome = Outcome(marked: set<nat>, header: Option<Header>)

  /** The bytes that the first header takes.  MaxFileSize is unsigned, so that a negative length compares as larger. */
  function FirstBytes(direct: Direct, fileSize: int): nat {
    if 0 <= fileSize < MaxFileSize(direct) then fileSize else MaxFileSize(direct)
  }

  /** Data sectors in the first header. */
  function FirstSectors(direct: Direct, fileSize: int): nat {
    DivRoundUp(FirstBytes(direct, fileSize), Disks.SECTOR_SIZE)
  }

  ghost function Allocated(direct: Direct, marked: set<nat>, n: nat, fileSize: int): Outcome
    decreases fileSize
  {
    var bytes := FirstBytes(direct, fileSize);
    var k := FirstSectors(direct, fileSize);
    if |Free(marked, n)| < k then Outcome(marked, None) else
      var data := Grabbed(marked, n, k);
      var marked' := marked + Elements(data);
      if fileSize <= bytes then Outcome(marked', Some(Header(bytes, data, -1, None)))
      else if FirstFree(marked', n) == -1 then Outcome(marked', None)
      else
        var link := FirstFree(marked', n);
        var rest := Allocated(direct, marked' + {link}, n, fileSize - bytes);
        Outcome(rest.marked, if rest.header == None then None else Some(Header(bytes, data, link, rest.header)))
  }

  /** The length of the file that Allocate makes: one full header when a negative length is asked for. */
  function Made(direct: Direct, fileSize: int): nat {
    if fileSize < 0 then MaxFileSize(direct) else fileSize
  }

  function DataNeeded(fileSize: nat): nat {
    DivRoundUp(fileSize, Disks.SECTOR_SIZE)
  }

  /** One more header for each further MaxFileSize bytes. */
  function LinksNeeded(direct: Direct, fileSize: nat): nat {
    if fileSize == 0 then 0 else
      DivNat(fileSize - 1, MaxFileSize(direct));
      (fileSize - 1) / MaxFileSize(direct)
  }

  lemma DivNat(x: nat, n: nat)
    requires n > 0
    ensures x / n >= 0
  {
  }

  lemma NegativeLength(direct: Direct, marked: set<nat>, n: nat, fileSize: int)
    requires fileSize < 0
    ensures Allocated(direct, marked, n, fileSize) == Allocated(direct, marked, n, MaxFileSize(direct))
  {
  }

  lemma Div128(x: nat, k: nat)
    ensures (x + k * 128) / 128 == x / 128 + k && (x + k * 128) % 128 == x % 128
  {
  }

  lemma LinksSplit(max: nat, x: nat)
    requires 0 < max <= x
    ensures x / max == 1 + (x - max) / max && (x < 2 * max ==> (x - max) / max == 0)
  {
    ModUnique(x, max, 1 + (x - max) / max, (x - max) % max);
  }

  lemma NeedsSplit(direct: Direct, fileSize: nat)
    ensures fileSize > MaxFileSize(direct) ==>
      && FirstSectors(direct, fileSize) == direct
      && DataNeeded(fileSize) == direct + DataNeeded(fileSize - MaxFileSize(direct))
      && LinksNeeded(direct, fileSize) == 1 + LinksNeeded(direct, fileSize - MaxFileSize(direct))
    ensures fileSize <= MaxFileSize(direct) ==>
      FirstSectors(direct, fileSize) == DataNeeded(fileSize) && LinksNeeded(direct, fileSize) == 0
  {
    var max := MaxFileSize(direct);
    Div128(0, direct);
    if fileSize > max {
      Div128(fileSize - max, direct);
      LinksSplit(max, fileSize - 1);
    } else if fileSize > 0 {
      ModUnique(fileSize - 1, max, 0, fileSize - 1);
    }
  }

  /** Allocate succeeds exactly if there are enough clear bits for the data and for the headers of the chain. */
  lemma {:induction false} SucceedsIffRoom(direct: Direct, marked: set<nat>, n: nat, fileSize: int)
    ensures Allocated(direct, marked, n, fileSize).header.Some? <==>
      |Free(marked, n)| >= DataNeeded(Made(direct, fileSize)) + LinksNeeded(direct, Made(direct, fileSize))
    decreases fileSize < 0, fileSize
  {
    if fileSize < 0 {
      NegativeLength(direct, marked, n, fileSize);
      SucceedsIffRoom(direct, marked, n, MaxFileSize(direct));
      return;
    }
    hide Grabbed, Free, FirstFree, Elements, LinksNeeded, DataNeeded, FirstSectors, Distinct;
    NeedsSplit(direct, fileSize);
    var k := FirstSectors(direct, fileSize);
    if fileSize > MaxFileSize(direct) && |Free(marked, n)| >= k {
      GrabbedFresh(marked, n, k);
      var marked' := marked + Elements(Grabbed(marked, n, k));
      var link := FirstFree(marked', n);
      FirstFreeUsable(marked', n);
      if link != -1 {
        FreeWithout(marked', n, link);
        SucceedsIffRoom(direct, marked' + {link}, n, fileSize - MaxFileSize(direct));
      }
    }
  }

  /** The sectors of a file: all different, and shared between data and chain by none. */
  ghost predicate Proper(h: Header) {
    Distinct(DataOf(h)) && Distinct(LinksOf(h)) && Elements(DataOf(h)) !! Elements(LinksOf(h))
  }

  function Owned(h: Header): set<nat> {
    Elements(DataOf(h)) + Elements(LinksOf(h))
  }

  lemma DistinctConcat(s: seq<nat>, t: seq<nat>)
    requires Distinct(s) && Distinct(t) && Elements(s) !! Elements(t)
    ensures Distinct(s + t) && Elements(s + t) == Elements(s) + Elements(t)
  {
    forall i, j | 0 <= i < j < |s + t| ensures (s + t)[i] != (s + t)[j] {
      if i < |s| <= j {
        assert (s + t)[i] in Elements(s) && (s + t)[j] in Elements(t);
      }
    }
  }

  /** A header in front of a chain that owns other sectors. */
  lemma ChainOwns(h: Header)
    requires h.next.Some? && h.link >= 0 && Proper(h.next.value) && Distinct(h.sectors)
    requires Elements(h.sectors) !! Owned(h.next.value) && h.link !in Elements(h.sectors) && h.link !in Owned(h.next.value)
    ensures Proper(h) && Owned(h) == Elements(h.sectors) + {h.link as nat} + Owned(h.next.value)
    ensures |DataOf(h)| == |h.sectors| + |DataOf(h.next.value)| && |LinksOf(h)| == 1 + |LinksOf(h.next.value)|
  {
    var rest := h.next.value;
    DistinctConcat(h.sectors, DataOf(rest));
    ElementsCons(h.link, []);
    assert [h.link as nat] + [] == [h.link as nat];
    DistinctConcat([h.link as nat], LinksOf(rest));
    hide Elements, Distinct;
  }

  lemma LastOwns(h: Header)
    requires h.next == None && Distinct(h.sectors)
    ensures Proper(h) && Owned(h) == Elements(h.sectors) && DataOf(h) == h.sectors && LinksOf(h) == []
  {
    ElementsCons(0, []);
    assert h.sectors + [] == h.sectors;
    assert Elements(h.sectors) + {} == Elements(h.sectors);
  }

  /** The header owns what is newly marked: sectors that were clear, each for one use, as many as the length needs. */
  ghost predicate HandsOut(direct: Direct, marked: set<nat>, n: nat, length: nat, o: Outcome)
    requires o.header.Some?
  {
    var h := o.header.value;
    && Proper(h) && Length(h) == length
    && |DataOf(h)| == DataNeeded(length) && |LinksOf(h)| == LinksNeeded(direct, length)
    && Owned(h) !! marked && (forall x :: x in Owned(h) ==> x < n)
    && o.marked == marked + Owned(h)
  }

  /** A full first header in front of what the rest of Allocate hands out. */
  lemma ChainHandsOut(direct: Direct, marked: set<nat>, n: nat, fileSize: nat)
    requires fileSize > MaxFileSize(direct) && Allocated(direct, marked, n, fileSize).header.Some?
    requires var marked' := marked + Elements(Grabbed(marked, n, FirstSectors(direct, fileSize)));
      var rest := fileSize - MaxFileSize(direct);
      var o := Allocated(direct, marked' + {FirstFree(marked', n) as nat}, n, rest);
      o.header.Some? && HandsOut(direct, marked' + {FirstFree(marked', n) as nat}, n, rest, o)
    ensures HandsOut(direct, marked, n, fileSize, Allocated(direct, marked, n, fileSize))
  {
    hide Grabbed, Free, FirstFree, Elements, LinksNeeded, DataNeeded, FirstSectors, Distinct, Proper, Owned, DataOf, LinksOf;
    var k := FirstSectors(direct, fileSize);
    var marked' := marked + Elements(Grabbed(marked, n, k));
    var h := Allocated(direct, marked, n, fileSize).header.value;
    NeedsSplit(direct, fileSize);
    GrabbedFresh(marked, n, k);
    FirstFreeUsable(marked', n);
    hide Allocated, MaxFileSize;
    ChainOwns(h);
  }

  /** What a successful Allocate hands out: sectors that were clear and are now marked, each to one use, as many as
      needed; nothing else is marked. */
  lemma {:induction false} OwnsNewSectors(direct: Direct, marked: set<nat>, n: nat, fileSize: int)
    requires Allocated(direct, marked, n, fileSize).header.Some?
    ensures HandsOut(direct, marked, n, Made(direct, fileSize), Allocated(direct, marked, n, fileSize))
    decreases fileSize < 0, fileSize
  {
    hide Grabbed, Free, FirstFree, Elements, LinksNeeded, DataNeeded, FirstSectors, Distinct, Proper, Owned, DataOf, LinksOf;
    if fileSize < 0 {
      NegativeLength(direct, marked, n, fileSize);
      OwnsNewSectors(direct, marked, n, MaxFileSize(direct));
    } else if fileSize <= MaxFileSize(direct) {
      NeedsSplit(direct, fileSize);
      GrabbedFresh(marked, n, FirstSectors(direct, fileSize));
      LastOwns(Allocated(direct, marked, n, fileSize).header.value);
    } else {
      var marked' := marked + Elements(Grabbed(marked, n, FirstSectors(direct, fileSize)));
      FirstFreeUsable(marked', n);
      OwnsNewSectors(direct, marked' + {FirstFree(marked', n) as nat}, n, fileSize - MaxFileSize(direct));
      hide HandsOut;
      ChainHandsOut(direct, marked, n, fileSize);
    }
  }

  /** A failed Allocate may leave sectors marked: it marks none exactly if already the first header's check fails. */
  lemma {:induction false} FailureMarks(direct: Direct, marked: set<nat>, n: nat, fileSize: int)
    requires Allocated(direct, marked, n, fileSize).header == None
    ensures var marked' := Allocated(direct, marked, n, fileSize).marked;
      && marked <= marked' && (forall x :: x in marked' - marked ==> x < n)
      && (marked' == marked <==> |Free(marked, n)| < FirstSectors(direct, fileSize))
    decreases fileSize < 0, fileSize
  {
    if fileSize < 0 {
      NegativeLength(direct, marked, n, fileSize);
      FailureMarks(direct, marked, n, MaxFileSize(direct));
      return;
    }
    hide Grabbed, Free, FirstFree, FirstSectors, Distinct;
    NeedsSplit(direct, fileSize);
    var k := FirstSectors(direct, fileSize);
    if |Free(marked, n)| >= k {
      GrabbedFresh(marked, n, k);
      var data := Grabbed(marked, n, k);
      var marked' := marked + Elements(data);
      assert fileSize > MaxFileSize(direct);
      assert data[0] in Elements(data);
      hide Elements;
      assert data[0] in marked' && data[0] !in marked;
      var link := FirstFree(marked', n);
      FirstFreeUsable(marked', n);
      if link != -1 {
        FailureMarks(direct, marked' + {link}, n, fileSize - MaxFileSize(direct));
        forall x | x in Allocated(direct, marked, n, fileSize).marked - marked ensures x < n {
          var rest := Allocated(direct, marked' + {link}, n, fileSize - MaxFileSize(direct)).marked;
          assert x in Elements(data) || x == link || x in rest - (marked' + {link});
        }
      }
    }
  }

  /** Allocate of HW1, whose header has no link. */
  ghost function AllocatedFlat(marked: set<nat>, n: nat, fileSize: nat): Outcome {
    var k := DivRoundUp(fileSize, Disks.SECTOR_SIZE);
    if |Free(marked, n)| < k then Outcome(marked, None) else
      var data := Grabbed(marked, n, k);
      Outcome(marked + Elements(data), Some(Header(fileSize, data, -1, None)))
  }

  /** So a file that fits one header is allocated as HW1 does it, and leaves the map alone when there is no room for it. */
  lemma SmallFile(direct: Direct, marked: set<nat>, n: nat, fileSize: int)
    requires fileSize <= MaxFileSize(direct)
    ensures var o := Allocated(direct, marked, n, fileSize);
      && o == AllocatedFlat(marked, n, Made(direct, fileSize))
      && if o.header == None then o.marked == marked else o.header.value.next == None
  {
  }

  /** The file is as long as asked for exactly if the length is not negative. */
  lemma LengthIff(direct: Direct, marked: set<nat>, n: nat, fileSize: int)
    requires Allocated(direct, marked, n, fileSize).header.Some?
    ensures Length(Allocated(direct, marked, n, fileSize).header.value) == fileSize <==> fileSize >= 0
  {
    hide Allocated, Proper, Owned, DataOf, LinksOf;
    OwnsNewSectors(direct, marked, n, fileSize);
  }

  // ---------------------------------------------------------------- deallocation

  /** Deallocate clears the data sectors down the chain; the sectors of the chain itself stay marked. */
  function Deallocated(marked: set<nat>, h: Header): set<nat> {
    var marked' := marked - Elements(h.sectors);
    if h.next.Some? then Deallocated(marked', h.next.value) else marked'
  }

  lemma {:induction false} DeallocatedIs(marked: set<nat>, h: Header)
    ensures Deallocated(marked, h) == marked - Elements(DataOf(h))
  {
    if h.next.Some? {
      DeallocatedIs(marked - Elements(h.sectors), h.next.value);
      assert Elements(DataOf(h)) == Elements(h.sectors) + Elements(DataOf(h.next.value));
    } else {
      assert h.sectors + [] == h.sectors;
    }
  }

  /** Allocating and deallocating a file leaves exactly its chain sectors marked: the map is restored exactly if the file
      fits one header. */
  lemma RestoredIffOneHeader(direct: Direct, marked: set<nat>, n: nat, fileSize: int)
    requires Allocated(direct, marked, n, fileSize).header.Some?
    ensures var o := Allocated(direct, marked, n, fileSize);
      && Deallocated(o.marked, o.header.value) == marked + Elements(LinksOf(o.header.value))
      && |Elements(LinksOf(o.header.value))| == LinksNeeded(direct, Made(direct, fileSize))
      && (Deallocated(o.marked, o.header.value) == marked <==> fileSize <= MaxFileSize(direct))
  {
    hide Allocated, Deallocated, LinksNeeded, DataNeeded, FirstSectors, Distinct, DataOf, LinksOf, Length;
    OwnsNewSectors(direct, marked, n, fileSize);
    var o := Allocated(direct, marked, n, fileSize);
    DeallocatedIs(o.marked, o.header.value);
    DistinctCount(LinksOf(o.header.value));
    LinksPositive(direct, Made(direct, fileSize));
    var links := LinksOf(o.header.value);
    assert links != [] ==> links[0] in Elements(links);
    hide Elements;
  }

  lemma LinksPositive(direct: Direct, fileSize: nat)
    ensures LinksNeeded(direct, fileSize) == 0 <==> fileSize <= MaxFileSize(direct)
  {
    NeedsSplit(direct, fileSize);
  }

  lemma {:induction false} DistinctCount(s: seq<nat>)
    requires Distinct(s)
    ensures |Elements(s)| == |s|
  {
    if s != [] {
      assert Elements(s) == {s[0]} + Elements(s[1..]);
      assert s[0] !in s[1..];
      DistinctTail(s);
      DistinctCount(s[1..]);
    }
  }

  /** The bits of a free map on which only the first `k` sectors are clear. */
  ghost function AllBut(k: nat, n: nat): set<nat> {
    Free({}, n) - Free({}, k)
  }

  lemma AllButClear(k: nat, n: nat)
    requires k <= n
    ensures |Free(AllBut(k, n), n)| == k
  {
    AllFree(k);
    assert Free(AllBut(k, n), n) == Free({}, k);
  }

  /** A file one byte too long for one header of HW4, on a disk with 40 clear sectors: allocating and deallocating it costs a
      sector. */
  lemma LeakExample(n: nat)
    requires n >= 40
    ensures var o := Allocated(HW4_DIRECT, AllBut(40, n), n, 3713);
      o.header.Some? && Deallocated(o.marked, o.header.value) != AllBut(40, n)
  {
    AllButClear(40, n);
    SucceedsIffRoom(HW4_DIRECT, AllBut(40, n), n, 3713);
    assert DataNeeded(3713) == 30 && LinksNeeded(HW4_DIRECT, 3713) == 1;
    hide Allocated, Deallocated;
    RestoredIffOneHeader(HW4_DIRECT, AllBut(40, n), n, 3713);
  }

  /** The same file on a disk with room for its first header only: Allocate fails and leaves sectors marked. */
  lemma FailureExample(n: nat)
    requires n >= 30
    ensures var o := Allocated(HW4_DIRECT, AllBut(30, n), n, 3713); o.header == None && o.marked != AllBut(30, n)
  {
    AllButClear(30, n);
    SucceedsIffRoom(HW4_DIRECT, AllBut(30, n), n, 3713);
    assert DataNeeded(3713) == 30 && LinksNeeded(HW4_DIRECT, 3713) == 1 && FirstSectors(HW4_DIRECT, 3713) == 29;
    hide Allocated;
    FailureMarks(HW4_DIRECT, AllBut(30, n), n, 3713);
  }

  lemma {:induction false} AllFree(n: nat)
    ensures |Free({}, n)| == n
  {
    if n > 0 {
      AllFree(n - 1);
      FreeGrows({}, n - 1);
    }
  }

  // ---------------------------------------------------------------- any sequence of allocations and deallocations

  /** One free map with its live files; `leaked` are sectors still marked that no live file owns any more. */
  datatype Volume = Volume(marked: set<nat>, files: map<nat, Header>, leaked: set<nat>)

  datatype Op = Allocate(id: nat, fileSize: int) | Deallocate(id: nat)

  /** A failed Allocate and a Deallocate may leave sectors marked that no file owns. */
  ghost function Next(direct: Direct, v: Volume, n: nat, op: Op): Volume
    requires op.Deallocate? ==> op.id in v.files
  {
    match op
    case Allocate(id, fileSize) =>
      var o := Allocated(direct, v.marked, n, fileSize);
      if o.header.Some? then Volume(o.marked, v.files[id := o.header.value], v.leaked)
      else Volume(o.marked, v.files, v.leaked + (o.marked - v.marked))
    case Deallocate(id) =>
      var h := v.files[id];
      Volume(Deallocated(v.marked, h), v.files - {id}, v.leaked + Elements(LinksOf(h)))
  }

  ghost predicate Legal(direct: Direct, v: Volume, n: nat, ops: seq<Op>)
    decreases |ops|
  {
    ops == [] ||
      ((if ops[0].Allocate? then ops[0].id !in v.files else ops[0].id in v.files) && Legal(direct, Next(direct, v, n, ops[0]), n, ops[1..]))
  }

  ghost function After(direct: Direct, v: Volume, n: nat, ops: seq<Op>): Volume
    requires Legal(direct, v, n, ops)
    decreases |ops|
  {
    if ops == [] then v else After(direct, Next(direct, v, n, ops[0]), n, ops[1..])
  }

  /** A live file owns marked sectors of its own. */
  ghost predicate Holds(v: Volume, reserved: set<nat>, id: nat)
    requires id in v.files
  {
    && Proper(v.files[id]) && Owned(v.files[id]) <= v.marked
    && Owned(v.files[id]) !! reserved && Owned(v.files[id]) !! v.leaked
  }

  ghost function OwnedByAll(files: map<nat, Header>): set<nat> {
    set id, x | id in files && x in Owned(files[id]) :: x
  }

  ghost predicate Inv(v: Volume, n: nat, reserved: set<nat>) {
    && (forall x :: x in v.marked ==> x < n)
    && (forall id :: id in v.files ==> Holds(v, reserved, id))
    && (forall i, j :: i in v.files && j in v.files && i != j ==> Owned(v.files[i]) !! Owned(v.files[j]))
    && reserved !! v.leaked
    && v.marked == reserved + v.leaked + OwnedByAll(v.files)
  }

  lemma OwnedWith(files: map<nat, Header>, id: nat, h: Header)
    requires id !in files
    ensures OwnedByAll(files[id := h]) == OwnedByAll(files) + Owned(h)
  {
    hide Owned;
    var files' := files[id := h];
    forall x | x in OwnedByAll(files) + Owned(h) ensures x in OwnedByAll(files') {
      if x in Owned(h) {
        assert files'[id] == h;
      } else {
        var i :| i in files && x in Owned(files[i]);
        assert files'[i] == files[i];
      }
    }
  }

  lemma OwnedWithout(files: map<nat, Header>, id: nat)
    requires id in files
    ensures OwnedByAll(files) == OwnedByAll(files - {id}) + Owned(files[id])
  {
    OwnedWith(files - {id}, id, files[id]);
    assert (files - {id})[id := files[id]] == files;
  }

  lemma AllocateKeeps(direct: Direct, v: Volume, n: nat, reserved: set<nat>, id: nat, fileSize: int)
    requires Inv(v, n, reserved) && id !in v.files
    ensures Inv(Next(direct, v, n, Allocate(id, fileSize)), n, reserved)
  {
    hide Allocated, Owned, Proper, OwnedByAll, FirstSectors, DataOf, LinksOf, Elements, Free, Length, DataNeeded, LinksNeeded;
    var o := Allocated(direct, v.marked, n, fileSize);
    if o.header.Some? {
      OwnsNewSectors(direct, v.marked, n, fileSize);
      OwnedWith(v.files, id, o.header.value);
    } else {
      FailureMarks(direct, v.marked, n, fileSize);
      var more := o.marked - v.marked;
      forall x | x in o.marked ensures x < n {
        assert x in v.marked || x in more;
      }
    }
  }

  lemma DeallocateKeeps(direct: Direct, v: Volume, n: nat, reserved: set<nat>, id: nat)
    requires Inv(v, n, reserved) && id in v.files
    ensures Inv(Next(direct, v, n, Deallocate(id)), n, reserved)
  {
    hide Deallocated, OwnedByAll, DataOf, LinksOf, Elements;
    var h := v.files[id];
    DeallocatedIs(v.marked, h);
    OwnedWithout(v.files, id);
    OwnedApart(v, n, reserved, id);
  }

  lemma OwnedApart(v: Volume, n: nat, reserved: set<nat>, id: nat)
    requires Inv(v, n, reserved) && id in v.files
    ensures OwnedByAll(v.files - {id}) !! Owned(v.files[id])
  {
    hide Owned, Proper;
    forall x | x in OwnedByAll(v.files - {id}) ensures x !in Owned(v.files[id]) {
      var i :| i in v.files - {id} && x in Owned((v.files - {id})[i]);
      assert x in Owned(v.files[i]);
    }
  }

  /** Whatever is allocated and deallocated on one map, live files own pairwise disjoint marked sectors, and every marked sector
      is accounted for. */
  lemma {:induction false} RunKeeps(direct: Direct, v: Volume, n: nat, reserved: set<nat>, ops: seq<Op>)
    requires Inv(v, n, reserved) && Legal(direct, v, n, ops)
    ensures Inv(After(direct, v, n, ops), n, reserved)
    decreases |ops|
  {
    hide Inv, Next;
    if ops != [] {
      if ops[0].Allocate? {
        AllocateKeeps(direct, v, n, reserved, ops[0].id, ops[0].fileSize);
      } else {
        DeallocateKeeps(direct, v, n, reserved, ops[0].id);
      }
      RunKeeps(direct, Next(direct, v, n, ops[0]), n, reserved, ops[1..]);
    }
  }

  /** Clear, reserved, owned and leaked sectors always add up to the disk. */
  lemma SectorsConserved(direct: Direct, v: Volume, n: nat, reserved: set<nat>, ops: seq<Op>)
    requires Inv(v, n, reserved) && Legal(direct, v, n, ops)
    ensures var v' := After(direct, v, n, ops);
      |Free(v'.marked, n)| + |reserved| + |v'.leaked| + |OwnedByAll(v'.files)| == n
  {
    hide After, Owned, Proper;
    RunKeeps(direct, v, n, reserved, ops);
    CountUp(After(direct, v, n, ops), n, reserved);
  }

  lemma CountUp(v: Volume, n: nat, reserved: set<nat>)
    requires Inv(v, n, reserved)
    ensures |Free(v.marked, n)| + |reserved| + |v.leaked| + |OwnedByAll(v.files)| == n
  {
    forall x | x in OwnedByAll(v.files) ensures x !in reserved + v.leaked {
      var i :| i in v.files && x in Owned(v.files[i]);
      assert Holds(v, reserved, i);
    }
    hide Owned, Proper, OwnedByAll;
    var all := Free({}, n);
    AllFree(n);
    assert all == Free(v.marked, n) + v.marked;
    assert |v.marked| == |reserved + v.leaked| + |OwnedByAll(v.files)|;
    assert |reserved + v.leaked| == |reserved| + |v.leaked|;
  }

  /** As long as every file fits one header, no sector ever leaks. */
  lemma {:induction false} OneHeaderNeverLeaks(direct: Direct, v: Volume, n: nat, ops: seq<Op>)
    requires Legal(direct, v, n, ops)
    requires forall id :: id in v.files ==> v.files[id].next == None
    requires forall i :: 0 <= i < |ops| && ops[i].Allocate? ==> ops[i].fileSize <= MaxFileSize(direct)
    ensures After(direct, v, n, ops).leaked == v.leaked
    decreases |ops|
  {
    if ops != [] {
      if ops[0].Allocate? {
        SmallFile(direct, v.marked, n, ops[0].fileSize);
      } else {
        ElementsCons(0, []);
      }
      hide Allocated, Deallocated, Elements;
      OneHeaderNeverLeaks(direct, Next(direct, v, n, ops[0]), n, ops[1..]);
    }
  }

  // ---------------------------------------------------------------- from bytes to sectors

  /** All headers of the chain but the last are full, and the last has no link. */
  predicate Filled(direct: Direct, h: Header) {
    if h.next.Some? then |h.sectors| == direct && h.numBytes == MaxFileSize(direct) && h.link >= 0 && Filled(direct, h.next.value)
    else |h.sectors| == DivRoundUp(h.numBytes, Disks.SECTOR_SIZE) && h.numBytes <= MaxFileSize(direct) && h.link == -1
  }

  lemma {:induction false} AllocatedFilled(direct: Direct, marked: set<nat>, n: nat, fileSize: int)
    requires Allocated(direct, marked, n, fileSize).header.Some?
    ensures Filled(direct, Allocated(direct, marked, n, fileSize).header.value)
    decreases fileSize
  {
    hide Grabbed, Free, FirstFree, Elements, LinksNeeded, DataNeeded, FirstSectors, DivRoundUp;
    FirstSectorsIs(direct, fileSize);
    FullSectors(direct);
    if fileSize > MaxFileSize(direct) {
      var marked' := marked + Elements(Grabbed(marked, n, FirstSectors(direct, fileSize)));
      FirstFreeUsable(marked', n);
      AllocatedFilled(direct, marked' + {FirstFree(marked', n) as nat}, n, fileSize - MaxFileSize(direct));
    }
  }

  lemma FullSectors(direct: Direct)
    ensures DivRoundUp(MaxFileSize(direct), Disks.SECTOR_SIZE) == direct
  {
    Div128(0, direct);
  }

  lemma FirstSectorsIs(direct: Direct, fileSize: int)
    ensures fileSize > MaxFileSize(direct) ==> FirstSectors(direct, fileSize) == direct
    ensures fileSize < 0 ==> FirstSectors(direct, fileSize) == direct
    ensures 0 <= fileSize <= MaxFileSize(direct) ==>
      FirstSectors(direct, fileSize) == DivRoundUp(fileSize, Disks.SECTOR_SIZE)
  {
    FullSectors(direct);
  }

  /** A chain in one table: sector k of the data holds the bytes from 128 * k on. */
  lemma {:induction false} EnoughSectors(direct: Direct, h: Header, offset: nat)
    requires Filled(direct, h) && offset < Length(h)
    ensures offset / Disks.SECTOR_SIZE < |DataOf(h)|
  {
    if h.next.Some? && offset >= MaxFileSize(direct) {
      EnoughSectors(direct, h.next.value, offset - MaxFileSize(direct));
    }
  }

  lemma ElementsAppend(s: seq<nat>, x: nat)
    ensures Elements(s + [x]) == Elements(s) + {x} && Elements([]) == {}
  {
  }

  lemma GrabbedStep(marked: set<nat>, n: nat, k: nat)
    requires k <= |Free(marked, n)|
    ensures if k == 0 then Grabbed(marked, n, k) == [] else
      var x := FirstFree(marked, n);
      && 0 <= x && k - 1 <= |Free(marked + {x}, n)|
      && Grabbed(marked, n, k) == [x as nat] + Grabbed(marked + {x}, n, k - 1)
  {
    FirstFreeUsable(marked, n);
    if k > 0 {
      FreeWithout(marked, n, FirstFree(marked, n));
    }
  }

  lemma DistinctParts(s: seq<nat>, t: seq<nat>)
    requires Distinct(s + t)
    ensures Distinct(s) && Distinct(t) && Elements(s) !! Elements(t) && Elements(s + t) == Elements(s) + Elements(t)
  {
    var u := s + t;
    assert forall i :: 0 <= i < |s| ==> u[i] == s[i];
    assert forall i :: 0 <= i < |t| ==> u[|s| + i] == t[i];
  }

  lemma ProperParts(h: Header)
    requires Proper(h)
    ensures Distinct(h.sectors) && Elements(h.sectors) <= Elements(DataOf(h))
    ensures h.next.Some? && h.link >= 0 ==>
      && Proper(h.next.value) && Elements(DataOf(h.next.value)) <= Elements(DataOf(h))
      && Elements(DataOf(h.next.value)) !! Elements(h.sectors)
  {
    hide Elements, Distinct;
    if h.next.Some? {
      DistinctParts(h.sectors, DataOf(h.next.value));
      if h.link >= 0 {
        DistinctParts([h.link as nat], LinksOf(h.next.value));
      }
    } else {
      assert h.sectors + [] == h.sectors;
    }
  }

  lemma NotYetCleared(s: seq<nat>, i: nat)
    requires Distinct(s) && i < |s|
    ensures s[i] in Elements(s) && s[i] !in Elements(s[..i])
  {
  }

  lemma FewSectors(direct: Direct, numBytes: nat)
    requires numBytes <= MaxFileSize(direct)
    ensures DivRoundUp(numBytes, Disks.SECTOR_SIZE) <= direct
    ensures numBytes == MaxFileSize(direct) ==> DivRoundUp(numBytes, Disks.SECTOR_SIZE) == direct
  {
    FullSectors(direct);
    assert numBytes < MaxFileSize(direct) ==> numBytes / 128 < direct;
  }

  class FileHeader {
    const direct: Direct
    var nextFileHeader: FileHeader?
    var numBytes: nat
    var numSectors: nat
    const dataSectors: array<nat>
    var nextFileHeaderSector: int
    ghost var Repr: set<object>

    ghost predicate Valid()
      reads this, Repr
      decreases Repr
    {
      && this in Repr && dataSectors in Repr
      && dataSectors.Length == direct && numSectors <= direct && nextFileHeaderSector >= -1
      && (nextFileHeaderSector == -1 ==> nextFileHeader == null)
      && (nextFileHeader != null ==>
            && nextFileHeader.direct == direct && nextFileHeader in Repr && nextFileHeader.Repr <= Repr
            && this !in nextFileHeader.Repr && dataSectors !in nextFileHeader.Repr && nextFileHeader.Valid())
    }

    ghost function View(): Header
      requires Valid()
      reads this, Repr
      decreases Repr
    {
      Header(numBytes, dataSectors[..numSectors], nextFileHeaderSector,
             if nextFileHeader == null then None else Some(nextFileHeader.View()))
    }

    constructor (direct: Direct)
      ensures this.direct == direct && Valid() && nextFileHeader == null && nextFileHeaderSector == -1 && fresh(Repr)
    {
      this.direct := direct;
      dataSectors := new nat[direct];
      nextFileHeader, nextFileHeaderSector, numBytes, numSectors := null, -1, 0, 0;
      new;
      Repr := {this, dataSectors};
    }

    method Allocate(freeMap: Bitmap, fileSize: int) returns (ok: bool)
      requires Valid() && nextFileHeader == null && nextFileHeaderSector == -1
      requires freeMap.Valid() && freeMap.words as object !in Repr
      modifies this, dataSectors, freeMap.words
      ensures Valid() && fresh(Repr - old(Repr))
      ensures var o := Allocated(direct, old(freeMap.Marked()), freeMap.numBits, fileSize);
        && freeMap.Marked() == o.marked && ok == o.header.Some?
        && (ok ==> View() == o.header.value)
      decreases fileSize, 0
    {
      hide Free, FirstFree, Elements, Grabbed, FirstSectors, DataOf, DivRoundUp;
      ghost var marked, n := freeMap.Marked(), freeMap.numBits;
      FirstSectorsIs(direct, fileSize);
      numBytes := if 0 <= fileSize < MaxFileSize(direct) then fileSize else MaxFileSize(direct);
      FewSectors(direct, numBytes);
      numSectors := DivRoundUp(numBytes, Disks.SECTOR_SIZE);
      var clear := freeMap.NumClear();
      if clear < numSectors {
        return false;
      }
      GrabSectors(freeMap);
      if fileSize > numBytes {
        ok := Extend(freeMap, fileSize - numBytes);
        return;
      }
      return true;
    }

    /** The rest of Allocate: a sector for the next header, and the rest of the file in it. */
    method Extend(freeMap: Bitmap, rest: nat) returns (ok: bool)
      requires Valid() && nextFileHeader == null && nextFileHeaderSector == -1
      requires freeMap.Valid() && freeMap.words as object !in Repr
      modifies this`nextFileHeader, this`nextFileHeaderSector, this`Repr, freeMap.words
      ensures Valid() && fresh(Repr - old(Repr)) && dataSectors in old(Repr)
      ensures nextFileHeaderSector == FirstFree(old(freeMap.Marked()), freeMap.numBits)
      ensures if nextFileHeaderSector == -1 then !ok && freeMap.Marked() == old(freeMap.Marked()) else
        var o := Allocated(direct, old(freeMap.Marked()) + {nextFileHeaderSector as nat}, freeMap.numBits, rest);
        && freeMap.Marked() == o.marked && ok == o.header.Some?
        && (ok ==> nextFileHeader != null && nextFileHeader.View() == o.header.value)
      decreases rest, 1
    {
      hide Free, FirstFree, Allocated;
      FirstFreeUsable(freeMap.Marked(), freeMap.numBits);
      nextFileHeaderSector := freeMap.FindAndSet();
      if nextFileHeaderSector == -1 {
        return false;
      }
      nextFileHeader := new FileHeader(direct);
      ok := nextFileHeader.Allocate(freeMap, rest);
      Repr := Repr + nextFileHeader.Repr;
    }

    /** The loop of Allocate over FindAndSet. */
    method GrabSectors(freeMap: Bitmap)
      requires Valid() && freeMap.Valid() && freeMap.words as object !in Repr
      requires numSectors <= |Free(freeMap.Marked(), freeMap.numBits)|
      modifies dataSectors, freeMap.words
      ensures var g := Grabbed(old(freeMap.Marked()), freeMap.numBits, numSectors);
        dataSectors[..numSectors] == g && freeMap.Marked() == old(freeMap.Marked()) + Elements(g)
    {
      hide Free, FirstFree, Elements, Grabbed;
      ghost var marked, n := freeMap.Marked(), freeMap.numBits;
      ghost var all := Grabbed(marked, n, numSectors);
      ElementsAppend([], 0);
      var i := 0;
      while i < numSectors
        invariant 0 <= i <= numSectors
        invariant numSectors - i <= |Free(freeMap.Marked(), n)|
        invariant dataSectors[..i] == all[..i] && Grabbed(freeMap.Marked(), n, numSectors - i) == all[i..]
        invariant freeMap.Marked() == marked + Elements(all[..i])
      {
        GrabbedStep(freeMap.Marked(), n, numSectors - i);
        ghost var rest := all[i..];
        var sector := freeMap.FindAndSet();
        assert sector >= 0;
        assert rest == [sector] + Grabbed(freeMap.Marked(), n, numSectors - i - 1);
        assert rest[0] == all[i] && rest[1..] == all[i + 1..];
        ElementsAppend(all[..i], sector);
        assert all[..i + 1] == all[..i] + [sector];
        dataSectors[i] := sector;
        i := i + 1;
      }
      assert all[..i] == all;
    }

    /** The ASSERT on every freed sector holds. */
    method Deallocate(freeMap: Bitmap)
      requires Valid() && freeMap.Valid() && freeMap.words as object !in Repr
      requires Filled(direct, View()) && Proper(View()) && Elements(DataOf(View())) <= freeMap.Marked()
      modifies freeMap.words
      ensures freeMap.Marked() == Deallocated(old(freeMap.Marked()), View())
      decreases Repr
    {
      hide Elements, Owned, LinksOf, Distinct, Proper;
      ghost var h, marked := View(), freeMap.Marked();
      ProperParts(h);
      ElementsAppend([], 0);
      var i := 0;
      while i < numSectors
        invariant 0 <= i <= numSectors
        invariant freeMap.Marked() == marked - Elements(h.sectors[..i])
      {
        ElementsAppend(h.sectors[..i], h.sectors[i]);
        assert h.sectors[..i + 1] == h.sectors[..i] + [h.sectors[i]];
        NotYetCleared(h.sectors, i);
        var stillMarked := freeMap.Test(dataSectors[i]);
        assert stillMarked;
        freeMap.Clear(dataSectors[i]);
        i := i + 1;
      }
      assert h.sectors[..i] == h.sectors;
      if nextFileHeaderSector != -1 {
        assert nextFileHeader != null;
        nextFileHeader.Deallocate(freeMap);
      }
    }

    /** The sector that stores the byte at `offset`. */
    method ByteToSector(offset: nat) returns (sector: nat)
      requires Valid() && Filled(direct, View()) && offset < Length(View())
      ensures offset / Disks.SECTOR_SIZE < |DataOf(View())| && sector == DataOf(View())[offset / Disks.SECTOR_SIZE]
      decreases Repr
    {
      EnoughSectors(direct, View(), offset);
      var index := offset / Disks.SECTOR_SIZE;
      if index < direct {
        sector := dataSectors[index];
      } else {
        assert nextFileHeader != null;
        sector := nextFileHeader.ByteToSector(offset - MaxFileSize(direct));
      }
    }

    function FileLength(): nat
      reads this
    {
      numBytes
    }
  }
}
