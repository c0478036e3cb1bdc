/**
 The simulated machine's memory (machine/translate.cc): a linear page table or a TLB in front of
 little-endian physical memory.
 */
module Memory {
  import opened Common
  import opened Bits

  const PAGE_SIZE := 128
  const NUM_PHYS_PAGES := 128
  const MEMORY_SIZE := 16384

  type Byte = x: nat | x < 256

  datatype Exception =
    | NoException | SyscallException | PageFaultException | ReadOnlyException
    | BusErrorException | AddressErrorException | OverflowException | IllegalInstrException

  datatype Entry = Entry(virtualPage: int, physicalPage: int, valid: bool, readOnly: bool, use: bool, dirty: bool)

  /** What the hardware sees: `entries` is the page table or, if `isTlb`, the TLB. */
  datatype Memory = Memory(main: seq<Byte>, entries: seq<Entry>, isTlb: bool)
  {
    predicate Valid() {
      |main| == MEMORY_SIZE
    }
  }

  /** The first TLB entry at or after `i` that translates `vpn`, or the length of the TLB. */
  function Hit(tlb: seq<Entry>, vpn: nat, i: nat): (r: nat)
    requires i <= |tlb|
    ensures i <= r <= |tlb|
    ensures r < |tlb| ==> tlb[r].valid && tlb[r].virtualPage == vpn
    ensures forall j :: i <= j < r ==> !(tlb[j].valid && tlb[j].virtualPage == vpn)
    decreases |tlb| - i
  {
    if i == |tlb| || (tlb[i].valid && tlb[i].virtualPage == vpn) then i else Hit(tlb, vpn, i + 1)
  }

  /** The entry that translates page `vpn`, or the exception for not having one. */
  function Find(m: Memory, vpn: nat): (r: (Exception, nat))
    ensures r.0 == NoException ==> r.1 < |m.entries| && m.entries[r.1].valid
  {
    if !m.isTlb then
      if vpn >= |m.entries| then (AddressErrorException, 0)
      else if !m.entries[vpn].valid then (PageFaultException, 0)
      else (NoException, vpn)
    else
      var i := Hit(m.entries, vpn, 0);
      if i == |m.entries| then (PageFaultException, 0) else (NoException, i)
  }

  /** A page frame read as an unsigned number. */
  function Frame(e: Entry): int {
    if e.physicalPage < 0 then e.physicalPage + 0x1_0000_0000 else e.physicalPage
  }

  predicate Aligned(addr: Word, size: nat) {
    (size == 4 ==> addr % 4 == 0) && (size == 2 ==> addr % 2 == 0)
  }

  /** The outcome of Machine::Translate; `mem` has the use and dirty bits set. */
  datatype Translation = Translation(exception: Exception, physAddr: nat, mem: Memory)

  function Translated(m: Memory, addr: Word, size: nat, writing: bool): (r: Translation)
  {
    if !Aligned(addr, size) then Translation(AddressErrorException, 0, m)
    else
      var found := Find(m, addr / PAGE_SIZE);
      if found.0 != NoException then Translation(found.0, 0, m)
      else
        var e := m.entries[found.1];
        if e.readOnly && writing then Translation(ReadOnlyException, 0, m)
        else if Frame(e) < 0 || Frame(e) >= NUM_PHYS_PAGES then Translation(BusErrorException, 0, m)
        else
          var e' := e.(use := true, dirty := e.dirty || writing);
          Translation(NoException, Frame(e) * PAGE_SIZE + addr % PAGE_SIZE, m.(entries := m.entries[found.1 := e']))
  }

  lemma AlignedStaysInPage(addr: Word, size: nat)
    requires (size == 1 || size == 2 || size == 4) && Aligned(addr, size)
    ensures addr % PAGE_SIZE + size <= PAGE_SIZE && addr + size <= 0x1_0000_0000
  {
    var q, r := addr / PAGE_SIZE, addr % PAGE_SIZE;
    if size == 4 {
      FullSteps(r, addr / 4 - 32 * q, 4, 32);
      FullSteps(addr, addr / 4, 4, 0x4000_0000);
    } else if size == 2 {
      FullSteps(r, addr / 2 - 64 * q, 2, 64);
      FullSteps(addr, addr / 2, 2, 0x8000_0000);
    }
  }

  /** Steps of two or four that stay below a multiple of them leave room for one more. */
  lemma FullSteps(x: int, w: int, k: int, n: int)
    requires (k == 2 || k == 4) && x == k * w && x < k * n
    ensures x + k <= k * n
  {
    if k == 2 {
      assert w < n;
    } else {
      assert w < n;
    }
  }

  /** ASSERT((*physAddr >= 0) && ((*physAddr + size) <= MemorySize)) never fails: an aligned access stays in its page. */
  lemma TranslateAssertHolds(m: Memory, addr: Word, size: nat, writing: bool)
    requires size == 1 || size == 2 || size == 4
    requires Translated(m, addr, size, writing).exception == NoException
    ensures Translated(m, addr, size, writing).physAddr + size <= MEMORY_SIZE
    ensures addr % PAGE_SIZE + size <= PAGE_SIZE
    ensures addr + size <= 0x1_0000_0000
  {
    AlignedStaysInPage(addr, size);
  }

  /** A translation sets the use bit of the entry it goes through, and the dirty bit if it is for a write. */
  predicate Touches(entries: seq<Entry>, entries': seq<Entry>, k: nat, writing: bool) {
    && |entries'| == |entries|
    && forall j :: 0 <= j < |entries| ==>
         entries'[j] == if j == k then entries[j].(use := true, dirty := entries[j].dirty || writing) else entries[j]
  }

  /** Which exception a translation raises with a page table, if any, and what it does if it raises none; a translation that
      raises an exception changes nothing. */
  lemma TranslationOutcome(m: Memory, addr: Word, size: nat, writing: bool)
    requires !m.isTlb
    ensures var t, page := Translated(m, addr, size, writing), addr / PAGE_SIZE;
      && (t.exception == AddressErrorException <==> !Aligned(addr, size) || page >= |m.entries|)
      && (t.exception == PageFaultException <==> Aligned(addr, size) && page < |m.entries| && !m.entries[page].valid)
      && (t.exception == ReadOnlyException <==>
            Aligned(addr, size) && page < |m.entries| && m.entries[page].valid && m.entries[page].readOnly && writing)
      && (t.exception == BusErrorException <==>
            Aligned(addr, size) && page < |m.entries| && m.entries[page].valid && !(m.entries[page].readOnly && writing)
            && !(0 <= Frame(m.entries[page]) < NUM_PHYS_PAGES))
      && (t.exception == NoException <==>
            Aligned(addr, size) && page < |m.entries| && m.entries[page].valid && !(m.entries[page].readOnly && writing)
            && 0 <= Frame(m.entries[page]) < NUM_PHYS_PAGES)
      && (t.exception != NoException ==> t.mem == m)
      && (t.exception == NoException ==>
            && t.physAddr == Frame(m.entries[page]) * PAGE_SIZE + addr % PAGE_SIZE
            && t.mem.main == m.main && !t.mem.isTlb && Touches(m.entries, t.mem.entries, page, writing))
  {
  }

  /** The first valid entry of the TLB for the page, if it is `k`. */
  predicate FirstHit(m: Memory, page: nat, k: nat) {
    && k < |m.entries| && m.entries[k].valid && m.entries[k].virtualPage == page
    && forall j :: 0 <= j < k ==> !(m.entries[j].valid && m.entries[j].virtualPage == page)
  }

  /** With a TLB: a page fault exactly if no valid entry is for the page; otherwise the first that is decides. */
  lemma TlbOutcome(m: Memory, addr: Word, size: nat, writing: bool, k: nat)
    requires m.isTlb
    ensures var t, page := Translated(m, addr, size, writing), addr / PAGE_SIZE;
      && (t.exception == AddressErrorException <==> !Aligned(addr, size))
      && (t.exception == PageFaultException <==>
            Aligned(addr, size) && forall j :: 0 <= j < |m.entries| ==> !(m.entries[j].valid && m.entries[j].virtualPage == page))
      && (t.exception != NoException ==> t.mem == m)
      && (Aligned(addr, size) && FirstHit(m, page, k) ==>
            && (t.exception == ReadOnlyException <==> m.entries[k].readOnly && writing)
            && (t.exception == BusErrorException <==>
                  !(m.entries[k].readOnly && writing) && !(0 <= Frame(m.entries[k]) < NUM_PHYS_PAGES))
            && (t.exception == NoException ==>
                  && t.physAddr == Frame(m.entries[k]) * PAGE_SIZE + addr % PAGE_SIZE
                  && t.mem.main == m.main && t.mem.isTlb && Touches(m.entries, t.mem.entries, k, writing)))
  {
    var i := Hit(m.entries, addr / PAGE_SIZE, 0);
    if FirstHit(m, addr / PAGE_SIZE, k) {
      assert i == k;
    }
  }

  /** A page frame is an int: it is one of the machine's exactly if it is neither negative nor too large. */
  lemma FrameIs(e: Entry)
    requires -0x8000_0000 <= e.physicalPage < 0x8000_0000
    ensures 0 <= Frame(e) < NUM_PHYS_PAGES <==> 0 <= e.physicalPage < NUM_PHYS_PAGES
    ensures 0 <= e.physicalPage < NUM_PHYS_PAGES ==> Frame(e) == e.physicalPage
  {
  }

  /** The number stored little-endian in `size` bytes from `p`; a single byte is a signed `char`. */
  function Load(main: seq<Byte>, p: nat, size: nat): Word
    requires p + size <= |main| && (size == 1 || size == 2 || size == 4)
  {
    var b: nat := main[p];
    if size == 1 then (if b < 0x80 then b else 0xffff_ff00 + b)
    else if size == 2 then b + 0x100 * (main[p + 1] as nat)
    else WordOf(main[p], main[p + 1], main[p + 2], main[p + 3])
  }

  function ByteOf(value: Word, k: nat): Byte {
    if k == 0 then value % 0x100
    else if k == 1 then value / 0x100 % 0x100
    else if k == 2 then value / 0x1_0000 % 0x100
    else value / 0x100_0000 % 0x100
  }

  function Store(main: seq<Byte>, p: nat, size: nat, value: Word): (r: seq<Byte>)
    requires p + size <= |main| && (size == 1 || size == 2 || size == 4)
    ensures |r| == |main|
    ensures forall q :: 0 <= q < |main| ==> r[q] == if p <= q < p + size then ByteOf(value, q - p) else main[q]
  {
    if size == 1 then main[p := ByteOf(value, 0)]
    else if size == 2 then main[p := ByteOf(value, 0)][p + 1 := ByteOf(value, 1)]
    else main[p := ByteOf(value, 0)][p + 1 := ByteOf(value, 1)][p + 2 := ByteOf(value, 2)][p + 3 := ByteOf(value, 3)]
  }

  datatype Access = Access(exception: Exception, value: Word, mem: Memory)

  function Fetched(m: Memory, addr: Word, size: nat): (r: Access)
    requires m.Valid() && (size == 1 || size == 2 || size == 4)
    ensures r.mem.Valid()
  {
    var t := Translated(m, addr, size, false);
    if t.exception != NoException then Access(t.exception, 0, t.mem)
    else
      TranslateAssertHolds(m, addr, size, false);
      Access(NoException, Load(m.main, t.physAddr, size), t.mem)
  }

  function Stored(m: Memory, addr: Word, size: nat, value: Word): (r: Access)
    requires m.Valid() && (size == 1 || size == 2 || size == 4)
    ensures r.mem.Valid()
  {
    var t := Translated(m, addr, size, true);
    if t.exception != NoException then Access(t.exception, 0, t.mem)
    else
      TranslateAssertHolds(m, addr, size, true);
      Access(NoException, 0, t.mem.(main := Store(m.main, t.physAddr, size, value)))
  }

  // ---------------------------------------------------------------- paged memory is flat memory

  /** A page table that maps its pages to different frames. */
  ghost predicate Injective(m: Memory) {
    && m.Valid() && !m.isTlb
    && forall i, j :: 0 <= i < j < |m.entries| && m.entries[i].valid && m.entries[j].valid ==>
         Frame(m.entries[i]) != Frame(m.entries[j])
  }

  predicate Mapped(m: Memory, a: nat) {
    a / PAGE_SIZE < |m.entries| && m.entries[a / PAGE_SIZE].valid && 0 <= Frame(m.entries[a / PAGE_SIZE]) < NUM_PHYS_PAGES
  }

  /** The byte a program sees at virtual address `a`. */
  function Seen(m: Memory, a: nat): Byte
    requires m.Valid() && Mapped(m, a)
  {
    m.main[Frame(m.entries[a / PAGE_SIZE]) * PAGE_SIZE + a % PAGE_SIZE]
  }

  /** An access never changes the translation of any page. */
  predicate SameMap(m: Memory, m': Memory) {
    && m'.Valid() && |m'.entries| == |m.entries| && m'.isTlb == m.isTlb
    && forall i :: 0 <= i < |m.entries| ==>
         m'.entries[i].(use := false, dirty := false) == m.entries[i].(use := false, dirty := false)
  }

  lemma InPage(a: nat, k: nat)
    requires a % PAGE_SIZE + k < PAGE_SIZE
    ensures (a + k) / PAGE_SIZE == a / PAGE_SIZE && (a + k) % PAGE_SIZE == a % PAGE_SIZE + k
  {
  }

  /** The word made of four bytes, least significant first. */
  function WordOf(b0: Byte, b1: Byte, b2: Byte, b3: Byte): Word {
    (b0 as nat) + 0x100 * (b1 as nat) + 0x1_0000 * (b2 as nat) + 0x100_0000 * (b3 as nat)
  }

  /** Taking a word apart and putting it together are inverse. */
  lemma WordBytes(b0: Byte, b1: Byte, b2: Byte, b3: Byte)
    ensures var w := WordOf(b0, b1, b2, b3);
      ByteOf(w, 0) == b0 && ByteOf(w, 1) == b1 && ByteOf(w, 2) == b2 && ByteOf(w, 3) == b3
  {
    var w := WordOf(b0, b1, b2, b3);
    var h1: nat := (b1 as nat) + 0x100 * (b2 as nat) + 0x1_0000 * (b3 as nat);
    var h2: nat := (b2 as nat) + 0x100 * (b3 as nat);
    assert w == 0x100 * h1 + (b0 as nat) && w / 0x100 == h1;
    assert h1 == 0x100 * h2 + (b1 as nat) && w / 0x1_0000 == h2;
    assert w / 0x100_0000 == b3;
  }

  lemma WordFromBytes(w: Word)
    ensures WordOf(ByteOf(w, 0), ByteOf(w, 1), ByteOf(w, 2), ByteOf(w, 3)) == w
  {
    DivTwice(w, 0x100, 0x100);
    DivTwice(w, 0x1_0000, 0x100);
    var q1, q2, q3 := w / 0x100, w / 0x1_0000, w / 0x100_0000;
    FourDigits(w, q1, q2, q3, w % 0x100, q1 % 0x100, q2 % 0x100);
    assert q3 < 0x100;
    Remainder(q3, 0x100);
  }

  lemma Remainder(x: nat, n: nat)
    requires x < n
    ensures x % n == x && x / n == 0
  {
  }

  lemma FourDigits(w: nat, q1: nat, q2: nat, q3: nat, b0: nat, b1: nat, b2: nat)
    requires w == 0x100 * q1 + b0 && q1 == 0x100 * q2 + b1 && q2 == 0x100 * q3 + b2
    ensures w == b0 + 0x100 * b1 + 0x1_0000 * b2 + 0x100_0000 * q3
  {
  }

  lemma LoadBytes(main: seq<Byte>, p: nat, size: nat, k: nat)
    requires p + size <= |main| && (size == 1 || size == 2 || size == 4) && k < size
    ensures ByteOf(Load(main, p, size), k) == main[p + k]
  {
    if size == 4 {
      WordBytes(main[p], main[p + 1], main[p + 2], main[p + 3]);
    }
  }

  /** A read delivers the bytes that the program sees at its addresses, or an exception without any other effect:
      misaligned, past the table, not valid, or not a frame. */
  lemma ReadSeesBytes(m: Memory, addr: Word, size: nat)
    requires m.Valid() && !m.isTlb && (size == 1 || size == 2 || size == 4)
    ensures var r := Fetched(m, addr, size);
      && SameMap(m, r.mem) && r.mem.main == m.main
      && (r.exception == NoException <==> Aligned(addr, size) && Mapped(m, addr))
      && (r.exception == NoException ==> addr % PAGE_SIZE + size <= PAGE_SIZE)
  {
    var t := Translated(m, addr, size, false);
    if t.exception == NoException {
      TranslateAssertHolds(m, addr, size, false);
    }
  }

  lemma ReadByteSeen(m: Memory, addr: Word, size: nat, k: nat)
    requires m.Valid() && !m.isTlb && (size == 1 || size == 2 || size == 4) && k < size
    requires Fetched(m, addr, size).exception == NoException
    ensures Mapped(m, addr + k) && ByteOf(Fetched(m, addr, size).value, k) == Seen(m, addr + k)
  {
    var t := Translated(m, addr, size, false);
    TranslateAssertHolds(m, addr, size, false);
    InPage(addr, k);
    LoadBytes(m.main, t.physAddr, size, k);
  }

  /** A write changes, of all the bytes any mapped address shows, exactly the `size` bytes written. */
  lemma WriteChangesExactly(m: Memory, addr: Word, size: nat, value: Word, a: nat)
    requires Injective(m) && (size == 1 || size == 2 || size == 4) && Mapped(m, a)
    ensures var r := Stored(m, addr, size, value);
      && Injective(r.mem) && SameMap(m, r.mem) && Mapped(r.mem, a)
      && (r.exception == NoException <==>
            Aligned(addr, size) && Mapped(m, addr) && !m.entries[addr / PAGE_SIZE].readOnly)
      && Seen(r.mem, a) == (if r.exception == NoException && addr <= a < addr + size then ByteOf(value, a - addr) else Seen(m, a))
  {
    hide ByteOf, Store;
    var t := Translated(m, addr, size, true);
    if t.exception == NoException {
      TranslateAssertHolds(m, addr, size, true);
      var i, j := addr / PAGE_SIZE, a / PAGE_SIZE;
      if addr <= a < addr + size {
        InPage(addr, a - addr);
      } else if i != j {
        assert Frame(m.entries[i]) != Frame(m.entries[j]);
      }
    }
  }

  datatype Write = Write(addr: Word, size: nat, value: Word)

  predicate ProperSizes(ws: seq<Write>) {
    forall i :: 0 <= i < |ws| ==> ws[i].size == 1 || ws[i].size == 2 || ws[i].size == 4
  }

  function AfterWrites(m: Memory, ws: seq<Write>): (m': Memory)
    requires m.Valid() && ProperSizes(ws)
    ensures m'.Valid()
    decreases |ws|
  {
    if ws == [] then m else
      AfterWrites(Stored(m, ws[0].addr, ws[0].size, ws[0].value).mem, ws[1..])
  }

  /** The write is allowed and covers `a`. */
  predicate Hits(m: Memory, w: Write, a: nat) {
    && Aligned(w.addr, w.size) && Mapped(m, w.addr) && !m.entries[w.addr / PAGE_SIZE].readOnly
    && w.addr <= a < w.addr + w.size
  }

  /** Flat memory: the last write that covers `a` and is allowed decides what is there. */
  function LastWritten(m: Memory, ws: seq<Write>, a: nat, first: Byte): Byte
  {
    if ws == [] then first else
      var w := ws[0];
      LastWritten(m, ws[1..], a, if Hits(m, w, a) then ByteOf(w.value, a - w.addr) else first)
  }

  /** After any sequence of writes, allowed or not, every address shows the last byte written there. */
  lemma {:induction false} PagedIsFlat(m: Memory, ws: seq<Write>, a: nat)
    requires Injective(m) && ProperSizes(ws) && Mapped(m, a)
    ensures Mapped(AfterWrites(m, ws), a)
    ensures Seen(AfterWrites(m, ws), a) == LastWritten(m, ws, a, Seen(m, a))
    decreases |ws|
  {
    if ws != [] {
      var w := ws[0];
      var m' := Stored(m, w.addr, w.size, w.value).mem;
      WriteChangesExactly(m, w.addr, w.size, w.value, a);
      PagedIsFlat(m', ws[1..], a);
      SameMapSameFate(m, m', ws[1..], a, Seen(m', a));
    }
  }

  lemma {:induction false} SameMapSameFate(m: Memory, m': Memory, ws: seq<Write>, a: nat, first: Byte)
    requires SameMap(m, m')
    ensures LastWritten(m, ws, a, first) == LastWritten(m', ws, a, first)
  {
    if ws != [] {
      var w := ws[0];
      assert forall i :: 0 <= i < |m.entries| ==>
        && m.entries[i].valid == m'.entries[i].valid
        && m.entries[i].readOnly == m'.entries[i].readOnly
        && Frame(m.entries[i]) == Frame(m'.entries[i]);
      assert Mapped(m, w.addr) == Mapped(m', w.addr);
      SameMapSameFate(m, m', ws[1..], a, if Hits(m, w, a) then ByteOf(w.value, a - w.addr) else first);
    }
  }

  // ---------------------------------------------------------------- the TLB

  /** Every valid TLB entry is a copy of the page table's entry for its page, up to the use and dirty bits. */
  predicate CopyOf(tlb: seq<Entry>, table: seq<Entry>) {
    forall i :: 0 <= i < |tlb| && tlb[i].valid ==>
      && 0 <= tlb[i].virtualPage < |table|
      && table[tlb[i].virtualPage].valid
      && table[tlb[i].virtualPage].physicalPage == tlb[i].physicalPage
      && table[tlb[i].virtualPage].readOnly == tlb[i].readOnly
  }

  /** On a hit, and on a misaligned address, the TLB gives the address or exception that the page table gives;
      on a miss it gives a page fault. */
  lemma TlbAgrees(main: seq<Byte>, tlb: seq<Entry>, table: seq<Entry>, addr: Word, size: nat, writing: bool)
    requires CopyOf(tlb, table)
    ensures var viaTlb := Translated(Memory(main, tlb, true), addr, size, writing);
      var viaTable := Translated(Memory(main, table, false), addr, size, writing);
      if Hit(tlb, addr / PAGE_SIZE, 0) < |tlb| || !Aligned(addr, size)
      then viaTlb.exception == viaTable.exception && viaTlb.physAddr == viaTable.physAddr
      else viaTlb.exception == PageFaultException
  {
  }

  /** The same memory behind a TLB and behind the page table that the TLB copies. */
  ghost predicate Mirrors(m: Memory, p: Memory) {
    m.Valid() && m.isTlb && !p.isTlb && m.main == p.main && CopyOf(m.entries, p.entries)
  }

  predicate Covers(m: Memory, addr: Word) {
    Hit(m.entries, addr / PAGE_SIZE, 0) < |m.entries|
  }

  lemma CopyOfSameMap(tlb: seq<Entry>, p: Memory, p': Memory)
    requires SameMap(p, p')
    ensures CopyOf(tlb, p.entries) <==> CopyOf(tlb, p'.entries)
  {
    assert forall i :: 0 <= i < |p.entries| ==>
      && p.entries[i].valid == p'.entries[i].valid && p.entries[i].readOnly == p'.entries[i].readOnly
      && p.entries[i].physicalPage == p'.entries[i].physicalPage;
  }

  /** A translation through the TLB leaves it a copy. */
  lemma TranslatedCopies(tlb: seq<Entry>, table: seq<Entry>, k: nat, writing: bool)
    requires CopyOf(tlb, table) && k < |tlb|
    ensures CopyOf(tlb[k := tlb[k].(use := true, dirty := tlb[k].dirty || writing)], table)
  {
  }

  lemma HitKept(tlb: seq<Entry>, k: nat, e: Entry, vpn: nat, i: nat)
    requires k < |tlb| && i <= |tlb| && e.valid == tlb[k].valid && e.virtualPage == tlb[k].virtualPage
    ensures Hit(tlb[k := e], vpn, i) == Hit(tlb, vpn, i)
    decreases |tlb| - i
  {
    if i < |tlb| {
      HitKept(tlb, k, e, vpn, i + 1);
    }
  }

  /** Translation through the TLB misses, or does what translation through the table does. */
  lemma TranslatedMirrored(m: Memory, p: Memory, addr: Word, size: nat, writing: bool, page: Word)
    requires Mirrors(m, p)
    ensures var r, q := Translated(m, addr, size, writing), Translated(p, addr, size, writing);
      && SameMap(p, q.mem) && q.mem.main == p.main && r.mem.main == m.main
      && (Covers(m, page) ==> Covers(r.mem, page))
      && if r.exception == PageFaultException then r.mem == m && (Covers(m, addr) ==> q.exception == r.exception && q.mem == p)
         else r.exception == q.exception && r.physAddr == q.physAddr && Mirrors(r.mem, q.mem)
  {
    TlbAgrees(m.main, m.entries, p.entries, addr, size, writing);
    var r, q := Translated(m, addr, size, writing), Translated(p, addr, size, writing);
    assert m == Memory(m.main, m.entries, true) && p == Memory(m.main, p.entries, false);
    if r.exception == NoException {
      var k := Hit(m.entries, addr / PAGE_SIZE, 0);
      TranslatedCopies(m.entries, p.entries, k, writing);
      HitKept(m.entries, k, r.mem.entries[k], page / PAGE_SIZE, 0);
      CopyOfSameMap(r.mem.entries, p, q.mem);
    }
  }

  /** A read through the TLB misses, or delivers what the table delivers. */
  lemma FetchedMirrored(m: Memory, p: Memory, addr: Word, size: nat, page: Word)
    requires Mirrors(m, p) && (size == 1 || size == 2 || size == 4)
    ensures var r, q := Fetched(m, addr, size), Fetched(p, addr, size);
      && SameMap(p, q.mem) && q.mem.main == p.main && (Covers(m, page) ==> Covers(r.mem, page))
      && if r.exception == PageFaultException then r.mem == m && (Covers(m, addr) ==> q == r.(mem := p))
         else r.exception == q.exception && r.value == q.value && Mirrors(r.mem, q.mem)
  {
    hide Translated, Load, Mirrors, SameMap, Covers;
    TranslatedMirrored(m, p, addr, size, false, page);
    MirrorsMain(m, p);
  }

  lemma MirrorsMain(m: Memory, p: Memory)
    requires Mirrors(m, p)
    ensures m.main == p.main && m.Valid() && p.Valid()
  {
  }

  /** A write through the TLB misses, or does what it does through the table. */
  lemma StoredMirrored(m: Memory, p: Memory, addr: Word, size: nat, value: Word)
    requires Mirrors(m, p) && (size == 1 || size == 2 || size == 4)
    ensures var r, q := Stored(m, addr, size, value), Stored(p, addr, size, value);
      && SameMap(p, q.mem)
      && if r.exception == PageFaultException then r.mem == m && (Covers(m, addr) ==> q == r.(mem := p))
         else r.exception == q.exception && r.value == q.value && Mirrors(r.mem, q.mem)
  {
    hide Translated, Store, Covers;
    TranslatedMirrored(m, p, addr, size, true, addr);
    if Translated(p, addr, size, true).exception == NoException {
      TranslateAssertHolds(p, addr, size, true);
    }
  }

  /** A write through a TLB that holds what the kernel has put there by then. */
  datatype TlbWrite = TlbWrite(tlb: seq<Entry>, write: Write)

  /** The TLB may be refilled with other copies of the table before each write. */
  ghost predicate Refills(table: seq<Entry>, ws: seq<TlbWrite>) {
    forall i :: 0 <= i < |ws| ==>
      CopyOf(ws[i].tlb, table) && (ws[i].write.size == 1 || ws[i].write.size == 2 || ws[i].write.size == 4)
  }

  ghost function AfterTlbWrites(main: seq<Byte>, table: seq<Entry>, ws: seq<TlbWrite>): (r: seq<Byte>)
    requires |main| == MEMORY_SIZE && Refills(table, ws)
    ensures |r| == MEMORY_SIZE
    decreases |ws|
  {
    if ws == [] then main else
      var w := ws[0].write;
      AfterTlbWrites(Stored(Memory(main, ws[0].tlb, true), w.addr, w.size, w.value).mem.main, table, ws[1..])
  }

  /** The writes that find their page in the TLB. */
  function Covered(ws: seq<TlbWrite>): seq<Write> {
    if ws == [] then [] else
      (if Hit(ws[0].tlb, ws[0].write.addr / PAGE_SIZE, 0) < |ws[0].tlb| then [ws[0].write] else []) + Covered(ws[1..])
  }

  /** What one write through the TLB changes of what the program sees. */
  lemma TlbWriteSeen(main: seq<Byte>, table: seq<Entry>, tlb: seq<Entry>, w: Write, a: nat)
    requires Injective(Memory(main, table, false)) && Mapped(Memory(main, table, false), a) && CopyOf(tlb, table)
    requires w.size == 1 || w.size == 2 || w.size == 4
    ensures var p, main' := Memory(main, table, false), Stored(Memory(main, tlb, true), w.addr, w.size, w.value).mem.main;
      && |main'| == MEMORY_SIZE
      && Seen(Memory(main', table, false), a) ==
           if Covers(Memory(main, tlb, true), w.addr) && Hits(p, w, a) then ByteOf(w.value, a - w.addr) else Seen(p, a)
  {
    var p, m := Memory(main, table, false), Memory(main, tlb, true);
    assert Mirrors(m, p);
    hide Stored, Injective, CopyOf, ByteOf, Covers, Mirrors, Mapped, Seen, SameMap, Hits;
    var r, q := Stored(m, w.addr, w.size, w.value), Stored(p, w.addr, w.size, w.value);
    StoredMirrored(m, p, w.addr, w.size, w.value);
    WriteHits(p, w, a);
    if !Covers(m, w.addr) {
      MissOrTrap(m, w);
    } else {
      SeenThroughTable(p, q.mem, a);
      if r.exception != PageFaultException {
        MirrorsMain(r.mem, q.mem);
      }
    }
  }

  lemma WriteHits(p: Memory, w: Write, a: nat)
    requires Injective(p) && Mapped(p, a) && (w.size == 1 || w.size == 2 || w.size == 4)
    ensures var q := Stored(p, w.addr, w.size, w.value).mem;
      && q.Valid() && SameMap(p, q) && Mapped(q, a)
      && Seen(q, a) == if Hits(p, w, a) then ByteOf(w.value, a - w.addr) else Seen(p, a)
  {
    hide Stored, ByteOf, Seen;
    WriteChangesExactly(p, w.addr, w.size, w.value, a);
  }

  /** Use and dirty bits do not change what is seen. */
  lemma SeenThroughTable(p: Memory, q: Memory, a: nat)
    requires SameMap(p, q) && Mapped(q, a) && !p.isTlb
    ensures Mapped(Memory(q.main, p.entries, false), a) && Seen(q, a) == Seen(Memory(q.main, p.entries, false), a)
  {
    var i := a / PAGE_SIZE;
    assert q.entries[i].(use := false, dirty := false) == p.entries[i].(use := false, dirty := false);
  }

  lemma MissOrTrap(m: Memory, w: Write)
    requires m.Valid() && m.isTlb && !Covers(m, w.addr) && (w.size == 1 || w.size == 2 || w.size == 4)
    ensures Stored(m, w.addr, w.size, w.value).mem == m
  {
  }

  /** Behind a TLB that copies an injective page table, too, and however it is refilled, paged memory is flat: every address
      shows the last byte written there by a write that was allowed and found its page in the TLB. */
  lemma {:induction false} TlbIsFlat(main: seq<Byte>, table: seq<Entry>, ws: seq<TlbWrite>, a: nat)
    requires Injective(Memory(main, table, false)) && Refills(table, ws) && Mapped(Memory(main, table, false), a)
    ensures var m := Memory(main, table, false);
      && Mapped(Memory(AfterTlbWrites(main, table, ws), table, false), a)
      && Seen(Memory(AfterTlbWrites(main, table, ws), table, false), a) == LastWritten(m, Covered(ws), a, Seen(m, a))
    decreases |ws|
  {
    if ws != [] {
      var p, w := Memory(main, table, false), ws[0].write;
      var main' := Stored(Memory(main, ws[0].tlb, true), w.addr, w.size, w.value).mem.main;
      TlbWriteSeen(main, table, ws[0].tlb, w, a);
      TlbIsFlat(main', table, ws[1..], a);
      var p' := Memory(main', table, false);
      SameMapSameFate(p, p', Covered(ws[1..]), a, Seen(p', a));
      assert Covered(ws) == [w] + Covered(ws[1..]) || Covered(ws) == Covered(ws[1..]);
      hide Seen, Stored, CopyOf, Hits;
    }
  }

  // ---------------------------------------------------------------- the machine's own form

  /** The memory part of class Machine: exactly one of `tlb` and `pageTable` is not NULL. */
  class AddressUnit {
    var mainMemory: array<Byte>
    var tlb: array?<Entry>
    var pageTable: array?<Entry>

    ghost predicate Valid()
      reads this
    {
      mainMemory.Length == MEMORY_SIZE && (tlb == null <==> pageTable != null)
    }

    ghost function Entries(): array<Entry>
      requires Valid()
      reads this
    {
      if tlb != null then tlb else pageTable
    }

    ghost function View(): Memory
      requires Valid()
      reads this, mainMemory, Entries()
    {
      Memory(mainMemory[..], Entries()[..], tlb != null)
    }

    method Translate(virtAddr: Word, size: nat, writing: bool) returns (exception: Exception, physAddr: nat)
      requires Valid()
      requires size == 1 || size == 2 || size == 4
      modifies Entries()
      ensures var t := Translated(old(View()), virtAddr, size, writing);
        exception == t.exception && physAddr == t.physAddr && View() == t.mem
    {
      physAddr := 0;
      if (size == 4 && virtAddr % 4 != 0) || (size == 2 && virtAddr % 2 != 0) {
        return AddressErrorException, 0;
      }
      var vpn, offset := virtAddr / PAGE_SIZE, virtAddr % PAGE_SIZE;
      var table: array<Entry>, i: nat;
      if tlb == null {
        table, i := pageTable, vpn;
        if vpn >= pageTable.Length {
          return AddressErrorException, 0;
        } else if !pageTable[vpn].valid {
          return PageFaultException, 0;
        }
      } else {
        table, i := tlb, 0;
        while i < tlb.Length && !(tlb[i].valid && tlb[i].virtualPage == vpn)
          invariant i <= tlb.Length
          invariant Hit(tlb[..], vpn, 0) == Hit(tlb[..], vpn, i)
        {
          i := i + 1;
        }
        if i == tlb.Length {
          return PageFaultException, 0;
        }
      }
      var entry := table[i];
      if entry.readOnly && writing {
        return ReadOnlyException, 0;
      }
      var pageFrame := Frame(entry);
      if pageFrame < 0 || pageFrame >= NUM_PHYS_PAGES {
        return BusErrorException, 0;
      }
      table[i] := entry.(use := true, dirty := entry.dirty || writing);
      exception, physAddr := NoException, pageFrame * PAGE_SIZE + offset;
    }

    method ReadMem(addr: Word, size: nat) returns (exception: Exception, value: Word)
      requires Valid()
      requires size == 1 || size == 2 || size == 4
      modifies Entries()
      ensures View().Valid()
      ensures var r := Fetched(old(View()), addr, size);
        exception == r.exception && value == r.value && View() == r.mem
    {
      var physicalAddress;
      value := 0;
      exception, physicalAddress := Translate(addr, size, false);
      if exception == NoException {
        TranslateAssertHolds(old(View()), addr, size, false);
        value := Load(mainMemory[..], physicalAddress, size);
      }
    }

    method WriteMem(addr: Word, size: nat, value: Word) returns (exception: Exception)
      requires Valid()
      requires size == 1 || size == 2 || size == 4
      modifies mainMemory, Entries()
      ensures View().Valid()
      ensures var r := Stored(old(View()), addr, size, value);
        exception == r.exception && View() == r.mem
    {
      var physicalAddress;
      exception, physicalAddress := Translate(addr, size, true);
      if exception == NoException {
        TranslateAssertHolds(old(View()), addr, size, true);
        ghost var was := mainMemory[..];
        ghost var entries := Entries()[..];
        for k := 0 to size
          modifies mainMemory
          invariant Entries()[..] == entries
          invariant mainMemory.Length == MEMORY_SIZE
          invariant forall q :: 0 <= q < MEMORY_SIZE ==>
            mainMemory[q] == if physicalAddress <= q < physicalAddress + k then ByteOf(value, q - physicalAddress) else was[q]
        {
          mainMemory[physicalAddress + k] := ByteOf(value, k);
        }
        assert mainMemory[..] == Store(was, physicalAddress, size, value);
      }
    }
  }
}
