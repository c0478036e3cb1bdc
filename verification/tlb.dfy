/**
 A TLB filled by software (machine/translate.cc, machine/mipssim.cc): every instruction through it either does what it does
 through the page table or raises a page fault and can be tried again.  The exception applies the pending load, so a program
 cannot tell its machine's TLB from a page table if it keeps its load delay slots clean.
 */
module SoftwareTlb {
  import opened Common
  import opened Bits
  import opened Memory
  import opened Mips
  import opened DelaySlot
  import opened Unaligned

  // ---------------------------------------------------------------- one instruction

  /** The same effect on another memory. */
  predicate SameEffect(e: Effect, f: Effect) {
    if e.Raise? then f.Raise? && e.exception == f.exception && e.badVAddr == f.badVAddr
    else f.Effect? && e.write == f.write && e.hi == f.hi && e.lo == f.lo && e.pcAfter == f.pcAfter && e.load == f.load
  }

  /** A page fault that leaves memory alone, or what happens behind the page table, to memories that still mirror. */
  ghost predicate Follows(e: Effect, f: Effect, p: Memory) {
    if e.Raise? && e.exception == PageFaultException then Mirrors(e.mem, p)
    else SameEffect(e, f) && Mirrors(e.mem, f.mem) && SameMap(p, f.mem)
  }

  /** The effect of an instruction that has none yet. */
  predicate IsPlain(e: Effect, f: Effect, m: Memory, p: Memory) {
    e.Effect? && f.Effect? && SameEffect(e, f) && e.mem == m && f.mem == p
  }

  lemma LoadFollows(e: Effect, f: Effect, i: Instruction, m: Memory, p: Memory, addr: Word, size: nat, byte: nat, merge: Word)
    requires Mirrors(m, p) && IsPlain(e, f, m, p) && (size == 1 || size == 2 || size == 4)
    ensures var r, q := LoadInto(e, i, m, addr, size, byte, merge), LoadInto(f, i, p, addr, size, byte, merge);
      Follows(r, q, p) && (Covers(m, addr) ==> SameEffect(r, q))
  {
    hide Fetched, LoadedValue, Covers, Mirrors, SameMap;
    MirrorsMain(m, p);
    FetchedMirrored(m, p, addr, size, addr);
  }

  lemma StoresFollow(e: Effect, f: Effect, m: Memory, p: Memory, addr: Word, size: nat, value: Word)
    requires Mirrors(m, p) && e.Effect? && f.Effect? && SameEffect(e, f) && (size == 1 || size == 2 || size == 4)
    ensures var r, q := Stores(e, m, addr, size, value), Stores(f, p, addr, size, value);
      Follows(r, q, p) && (Covers(m, addr) ==> SameEffect(r, q))
  {
    hide Stored, Covers, Mirrors, SameMap;
    MirrorsMain(m, p);
    StoredMirrored(m, p, addr, size, value);
  }

  lemma SamePage(addr: Word)
    ensures And(addr, 3) == addr % 4 && (addr - addr % 4) / PAGE_SIZE == addr / PAGE_SIZE
  {
    LowMasks(addr);
    hide And;
  }

  lemma CoversWord(m: Memory, addr: Word)
    ensures And(addr, 3) <= addr && (Covers(m, addr - And(addr, 3)) <==> Covers(m, addr))
  {
    SamePage(addr);
    hide And, Hit;
  }

  /** Still a mirror of the table as it was before use bits were set in it. */
  lemma MirrorsBack(m: Memory, p: Memory, p': Memory)
    requires Mirrors(m, p') && SameMap(p, p') && p.main == p'.main
    ensures Mirrors(m, p)
  {
    CopyOfSameMap(m.entries, p, p');
  }

  /** The store of SWL and SWR after their read. */
  lemma SecondHalfFollows(e: Effect, f: Effect, m: Memory, p: Memory, m': Memory, p': Memory, x: Word, value: Word)
    requires IsPlain(e, f, m, p) && Mirrors(m', p') && SameMap(p, p') && p.main == p'.main
    ensures var r, q := Stores(e, m', x, 4, value), Stores(f, p', x, 4, value);
      Follows(r, q, p) && (Covers(m', x) ==> SameEffect(r, q))
  {
    hide Stores, Covers, Mirrors, SameMap;
    MirrorsMain(m', p');
    StoresFollow(e, f, m', p', x, 4, value);
    var r, q := Stores(e, m', x, 4, value), Stores(f, p', x, 4, value);
    if SameMap(p', q.mem) {
      SameMapTransitive(p, p', q.mem);
    }
    if Mirrors(r.mem, p') {
      MirrorsBack(r.mem, p, p');
    }
  }

  /** SWL and SWR at byte `byte` of the aligned word at `x`. */
  function MergeStore(plain: Effect, op: Op, m: Memory, x: Word, byte: nat, t: Word): Effect
    requires m.Valid() && plain.Effect?
  {
    var r := Fetched(m, x, 4);
    if r.exception != NoException then Raise(r.exception, x, r.mem)
    else Stores(plain, r.mem, x, 4, if op == SWL then SwlMerge(byte, r.value, t) else SwrMerge(byte, r.value, t))
  }

  lemma MergeFaults(e: Effect, op: Op, m: Memory, x: Word, byte: nat, t: Word)
    requires m.Valid() && e.Effect?
    ensures var r, s := Fetched(m, x, 4), MergeStore(e, op, m, x, byte, t);
      if r.exception != NoException then s == Raise(r.exception, x, r.mem)
      else s == Stores(e, r.mem, x, 4, if op == SWL then SwlMerge(byte, r.value, t) else SwrMerge(byte, r.value, t))
  {
    hide Fetched, SwlMerge, SwrMerge, Stores;
  }

  lemma MergeFollows(e: Effect, f: Effect, op: Op, m: Memory, p: Memory, x: Word, byte: nat, t: Word)
    requires Mirrors(m, p) && IsPlain(e, f, m, p)
    ensures m.Valid() && p.Valid()
    ensures var r, q := MergeStore(e, op, m, x, byte, t), MergeStore(f, op, p, x, byte, t);
      Follows(r, q, p) && (Covers(m, x) ==> SameEffect(r, q))
  {
    hide MergeStore, Fetched, Covers, Mirrors, SameMap, SwlMerge, SwrMerge, Stores;
    MirrorsMain(m, p);
    var r, q := Fetched(m, x, 4), Fetched(p, x, 4);
    FetchedMirrored(m, p, x, 4, x);
    MergeFaults(e, op, m, x, byte, t);
    MergeFaults(f, op, p, x, byte, t);
    if r.exception == NoException {
      var value := if op == SWL then SwlMerge(byte, r.value, t) else SwrMerge(byte, r.value, t);
      SecondHalfFollows(e, f, m, p, r.mem, q.mem, x, value);
      hide Follows, SameEffect, IsPlain;
    }
  }

  lemma UnalignedFollows(e: Effect, f: Effect, op: Op, m: Memory, p: Memory, addr: Word, t: Word)
    requires Mirrors(m, p) && IsPlain(e, f, m, p)
    ensures var r, q := StoreUnaligned(e, op, m, addr, t), StoreUnaligned(f, op, p, addr, t);
      Follows(r, q, p) && (Covers(m, addr) ==> SameEffect(r, q))
  {
    CoversWord(m, addr);
    hide Fetched, Covers, SameMap, And, SwlMerge, SwrMerge, Stores;
    MirrorsMain(m, p);
    MergeFollows(e, f, op, m, p, addr - And(addr, 3), And(addr, 3), t);
    hide Mirrors, Follows, SameEffect;
  }

  predicate Loads(op: Op) {
    op == LB || op == LBU || op == LH || op == LHU || op == LW || op == LWL || op == LWR
  }

  lemma PlainLoadFollows(e: Effect, f: Effect, i: Instruction, m: Memory, p: Memory, addr: Word, t: Word, merge: Word)
    requires Mirrors(m, p) && IsPlain(e, f, m, p) && Loads(i.op) && i.op != LWL && i.op != LWR
    ensures m.Valid() && p.Valid()
    ensures var r, q := Transfer(e, i, m, addr, t, merge), Transfer(f, i, p, addr, t, merge);
      Follows(r, q, p) && (Covers(m, addr) ==> SameEffect(r, q))
  {
    hide LoadInto, Stores, StoreUnaligned, Covers, And, Mirrors, SameMap, Follows, SameEffect;
    MirrorsMain(m, p);
    SameMapReflexive(p);
    RaiseFollows(AddressErrorException, addr, m, p);
    if i.op == LB || i.op == LBU {
      LoadFollows(e, f, i, m, p, addr, 1, 0, 0);
    } else if i.op == LH || i.op == LHU {
      LoadFollows(e, f, i, m, p, addr, 2, 0, 0);
    } else {
      LoadFollows(e, f, i, m, p, addr, 4, 0, 0);
    }
  }

  lemma MergeLoadFollows(e: Effect, f: Effect, i: Instruction, m: Memory, p: Memory, addr: Word, t: Word, merge: Word)
    requires Mirrors(m, p) && IsPlain(e, f, m, p) && (i.op == LWL || i.op == LWR)
    ensures m.Valid() && p.Valid()
    ensures var r, q := Transfer(e, i, m, addr, t, merge), Transfer(f, i, p, addr, t, merge);
      Follows(r, q, p) && (Covers(m, addr) ==> SameEffect(r, q))
  {
    hide LoadInto, Covers, And, Mirrors, SameMap, Follows, SameEffect;
    MirrorsMain(m, p);
    CoversWord(m, addr);
    LoadFollows(e, f, i, m, p, addr - And(addr, 3), 4, And(addr, 3), merge);
  }

  lemma RaiseFollows(exception: Exception, addr: Word, m: Memory, p: Memory)
    requires Mirrors(m, p)
    ensures var r, q := Raise(exception, addr, m), Raise(exception, addr, p); Follows(r, q, p) && SameEffect(r, q)
  {
    SameMapReflexive(p);
  }

  lemma TransferFollows(e: Effect, f: Effect, i: Instruction, m: Memory, p: Memory, addr: Word, t: Word, merge: Word)
    requires Mirrors(m, p) && IsPlain(e, f, m, p) && Transfers(i.op)
    ensures m.Valid() && p.Valid()
    ensures var r, q := Transfer(e, i, m, addr, t, merge), Transfer(f, i, p, addr, t, merge);
      Follows(r, q, p) && (Covers(m, addr) ==> SameEffect(r, q))
  {
    MirrorsMain(m, p);
    hide LoadInto, Stores, StoreUnaligned, Covers, And, Mirrors, SameMap, Follows, SameEffect;
    if i.op == LWL || i.op == LWR {
      MergeLoadFollows(e, f, i, m, p, addr, t, merge);
      hide Transfer;
    } else if Loads(i.op) {
      PlainLoadFollows(e, f, i, m, p, addr, t, merge);
      hide Transfer;
    } else if i.op == SB || i.op == SH || i.op == SW {
      StoresFollow(e, f, m, p, addr, if i.op == SB then 1 else if i.op == SH then 2 else 4, t);
    } else {
      UnalignedFollows(e, f, i.op, m, p, addr, t);
    }
  }

  lemma ControlFollows(e: Effect, f: Effect, i: Instruction, nextPc: Word, s: Word, t: Word, m: Memory, p: Memory)
    requires Mirrors(m, p) && IsPlain(e, f, m, p) && !Transfers(i.op) && !Computes(i.op)
    ensures var r, q := Control(e, i, nextPc, s, t, m), Control(f, i, nextPc, s, t, p);
      SameEffect(r, q) && r.mem == m && q.mem == p
  {
    hide Branch, And, Or32, Shl, MultHi, MultLo, SignSet, TruncDiv, Wrap;
  }

  /** Every instruction through a TLB follows the page table that the TLB copies; it can only fault in between if the TLB
      lacks the page of its address. */
  lemma ExecuteFollows(o: Operands, i: Instruction, m: Memory, p: Memory)
    requires Mirrors(m, p)
    ensures m.Valid() && p.Valid()
    ensures var r, q := Execute(o, i, m), Execute(o, i, p);
      Follows(r, q, p) && (Covers(m, Wrap(o.s + i.extra)) ==> SameEffect(r, q))
  {
    hide Compute, Transfer, Control, Covers;
    MirrorsMain(m, p);
    var e := Effect(None, o.hi, o.lo, Wrap(o.nextPc + 4), (0, 0), m);
    var f := Effect(None, o.hi, o.lo, Wrap(o.nextPc + 4), (0, 0), p);
    if Transfers(i.op) {
      TransferFollows(e, f, i, m, p, Wrap(o.s + i.extra), o.t, o.merge);
    } else if !Computes(i.op) {
      ControlFollows(e, f, i, o.nextPc, o.s, o.t, m, p);
    }
    SameMapReflexive(p);
  }

  lemma SameMapReflexive(p: Memory)
    ensures p.Valid() ==> SameMap(p, p)
  {
  }

  lemma FinishFollows(c: Cpu, e: Effect, f: Effect)
    requires c.Valid() && SameEffect(e, f)
    ensures Finish(c, e).exception == Finish(c, f).exception && Finish(c, e).cpu == Finish(c, f).cpu
  {
    hide DelayedLoad;
  }

  /** A page fault leaves memory and counters as they were and the pending load applied; anything else is the result through
      the page table. */
  ghost predicate MissesOrAgrees(c: Cpu, r: Result, q: Result, p: Memory)
    requires c.Valid()
  {
    if r.exception == PageFaultException then Mirrors(r.mem, p) && r.cpu == RaiseException(c, r.cpu.badVAddr)
    else r.exception == q.exception && r.cpu == q.cpu && Mirrors(r.mem, q.mem) && SameMap(p, q.mem)
  }

  lemma RaiseMissed(c: Cpu, e: Effect)
    requires c.Valid() && e.Raise?
    ensures var r := Finish(c, e); r.exception == e.exception && r.cpu == RaiseException(c, r.cpu.badVAddr)
  {
  }

  lemma FinishMemory(c: Cpu, e: Effect)
    requires c.Valid()
    ensures Finish(c, e).mem == e.mem
  {
  }

  lemma NoFault(c: Cpu, e: Effect)
    requires c.Valid() && e.Effect?
    ensures Finish(c, e).exception == NoException
  {
  }

  lemma FollowsFinished(c: Cpu, e: Effect, f: Effect, p: Memory)
    requires c.Valid() && Follows(e, f, p)
    ensures var r, q := Finish(c, e), Finish(c, f);
      && MissesOrAgrees(c, r, q, p) && r.mem == e.mem && q.mem == f.mem
      && (SameEffect(e, f) ==> r.exception == q.exception && r.cpu == q.cpu)
  {
    FinishMemory(c, e);
    FinishMemory(c, f);
    if SameEffect(e, f) {
      FinishFollows(c, e, f);
    }
    if e.Raise? {
      RaiseMissed(c, e);
    } else {
      NoFault(c, e);
    }
    hide Finish, Mirrors, SameEffect;
  }

  lemma DoFollows(c: Cpu, i: Instruction, m: Memory, p: Memory)
    requires c.Valid() && Mirrors(m, p)
    ensures m.Valid() && p.Valid()
    ensures var r, q := Do(c, i, m), Do(c, i, p);
      && MissesOrAgrees(c, r, q, p)
      && (Covers(m, Address(c, i)) ==> r.exception == q.exception && r.cpu == q.cpu)
  {
    var o := OperandsOf(c, i);
    hide Execute, Finish, Covers, Mirrors, SameMap, SameEffect, MissesOrAgrees, Follows, Wrap;
    assert Address(c, i) == Wrap(o.s + i.extra);
    ExecuteFollows(o, i, m, p);
    DoIs(c, i, m);
    DoIs(c, i, p);
    hide Do, OperandsOf, Address;
    FollowsFinished(c, Execute(o, i, m), Execute(o, i, p), p);
  }

  lemma DoIs(c: Cpu, i: Instruction, m: Memory)
    requires c.Valid() && m.Valid()
    ensures Do(c, i, m) == Finish(c, Execute(OperandsOf(c, i), i, m))
  {
    hide Finish, Execute, OperandsOf;
  }

  /** The address that the instruction at the program counter would load from or store to. */
  function DataAddress(c: Cpu, m: Memory): Word
    requires c.Valid() && m.Valid()
  {
    Address(c, Decode(Fetched(m, c.pc, 4).value))
  }

  /** The pages that the next instruction needs are in the TLB. */
  predicate WorkingSet(c: Cpu, m: Memory, p: Memory)
    requires c.Valid() && p.Valid()
  {
    Covers(m, c.pc) && Covers(m, DataAddress(c, p))
  }

  lemma FetchThenDo(c: Cpu, m: Memory)
    requires c.Valid() && m.Valid()
    ensures var fetch := Fetched(m, c.pc, 4);
      OneInstruction(c, m) == if fetch.exception != NoException then Result(fetch.exception, RaiseException(c, c.pc), fetch.mem)
        else Do(c, Decode(fetch.value), fetch.mem)
  {
    hide Fetched, Decode, Execute, Finish;
  }

  lemma DoneFollows(c: Cpu, i: Instruction, m: Memory, p: Memory, p': Memory)
    requires c.Valid() && Mirrors(m, p') && SameMap(p, p') && p.main == p'.main
    ensures m.Valid() && p'.Valid()
    ensures var r, q := Do(c, i, m), Do(c, i, p');
      && MissesOrAgrees(c, r, q, p)
      && (Covers(m, Address(c, i)) ==> r.exception == q.exception && r.cpu == q.cpu)
  {
    DoFollows(c, i, m, p');
    var r, q := Do(c, i, m), Do(c, i, p');
    hide Do, Covers, Mirrors, SameMap, Address;
    if SameMap(p', q.mem) {
      SameMapTransitive(p, p', q.mem);
    }
    if Mirrors(r.mem, p') {
      MirrorsBack(r.mem, p, p');
    }
  }

  lemma BadAddress(c: Cpu, x: Word)
    requires c.Valid()
    ensures RaiseException(c, x).badVAddr == x
  {
  }

  lemma FetchFaults(c: Cpu, m: Memory, p: Memory)
    requires c.Valid() && Mirrors(m, p)
    ensures m.Valid() && p.Valid()
    ensures Fetched(m, c.pc, 4).exception != NoException ==>
      var r, q := OneInstruction(c, m), OneInstruction(c, p);
      MissesOrAgrees(c, r, q, p) && (Covers(m, c.pc) ==> r.exception == q.exception && r.cpu == q.cpu)
  {
    MirrorsMain(m, p);
    FetchedMirrored(m, p, c.pc, 4, c.pc);
    FetchThenDo(c, m);
    FetchThenDo(c, p);
    BadAddress(c, c.pc);
    hide OneInstruction, Fetched, Do, Covers, Mirrors, SameMap, Decode, RaiseException;
  }

  lemma FetchGoesOn(c: Cpu, m: Memory, p: Memory)
    requires c.Valid() && Mirrors(m, p)
    ensures m.Valid() && p.Valid()
    ensures Fetched(m, c.pc, 4).exception == NoException ==>
      var r, q := OneInstruction(c, m), OneInstruction(c, p);
      && MissesOrAgrees(c, r, q, p)
      && (Covers(m, DataAddress(c, p)) ==> r.exception == q.exception && r.cpu == q.cpu)
  {
    MirrorsMain(m, p);
    FetchThenDo(c, m);
    FetchThenDo(c, p);
    var r, q := Fetched(m, c.pc, 4), Fetched(p, c.pc, 4);
    FetchedMirrored(m, p, c.pc, 4, DataAddress(c, p));
    hide OneInstruction, Fetched, Do, Covers, Mirrors, SameMap, Decode, RaiseException, Address;
    if r.exception == NoException {
      DoneFollows(c, Decode(r.value), r.mem, p, q.mem);
      hide MissesOrAgrees;
    }
  }

  /** One turn of the machine through a TLB is a miss, or what it is through the page table; it is no miss if the TLB has the
      pages that the instruction needs. */
  lemma OneFollows(c: Cpu, m: Memory, p: Memory)
    requires c.Valid() && Mirrors(m, p)
    ensures m.Valid() && p.Valid()
    ensures var r, q := OneInstruction(c, m), OneInstruction(c, p);
      && MissesOrAgrees(c, r, q, p)
      && (WorkingSet(c, m, p) ==> r.exception == q.exception && r.cpu == q.cpu)
  {
    MirrorsMain(m, p);
    FetchFaults(c, m, p);
    FetchGoesOn(c, m, p);
    FetchedRaises(c, m);
    hide OneInstruction, Fetched, DataAddress, MissesOrAgrees, Covers, SameMap;
  }

  lemma FetchedRaises(c: Cpu, m: Memory)
    requires c.Valid() && m.Valid()
    ensures Fetched(m, c.pc, 4).exception != NoException ==> OneInstruction(c, m).exception == Fetched(m, c.pc, 4).exception
  {
    hide Fetched, Decode, Execute, Finish;
  }

  // ---------------------------------------------------------------- unaligned words through a TLB

  /** The memory as the page table shows it. */
  function Table(m: Memory, table: seq<Entry>): Memory {
    Memory(m.main, table, false)
  }

  /** A memory with a TLB that holds some copies of the table's entries. */
  ghost predicate Cached(m: Memory, table: seq<Entry>) {
    m.Valid() && m.isTlb && CopyOf(m.entries, table)
  }

  /** The memory that an instruction finds: the one before left it so, but the TLB may have been refilled. */
  ghost predicate RefilledAfter(r: Result, m': Memory, table: seq<Entry>) {
    Cached(m', table) && m'.main == r.mem.main
  }

  /** What completes through the TLB completes behind the page table with the same outcome. */
  lemma DoneBehind(c: Cpu, i: Instruction, m: Memory, table: seq<Entry>, r: Result)
    requires c.Valid() && Cached(m, table) && r == Do(c, i, m) && Ok(r)
    ensures var q := Do(c, i, Table(m, table));
      && Ok(q) && q.cpu == r.cpu && q.mem.main == r.mem.main && q.mem.Valid()
      && SameMap(q.mem, Table(r.mem, table)) && SameMap(Table(m, table), q.mem)
  {
    hide Do;
    var p := Table(m, table);
    DoFollows(c, i, m, p);
    var q := Do(c, i, p);
    MirrorsMain(r.mem, q.mem);
    hide CopyOf, RaiseException;
  }

  lemma BehindAfter(c: Cpu, i: Instruction, m: Memory, table: seq<Entry>, r: Result, m': Memory)
    requires c.Valid() && Cached(m, table) && r == Do(c, i, m) && Ok(r) && RefilledAfter(r, m', table)
    ensures FetchedAfter(Do(c, i, Table(m, table)), Table(m', table)) && Ok(Do(c, i, Table(m, table)))
  {
    hide Do, SameMap, CopyOf;
    DoneBehind(c, i, m, table, r);
  }

  /** LWR and LWL through a TLB: the load that is then pending has the four bytes that the program sees. */
  lemma TlbLoadPair(c: Cpu, i: Instruction, m: Memory, table: seq<Entry>, r: Result, m': Memory, r': Result, k: nat)
    requires Good(c) && Cached(m, table) && i.op == LWR && (c.loadReg == 0 || c.loadReg != i.rs) && k < 4
    requires r == Do(c, i, m) && Ok(r) && RefilledAfter(r, m', table)
    requires r' == Do(r.cpu, Second(i, LWL), m') && Ok(r')
    ensures r'.cpu.loadReg == i.rt
    ensures var p, v := Table(m, table), At(Address(c, i), k); Mapped(p, v) && ByteOf(r'.cpu.loadValue, k) == Seen(p, v)
  {
    hide Do, Mapped, Seen, At, Address, ByteOf, FetchedAfter, SameMap, CopyOf;
    var p, p' := Table(m, table), Table(m', table);
    DoneBehind(c, i, m, table, r);
    BehindAfter(c, i, m, table, r, m');
    RegisterZeroDone(c, i, m);
    DoneBehind(r.cpu, Second(i, LWL), m', table, r');
    LoadPair(c, i, p, Do(c, i, p), p', Do(r.cpu, Second(i, LWL), p'), k);
  }

  /** SWR and SWL through a TLB change exactly the four bytes from the address on, as the program sees them. */
  lemma TlbStorePair(c: Cpu, i: Instruction, m: Memory, table: seq<Entry>, r: Result, m': Memory, r': Result, v: nat)
    requires Good(c) && Cached(m, table) && Injective(Table(m, table)) && Mapped(Table(m, table), v) && i.op == SWR
    requires c.loadReg == 0 || (c.loadReg != i.rs && c.loadReg != i.rt)
    requires r == Do(c, i, m) && Ok(r) && RefilledAfter(r, m', table)
    requires r' == Do(r.cpu, Second(i, SWL), m') && Ok(r')
    ensures var p, p' := Table(m, table), Table(r'.mem, table);
      && p'.Valid() && Mapped(p', v)
      && (forall k :: 0 <= k < 4 && v == At(Address(c, i), k) ==> Seen(p', v) == ByteOf(c.gpr[i.rt], k))
      && ((forall k :: 0 <= k < 4 ==> v != At(Address(c, i), k)) ==> Seen(p', v) == Seen(p, v))
  {
    hide Do, Mapped, Seen, At, Address, ByteOf, FetchedAfter, SameMap, CopyOf, Injective;
    var p, p' := Table(m, table), Table(m', table);
    DoneBehind(c, i, m, table, r);
    BehindAfter(c, i, m, table, r, m');
    RegisterZeroDone(c, i, m);
    DoneBehind(r.cpu, Second(i, SWL), m', table, r');
    var q' := Do(r.cpu, Second(i, SWL), p');
    StorePair(c, i, p, Do(c, i, p), p', q', v);
    SameSeen(q'.mem, Table(r'.mem, table), v);
  }

  /** What SWR and SWL store through a TLB, LWR and LWL at the same address load, however the TLB is refilled. */
  lemma TlbStoreThenLoad(
    c: Cpu, i: Instruction, m: Memory, table: seq<Entry>, r: Result, m': Memory, r': Result,
    d: Cpu, j: Instruction, n: Memory, s: Result, n': Memory, s': Result)
    requires Good(c) && Cached(m, table) && Injective(Table(m, table))
    requires i.op == SWR && (c.loadReg == 0 || (c.loadReg != i.rs && c.loadReg != i.rt))
    requires r == Do(c, i, m) && Ok(r) && RefilledAfter(r, m', table)
    requires r' == Do(r.cpu, Second(i, SWL), m') && Ok(r') && RefilledAfter(r', n, table)
    requires Good(d) && j.op == LWR && (d.loadReg == 0 || d.loadReg != j.rs) && Address(d, j) == Address(c, i)
    requires s == Do(d, j, n) && Ok(s) && RefilledAfter(s, n', table)
    requires s' == Do(s.cpu, Second(j, LWL), n') && Ok(s')
    ensures s'.cpu.loadReg == j.rt && s'.cpu.loadValue == c.gpr[i.rt]
  {
    hide Do, Address, FetchedAfter, SameMap, CopyOf, Injective, Second;
    var p, p', o, o' := Table(m, table), Table(m', table), Table(n, table), Table(n', table);
    DoneBehind(c, i, m, table, r);
    BehindAfter(c, i, m, table, r, m');
    RegisterZeroDone(c, i, m);
    DoneBehind(r.cpu, Second(i, SWL), m', table, r');
    BehindAfter(r.cpu, Second(i, SWL), m', table, r', n);
    DoneBehind(d, j, n, table, s);
    BehindAfter(d, j, n, table, s, n');
    RegisterZeroDone(d, j, n);
    DoneBehind(s.cpu, Second(j, LWL), n', table, s');
    StoreThenLoad(c, i, p, Do(c, i, p), p', Do(r.cpu, Second(i, SWL), p'),
                  d, j, o, Do(d, j, o), o', Do(s.cpu, Second(j, LWL), o'));
  }

  // ---------------------------------------------------------------- whole programs

  /** The processor without the address of its last exception. */
  function Forget(c: Cpu): Cpu {
    c.(badVAddr := 0)
  }

  /** Level with `c`, or one flush of the pending load ahead; the address of the last exception aside. */
  predicate Near(c: Cpu, t: Cpu)
    requires c.Valid()
  {
    Live(Forget(t)) == Live(Forget(c)) || Forget(t) == Settle(Forget(c))
  }

  /** No instruction reads the address of the last exception. */
  lemma BadAddressUnread(c: Cpu, m: Memory)
    requires c.Valid() && m.Valid()
    ensures var r, q := OneInstruction(c, m), OneInstruction(Forget(c), m);
      && r.exception == q.exception && r.mem == q.mem
      && (if r.exception == NoException then Forget(r.cpu) == Forget(q.cpu) else r.cpu == q.cpu)
  {
    hide Fetched, Decode, Execute;
  }

  lemma SlotCleanForget(c: Cpu, m: Memory)
    requires c.Valid() && m.Valid()
    ensures SlotClean(Forget(c), m) == SlotClean(c, m)
  {
    hide Fetched, Decode;
  }

  /** Processors that are near do the same if the delay slot is clean. */
  lemma NearStep(c: Cpu, t: Cpu, m: Memory)
    requires Good(c) && Good(t) && m.Valid() && Near(c, t) && SlotClean(c, m)
    ensures var r, q := OneInstruction(t, m), OneInstruction(c, m);
      && r.exception == q.exception && r.mem == q.mem
      && Live(Forget(r.cpu)) == Live(Forget(q.cpu)) && (r.exception != NoException ==> r.cpu == q.cpu)
  {
    BadAddressUnread(c, m);
    BadAddressUnread(t, m);
    SlotCleanForget(c, m);
    var c', t' := Forget(c), Forget(t);
    TrapSettles(c', m);
    TrapSettles(t', m);
    hide OneInstruction, SlotClean;
    if t' == Settle(c') {
      FlushInvisible(c', m);
    } else {
      LiveIsEnough(t', c', m);
    }
  }

  /** A miss flushes the pending load and nothing else. */
  lemma MissedNear(c: Cpu, t: Cpu, x: Word)
    requires Good(c) && Good(t) && Near(c, t)
    ensures Good(RaiseException(t, x)) && Near(c, RaiseException(t, x))
  {
    var c', t' := Forget(c), Forget(t);
    assert Forget(RaiseException(t, x)) == Settle(t');
    if t' == Settle(c') {
      SettleTwice(c');
    } else {
      SettleLive(c', t');
    }
  }

  /** How a run ends: with NoException when its turns are used up, or with the first exception that is the kernel's business;
      `steps` counts the turns that were no miss. */
  datatype Ran = Ran(exception: Exception, cpu: Cpu, mem: Memory, steps: nat)

  /** The same end one turn later. */
  function Later(r: Ran): Ran {
    r.(steps := r.steps + 1)
  }

  /** The program behind a page table, for `n` turns or until an exception. */
  function TableRun(c: Cpu, p: Memory, n: nat): (r: Ran)
    requires c.Valid() && p.Valid()
    ensures r.cpu.Valid()
    decreases n
  {
    if n == 0 then Ran(NoException, c, p, 0) else
      RegisterZero(c, p);
      var r := OneInstruction(c, p);
      if r.exception != NoException then Ran(r.exception, r.cpu, r.mem, 1)
      else Later(TableRun(r.cpu, r.mem, n - 1))
  }

  /** The program behind a TLB, which before each turn has whatever the kernel has put there; after a page fault the
      instruction is tried again. */
  function TlbRun(c: Cpu, m: Memory, refills: seq<seq<Entry>>): (r: Ran)
    requires c.Valid() && m.Valid()
    ensures r.cpu.Valid()
    decreases |refills|
  {
    if refills == [] then Ran(NoException, c, m, 0) else
      RegisterZero(c, m.(entries := refills[0]));
      var r := OneInstruction(c, m.(entries := refills[0]));
      if r.exception == PageFaultException then TlbRun(r.cpu, r.mem, refills[1..])
      else if r.exception != NoException then Ran(r.exception, r.cpu, r.mem, 1)
      else Later(TlbRun(r.cpu, r.mem, refills[1..]))
  }

  /** The load delay slots of `n` turns, or of those up to an exception, are clean. */
  predicate CleanRun(c: Cpu, p: Memory, n: nat)
    requires c.Valid() && p.Valid()
    decreases n
  {
    n == 0 ||
      (RegisterZero(c, p);
       var r := OneInstruction(c, p);
       SlotClean(c, p) && (r.exception == NoException ==> CleanRun(r.cpu, r.mem, n - 1)))
  }

  ghost predicate Copies(refills: seq<seq<Entry>>, p: Memory) {
    forall k :: 0 <= k < |refills| ==> CopyOf(refills[k], p.entries)
  }

  /** The two runs end alike: after as many turns, with the same memory and the same registers once the pending loads are
      applied; an exception finds all registers the same. */
  ghost predicate EndsAs(a: Ran, b: Ran)
    requires a.cpu.Valid() && b.cpu.Valid()
  {
    && a.exception == b.exception && a.mem.main == b.mem.main && a.steps == b.steps
    && Settle(Forget(a.cpu)) == Settle(Forget(b.cpu)) && (a.exception != NoException ==> a.cpu == b.cpu)
  }

  lemma RefillMirrors(m: Memory, p: Memory, tlb: seq<Entry>)
    requires Mirrors(m, p) && CopyOf(tlb, p.entries)
    ensures Mirrors(m.(entries := tlb), p)
  {
  }

  lemma CopiesFirst(refills: seq<seq<Entry>>, p: Memory)
    requires Copies(refills, p) && refills != []
    ensures CopyOf(refills[0], p.entries)
  {
    hide CopyOf;
  }

  lemma CopiesOn(refills: seq<seq<Entry>>, p: Memory, p': Memory)
    requires Copies(refills, p) && SameMap(p, p') && refills != []
    ensures Copies(refills[1..], p')
  {
    hide CopyOf, SameMap;
    forall k | 0 <= k < |refills| - 1 ensures CopyOf(refills[1..][k], p'.entries) {
      assert CopyOf(refills[k + 1], p.entries);
      CopyOfSameMap(refills[k + 1], p, p');
    }
  }

  lemma NearSettles(c: Cpu, t: Cpu)
    requires c.Valid() && t.Valid() && Near(c, t)
    ensures Settle(Forget(t)) == Settle(Forget(c))
  {
    if Forget(t) == Settle(Forget(c)) {
      SettleTwice(Forget(c));
    } else {
      SettleLive(Forget(c), Forget(t));
    }
  }

  lemma {:induction false} CleanPrefix(c: Cpu, p: Memory, n: nat, k: nat)
    requires c.Valid() && p.Valid() && k <= n && CleanRun(c, p, n)
    ensures CleanRun(c, p, k)
    decreases k
  {
    hide OneInstruction, SlotClean;
    if k > 0 {
      RegisterZero(c, p);
      var r := OneInstruction(c, p);
      if r.exception == NoException {
        CleanPrefix(r.cpu, r.mem, n - 1, k - 1);
      }
    }
  }

  /** One attempt at an instruction through a copy of the page table: a miss after which the processors are still near, or
      the same instruction on both. */
  lemma Attempt(c: Cpu, t: Cpu, m: Memory, p: Memory)
    requires Good(c) && Good(t) && Near(c, t) && Mirrors(m, p) && p.Valid() && SlotClean(c, p)
    ensures m.Valid()
    ensures var r, q := OneInstruction(t, m), OneInstruction(c, p);
      && Good(r.cpu) && Good(q.cpu)
      && if r.exception == PageFaultException then Mirrors(r.mem, p) && Near(c, r.cpu)
         else r.exception == q.exception && Mirrors(r.mem, q.mem) && (r.exception != NoException ==> r.cpu == q.cpu)
              && Near(q.cpu, r.cpu) && SameMap(p, q.mem)
  {
    MirrorsMain(m, p);
    RegisterZero(c, p);
    RegisterZero(t, m);
    OneFollows(t, m, p);
    NearStep(c, t, p);
    var r, q := OneInstruction(t, m), OneInstruction(c, p);
    hide OneInstruction, SlotClean, Near, Mirrors, SameMap, WorkingSet;
    if r.exception == PageFaultException {
      MissedNear(c, t, r.cpu.badVAddr);
    }
  }

  /** The first turn of the run through the TLB. */
  lemma TlbTurn(t: Cpu, m: Memory, refills: seq<seq<Entry>>)
    requires t.Valid() && m.Valid() && refills != []
    ensures var r := OneInstruction(t, m.(entries := refills[0]));
      && r.cpu.Valid() && r.mem.Valid()
      && TlbRun(t, m, refills) ==
           if r.exception == PageFaultException then TlbRun(r.cpu, r.mem, refills[1..])
           else if r.exception != NoException then Ran(r.exception, r.cpu, r.mem, 1)
           else Later(TlbRun(r.cpu, r.mem, refills[1..]))
  {
    RegisterZero(t, m.(entries := refills[0]));
    hide OneInstruction;
  }

  /** The first turn of the run through the page table. */
  lemma TableTurn(c: Cpu, p: Memory, n: nat)
    requires c.Valid() && p.Valid()
    ensures var q := OneInstruction(c, p);
      && q.cpu.Valid() && q.mem.Valid()
      && TableRun(c, p, n + 1) ==
           (if q.exception != NoException then Ran(q.exception, q.cpu, q.mem, 1) else Later(TableRun(q.cpu, q.mem, n)))
      && (CleanRun(c, p, n + 1) <==> SlotClean(c, p) && (q.exception == NoException ==> CleanRun(q.cpu, q.mem, n)))
  {
    RegisterZero(c, p);
    hide OneInstruction, SlotClean;
  }

  lemma EndsAsLater(a: Ran, b: Ran)
    requires a.cpu.Valid() && b.cpu.Valid() && EndsAs(a, b)
    ensures EndsAs(Later(a), Later(b))
  {
    hide Settle, Forget;
  }

  /** Two runs that end alike after a turn on both ended alike with it. */
  lemma TurnEnds(c: Cpu, t: Cpu, m: Memory, p: Memory, refills: seq<seq<Entry>>)
    requires c.Valid() && t.Valid() && m.Valid() && p.Valid() && refills != []
    requires var r, q := OneInstruction(t, m.(entries := refills[0])), OneInstruction(c, p);
      && r.exception == q.exception == NoException && r.cpu.Valid() && r.mem.Valid() && q.cpu.Valid() && q.mem.Valid()
      && var rest := TlbRun(r.cpu, r.mem, refills[1..]); EndsAs(rest, TableRun(q.cpu, q.mem, rest.steps))
    ensures EndsAs(TlbRun(t, m, refills), TableRun(c, p, TlbRun(t, m, refills).steps))
  {
    hide OneInstruction, TlbRun, TableRun, EndsAs, CleanRun, SlotClean;
    TlbTurn(t, m, refills);
    var r, q := OneInstruction(t, m.(entries := refills[0])), OneInstruction(c, p);
    var rest := TlbRun(r.cpu, r.mem, refills[1..]);
    TableTurn(c, p, rest.steps);
    EndsAsLater(rest, TableRun(q.cpu, q.mem, rest.steps));
  }

  /** So do two runs that an exception ends. */
  lemma TrapEnds(c: Cpu, t: Cpu, m: Memory, p: Memory, refills: seq<seq<Entry>>)
    requires c.Valid() && t.Valid() && m.Valid() && p.Valid() && refills != []
    requires var r, q := OneInstruction(t, m.(entries := refills[0])), OneInstruction(c, p);
      && r.exception == q.exception != NoException && r.exception != PageFaultException && r.cpu == q.cpu
      && r.mem.main == q.mem.main
    ensures EndsAs(TlbRun(t, m, refills), TableRun(c, p, TlbRun(t, m, refills).steps))
  {
    hide OneInstruction, TlbRun, TableRun, CleanRun, SlotClean, Settle, Forget, Later;
    TlbTurn(t, m, refills);
    TableTurn(c, p, 0);
  }

  /** A program that keeps its load delay slots clean cannot tell a TLB that misses and is refilled, in whatever way, from the
      page table that the TLB copies. */
  lemma {:induction false} RefillsInvisible(c: Cpu, t: Cpu, m: Memory, p: Memory, refills: seq<seq<Entry>>)
    requires Good(c) && Good(t) && Near(c, t) && Mirrors(m, p) && p.Valid() && Copies(refills, p)
    requires CleanRun(c, p, |refills|) && m.Valid()
    ensures EndsAs(TlbRun(t, m, refills), TableRun(c, p, TlbRun(t, m, refills).steps))
    decreases |refills|
  {
    hide OneInstruction, SlotClean, Mirrors, SameMap, CopyOf, Settle, Live, Forget, Copies;
    MirrorsMain(m, p);
    if refills == [] {
      NearSettles(c, t);
    } else {
      hide Near, TlbRun, TableRun, CleanRun, EndsAs;
      var m' := m.(entries := refills[0]);
      CopiesFirst(refills, p);
      RefillMirrors(m, p, refills[0]);
      TableTurn(c, p, |refills| - 1);
      Attempt(c, t, m', p);
      TlbTurn(t, m, refills);
      var r, q := OneInstruction(t, m'), OneInstruction(c, p);
      if r.exception == PageFaultException {
        CleanPrefix(c, p, |refills|, |refills| - 1);
        SameMapReflexive(p);
        CopiesOn(refills, p, p);
        RefillsInvisible(c, r.cpu, r.mem, p, refills[1..]);
      } else if r.exception == NoException {
        CopiesOn(refills, p, q.mem);
        RefillsInvisible(q.cpu, r.cpu, r.mem, q.mem, refills[1..]);
        TurnEnds(c, t, m, p, refills);
      } else {
        MirrorsMain(r.mem, q.mem);
        TrapEnds(c, t, m, p, refills);
      }
    }
  }
}
