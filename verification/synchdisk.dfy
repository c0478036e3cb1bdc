/**
 SynchDisk (filesys/synchdisk.cc) over the raw disk's request protocol (machine/disk.cc): any number of threads
 reading and writing sectors.  The lock, the semaphore and the interrupt are those of module ExclusiveUse; here it is the data
 that counts.
 */
module SynchDisk {
  import opened Common
  import T = Threads
  import M = Monitor
  import U = ExclusiveUse

  type ThreadId = T.ThreadId
  type Data = seq<nat>

  datatype Request = Read(sector: nat) | Write(sector: nat, data: Data)

  /** `requests` has what the calls under way ask for, `buffers` the callers' buffers, which ReadRequest fills.
      `stored` is history: the data of the last completed WriteSector on each sector. */
  datatype SynchDisk = SynchDisk(
    u: U.Client,
    active: bool,
    sectors: seq<Data>,
    requests: map<ThreadId, Request>,
    buffers: map<ThreadId, Data>,
    stored: seq<Data>)

  datatype Action =
    | Start(request: Request)   // ReadSector or WriteSector is called
    | RequestIo                 // disk->ReadRequest / WriteRequest
    | AwaitDone                 // one turn of semaphore->P()
    | Interrupt                 // Disk::CallBack, then SynchDisk::CallBack
    | Lock(a: M.Action)         // the code of Lock and the kernel

  function Use(a: Action): U.Action {
    match a
    case Start(_) => U.Enter
    case RequestIo => U.Start
    case AwaitDone => U.AwaitDone
    case Interrupt => U.Interrupt
    case Lock(ma) => U.Lock(ma)
  }

  predicate Enabled(d: SynchDisk, a: Action) {
    (a.Start? ==> a.request.sector < |d.sectors|) && U.Enabled(d.u, Use(a))
  }

  /** ASSERT(!active) and the range check of ReadRequest and WriteRequest. */
  predicate Asserts(d: SynchDisk, a: Action) {
    var t := d.u.m.k.current;
    && (a.RequestIo? ==> !d.active && t in d.requests && d.requests[t].sector < |d.sectors|)
    && U.Asserts(d.u, Use(a))
  }

  function Next(d: SynchDisk, a: Action): SynchDisk {
    var t := d.u.m.k.current;
    var d' := d.(u := U.Next(d.u, Use(a)));
    match a
    case Start(request) => d'.(requests := d.requests[t := request], buffers := d.buffers[t := []])
    case RequestIo =>
      if t in d.requests && d.requests[t].sector < |d.sectors| then
        match d.requests[t]
        case Read(n) => d'.(active := true, buffers := d.buffers[t := d.sectors[n]])
        case Write(n, data) => d'.(active := true, sectors := d.sectors[n := data])
      else d'
    case AwaitDone =>
      if U.Completes(d.u, U.AwaitDone) && t in d.requests && d.requests[t].Write? && d.requests[t].sector < |d.stored|
      then d'.(stored := d.stored[d.requests[t].sector := d.requests[t].data]) else d'
    case Interrupt => d'.(active := false)
    case Lock(_) => d'
  }

  // ---------------------------------------------------------------- invariant

  predicate RequestInv(d: SynchDisk, t: ThreadId) {
    d.u.StepOf(t).Some? ==> t in d.requests && t in d.buffers && d.requests[t].sector < |d.sectors|
  }

  /** The sectors hold the completed writes, and the write in progress if there is one;
      the buffer of a read past RequestIo holds the last completed write. */
  predicate DataInv(d: SynchDisk) {
    && |d.sectors| == |d.stored|
    && match d.u.m.owner
       case None => d.sectors == d.stored
       case Some(t) =>
         && (d.u.StepOf(t).Some? ==> RequestInv(d, t))
         && var step := d.u.StepOf(t);
         && d.sectors == (if step == Some(U.ToWait) && t in d.requests && d.requests[t].Write? && d.requests[t].sector < |d.stored|
                          then d.stored[d.requests[t].sector := d.requests[t].data] else d.stored)
         && (step.Some? && step != Some(U.ToStart) && d.requests[t].Read? ==>
               d.buffers[t] == d.stored[d.requests[t].sector])
  }

  ghost predicate Inv(d: SynchDisk) {
    && U.Inv(d.u)
    && (forall t: ThreadId :: RequestInv(d, t))
    && d.u.pending == (if d.active then 1 else 0)
    && DataInv(d)
  }

  lemma RequestKept(d: SynchDisk, a: Action, t: ThreadId)
    requires RequestInv(d, t) && Enabled(d, a)
    ensures RequestInv(Next(d, a), t)
  {
    U.OnlyEnterBegins(d.u, Use(a), t);
    hide U.Next, U.Enabled;
  }

  /** What an action does to the data depends on the owner's step alone. */
  ghost predicate DataContext(d: SynchDisk, a: Action) {
    && DataInv(d) && Enabled(d, a) && RequestInv(d, d.u.m.k.current)
    && U.OwnerMoves(d.u, Use(a), U.Next(d.u, Use(a)))
  }

  lemma RequestKeepsData(d: SynchDisk, a: Action)
    requires DataContext(d, a) && a.RequestIo?
    ensures DataInv(Next(d, a))
  {
    hide U.Next, U.Enabled, U.Completes;
  }

  lemma AwaitKeepsData(d: SynchDisk, a: Action)
    requires DataContext(d, a) && a.AwaitDone?
    ensures DataInv(Next(d, a))
  {
    hide U.Next, U.Enabled, U.Completes;
  }

  lemma OtherwiseDataKept(d: SynchDisk, a: Action)
    requires DataContext(d, a) && !a.RequestIo? && !a.AwaitDone?
    ensures DataInv(Next(d, a))
  {
    hide U.Next, U.Enabled, U.Completes;
  }

  lemma DataKept(d: SynchDisk, a: Action)
    requires DataContext(d, a)
    ensures DataInv(Next(d, a))
  {
    hide DataContext, DataInv, Next;
    if a.RequestIo? {
      RequestKeepsData(d, a);
    } else if a.AwaitDone? {
      AwaitKeepsData(d, a);
    } else {
      OtherwiseDataKept(d, a);
    }
  }

  lemma ActiveKept(d: SynchDisk, a: Action)
    requires Inv(d) && Enabled(d, a)
    ensures var d' := Next(d, a); d'.u.pending == if d'.active then 1 else 0
    ensures a.RequestIo? ==> !d.active && d.u.m.k.current in d.requests && d.requests[d.u.m.k.current].sector < |d.sectors|
  {
    U.ContextHolds(d.u, Use(a), d.u.m.k.current);
    U.DeviceKept(d.u, Use(a));
    assert RequestInv(d, d.u.m.k.current);
    hide M.Next, M.Enabled, U.Context, U.DeviceInv, U.Inv;
  }

  /** Every action passes its ASSERTs and keeps the invariant. */
  lemma StepKeeps(d: SynchDisk, a: Action)
    requires Inv(d) && Enabled(d, a)
    ensures Asserts(d, a) && Inv(Next(d, a))
  {
    ActiveKept(d, a);
    hide U.Inv, U.Enabled, U.Asserts, U.Next, U.OwnerMoves, U.Context, DataInv, RequestInv;
    U.StepKeeps(d.u, Use(a));
    U.ContextHolds(d.u, Use(a), d.u.m.k.current);
    U.OwnerAfter(d.u, Use(a));
    DataKept(d, a);
    forall t: ThreadId ensures RequestInv(Next(d, a), t) {
      RequestKept(d, a, t);
    }
  }

  // ---------------------------------------------------------------- whole runs

  /** A disk just opened, idle, with the given contents. */
  ghost predicate Fresh(d: SynchDisk) {
    U.Fresh(d.u) && !d.active && d.stored == d.sectors
  }

  ghost predicate Legal(d: SynchDisk, run: seq<Action>)
    decreases |run|
  {
    run == [] || (Enabled(d, run[0]) && Legal(Next(d, run[0]), run[1..]))
  }

  ghost function After(d: SynchDisk, run: seq<Action>): SynchDisk
    decreases |run|
  {
    if run == [] then d else After(Next(d, run[0]), run[1..])
  }

  lemma {:induction false} RunKeeps(d: SynchDisk, run: seq<Action>)
    requires Inv(d) && Legal(d, run)
    ensures Inv(After(d, run))
    decreases |run|
  {
    hide Inv, Enabled, Next;
    if run != [] {
      StepKeeps(d, run[0]);
      RunKeeps(Next(d, run[0]), run[1..]);
    }
  }

  lemma FreshReaches(d: SynchDisk, run: seq<Action>)
    requires Fresh(d) && Legal(d, run)
    ensures Inv(After(d, run))
  {
    FreshHolds(d);
    RunKeeps(d, run);
  }

  lemma FreshHolds(d: SynchDisk)
    requires Fresh(d)
    ensures Inv(d)
  {
    U.StartsRight(d.u);
    hide U.Inv, T.Inv;
  }

  /** ASSERT(!active) never fails, nor does any other ASSERT on the way. */
  lemma NoAssertFails(d: SynchDisk, run: seq<Action>, a: Action)
    requires Fresh(d) && Legal(d, run) && Enabled(After(d, run), a)
    ensures Asserts(After(d, run), a)
  {
    hide Fresh, Inv, Enabled, Asserts;
    FreshReaches(d, run);
    StepKeeps(After(d, run), a);
  }

  /** While the disk is active some thread owns the lock and is waiting, the completion semaphore is 0 and
      exactly one disk interrupt is pending; while it is not, none is. */
  lemma DeviceProtocol(d: SynchDisk, run: seq<Action>)
    requires Fresh(d) && Legal(d, run)
    ensures var e := After(d, run);
      && e.u.m.lock in e.u.m.k.sems && e.u.done in e.u.m.k.sems
      && (e.active ==> U.InProgress(e.u) && e.u.m.k.sems[e.u.m.lock].value == 0 && e.u.m.k.sems[e.u.done].value == 0
                       && e.u.pending == 1)
      && (!e.active ==> e.u.pending == 0)
  {
    hide Fresh, Legal, After, T.Inv, DataInv, RequestInv;
    FreshReaches(d, run);
  }

  /** This action completes a WriteSector on sector `n`: its semaphore->P() succeeds. */
  predicate Completes(d: SynchDisk, a: Action, n: nat) {
    var t := d.u.m.k.current;
    a == AwaitDone && U.Completes(d.u, U.AwaitDone) && t in d.requests && d.requests[t].Write? && d.requests[t].sector == n
  }

  /** The data of the last WriteSector on sector `n` completed in the run, or what was there first. */
  ghost function LastWrite(d: SynchDisk, run: seq<Action>, n: nat, first: Data): Data
    decreases |run|
  {
    if run == [] then first else
      var now := if Completes(d, run[0], n) then d.requests[d.u.m.k.current].data else first;
      LastWrite(Next(d, run[0]), run[1..], n, now)
  }

  lemma StoredByStep(d: SynchDisk, a: Action, n: nat)
    requires n < |d.stored|
    ensures |Next(d, a).stored| == |d.stored|
    ensures Next(d, a).stored[n] == if Completes(d, a, n) then d.requests[d.u.m.k.current].data else d.stored[n]
  {
    hide U.Next;
  }

  /** `stored` is what its name says, read off the run. */
  lemma {:induction false} StoredIsLastWrite(d: SynchDisk, run: seq<Action>, n: nat)
    requires n < |d.stored|
    ensures |After(d, run).stored| == |d.stored|
    ensures After(d, run).stored[n] == LastWrite(d, run, n, d.stored[n])
    decreases |run|
  {
    hide Next;
    if run != [] {
      StoredByStep(d, run[0], n);
      StoredIsLastWrite(Next(d, run[0]), run[1..], n);
    }
  }

  lemma {:induction false} SizeKept(d: SynchDisk, run: seq<Action>)
    ensures |After(d, run).stored| == |d.stored|
    decreases |run|
  {
    if run != [] {
      StepSizeKept(d, run[0]);
      hide Next;
      SizeKept(Next(d, run[0]), run[1..]);
    }
  }

  lemma StepSizeKept(d: SynchDisk, a: Action)
    ensures |Next(d, a).stored| == |d.stored|
  {
    hide U.Next;
  }

  /** A ReadSector about to release the lock has in its buffer what the last completed WriteSector
      on that sector in the run stored, or the initial contents. */
  lemma ReadsLastWrite(d: SynchDisk, run: seq<Action>, t: ThreadId)
    requires Fresh(d) && Legal(d, run)
    requires var e := After(d, run);
      && e.u.StepOf(t) == Some(U.ToRelease) && e.u.m.Pc(t) == M.Inside && t in e.requests && e.requests[t].Read?
    ensures var e := After(d, run);
      var n := e.requests[t].sector;
      t in e.buffers && n < |d.sectors| && e.buffers[t] == LastWrite(d, run, n, d.sectors[n])
  {
    FreshReaches(d, run);
    SizeKept(d, run);
    var e := After(d, run);
    hide After, Legal, LastWrite, T.Inv;
    assert M.ThreadInv(e.u.m, t) && RequestInv(e, t) && DataInv(e);
    StoredIsLastWrite(d, run, e.requests[t].sector);
  }
}
