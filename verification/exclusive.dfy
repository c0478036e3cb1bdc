/**
 A device that one thread at a time may use: Acquire a lock, start the device, P on a semaphore that the device's interrupt
 handler V's, Release the lock.  SynchDisk::ReadSector and WriteSector (filesys/synchdisk.cc) and PostOfficeOutput::Send
 (network/post.cc) are of this shape.  Any number of threads do so, as code of the monitor in module Monitor.
 */
module ExclusiveUse {
  import opened Common
  import T = Threads
  import M = Monitor

  type ThreadId = T.ThreadId
  type SemId = T.SemId

  /** ToStart: before the device is started; ToWait: at or inside done->P(); ToRelease: past it. */
  datatype Step = ToStart | ToWait | ToRelease

  /** `pending` counts the device's interrupts that are scheduled and not yet delivered; a thread has a step while it
      executes a call. */
  datatype Client = Client(m: M.Monitor, done: SemId, pending: nat, steps: map<ThreadId, Step>)
  {
    function StepOf(t: ThreadId): Option<Step> {
      if t in steps then Some(steps[t]) else None
    }

    function Goto(t: ThreadId, step: Step): Client {
      this.(steps := steps[t := step])
    }
  }

  datatype Action =
    | Enter             // the call begins
    | Start             // the device is started and will interrupt once
    | AwaitDone         // one turn of done->P()
    | Interrupt         // the handler, with done->V()
    | Lock(a: M.Action) // the code of Lock, and kernel actions of anybody

  function MonitorPart(d: Client, a: Action): Option<M.Action> {
    match a
    case Enter => Some(M.EnterAcquire)
    case Start => None
    case AwaitDone => Some(M.Other(T.Attempt(d.done)))
    case Interrupt => Some(M.Other(T.Handler(d.done)))
    case Lock(ma) => Some(ma)
  }

  /** Kernel actions of threads that execute no call, and of handlers, on other semaphores. */
  predicate Elsewhere(d: Client, a: T.Action) {
    var idle := d.StepOf(d.m.k.current) == None;
    match a
    case Yield => true
    case Dispatch => true
    case CleanUp => true
    case Handler(s) => s != d.done
    case Attempt(s) => s != d.done && idle
    case Signal(s) => s != d.done && idle
    case Delete(s) => s != d.done && idle
    case _ => idle
  }

  predicate Enabled(d: Client, a: Action) {
    var t := d.m.k.current;
    var step := d.StepOf(t);
    var ma := MonitorPart(d, a);
    && (match a
        case Enter => true
        case Start => d.m.k.Free() && d.m.Pc(t) == M.Inside && step == Some(ToStart)
        case AwaitDone => d.m.Pc(t) == M.Inside && step == Some(ToWait)
        case Interrupt => d.pending > 0
        case Lock(EnterRelease) => step == Some(ToRelease)
        case Lock(Other(ka)) => Elsewhere(d, ka)
        case Lock(LockP) => true
        case Lock(SetHolder) => true
        case Lock(ReleaseV) => true
        case Lock(_) => false)
    && (ma.Some? ==> M.Enabled(d.m, ma.value))
  }

  /** The ASSERTs on the way, and that the device is started only while no operation is under way. */
  predicate Asserts(d: Client, a: Action) {
    var ma := MonitorPart(d, a);
    (a.Start? ==> d.pending == 0) && (ma.Some? ==> M.Asserts(d.m, ma.value))
  }

  /** The P of the call succeeds: the operation is complete. */
  predicate Completes(d: Client, a: Action) {
    a == AwaitDone && d.done in d.m.k.sems && d.m.k.sems[d.done].value != 0
  }

  function Next(d: Client, a: Action): Client {
    var t := d.m.k.current;
    var ma := MonitorPart(d, a);
    var d' := if ma.Some? then d.(m := M.Next(d.m, ma.value)) else d;
    match a
    case Enter => d'.Goto(t, ToStart)
    case Start => d'.(pending := d.pending + 1).Goto(t, ToWait)
    case AwaitDone => if Completes(d, a) then d'.Goto(t, ToRelease) else d'
    case Interrupt => d'.(pending := if d.pending > 0 then d.pending - 1 else 0)
    case Lock(ReleaseV) => d'.(steps := d.steps - {t})
    case Lock(_) => d'
  }

  // ---------------------------------------------------------------- invariant

  predicate StepInv(d: Client, t: ThreadId) {
    var step := d.StepOf(t);
    && (match d.m.Pc(t)
        case Outside => step == None
        case Acquire(w) => w == None && step == Some(ToStart)
        case Acquired(w) => w == None && step == Some(ToStart)
        case Inside => step.Some?
        case Releasing(w) => w == None && step == Some(ToRelease)
        case _ => false)
    && (step == Some(ToWait) ==> d.m.Pc(t) == M.Inside)
    && (step != Some(ToWait) && d.m.Pc(t) == M.Inside ==> t !in d.m.k.waiting)
    && (t in d.m.k.waiting && d.m.k.waiting[t] == d.done ==> step == Some(ToWait))
    && (t in d.m.k.waiting && step == Some(ToWait) ==> d.m.k.waiting[t] == d.done)
  }

  /** The owner of the lock has started the device and is not past the P. */
  predicate InProgress(d: Client) {
    d.m.owner.Some? && d.StepOf(d.m.owner.value) == Some(ToWait)
  }

  /** While an operation is in progress there is one interrupt to come, or one unit to take; otherwise neither. */
  predicate DeviceInv(d: Client) {
    && d.done != d.m.lock
    && d.m.waiters == map[]
    && d.done in d.m.k.sems
    && d.m.k.sems[d.done].value >= 0
    && d.m.k.sems[d.done].value + d.pending == (if InProgress(d) then 1 else 0)
  }

  ghost predicate Inv(d: Client) {
    M.Inv(d.m) && (forall t: ThreadId :: StepInv(d, t)) && DeviceInv(d)
  }

  /** The facts about action `a` that the fate of thread `t` depends on. */
  ghost predicate Context(d: Client, a: Action, t: ThreadId) {
    var c := d.m.k.current;
    && Enabled(d, a)
    && DeviceInv(d)
    && M.LockInv(d.m)
    && StepInv(d, t) && M.ThreadInv(d.m, t)
    && StepInv(d, c) && M.ThreadInv(d.m, c)
    && (t in d.m.k.waiting ==> d.m.k.waiting[t] in d.m.k.sems)
    && (d.m.owner.Some? ==> StepInv(d, d.m.owner.value) && M.ThreadInv(d.m, d.m.owner.value))
  }

  lemma ContextHolds(d: Client, a: Action, t: ThreadId)
    requires Inv(d) && Enabled(d, a)
    ensures Context(d, a, t)
  {
    hide Enabled, DeviceInv, StepInv, M.ThreadInv, M.LockInv, M.WaiterInv, T.Inv;
    var c := d.m.k.current;
    M.WaitingExists(d.m, t);
    assert StepInv(d, t) && StepInv(d, c) && M.ThreadInv(d.m, t) && M.ThreadInv(d.m, c);
    if d.m.owner.Some? {
      assert StepInv(d, d.m.owner.value) && M.ThreadInv(d.m, d.m.owner.value);
    }
  }

  /** An action changes the monitor as its step does. */
  lemma MonitorOf(d: Client, a: Action)
    ensures var ma := MonitorPart(d, a); Next(d, a).m == if ma.Some? then M.Next(d.m, ma.value) else d.m
    ensures Next(d, a).done == d.done
  {
    hide M.Next;
  }

  lemma StepFrame(d: Client, a: Action, t: ThreadId)
    requires t != d.m.k.current
    ensures Next(d, a).StepOf(t) == d.StepOf(t)
  {
    hide M.Next;
  }

  /** A call begins with Enter. */
  lemma OnlyEnterBegins(d: Client, a: Action, t: ThreadId)
    requires Enabled(d, a)
    ensures Next(d, a).StepOf(t).Some? ==> d.StepOf(t).Some? || (a == Enter && t == d.m.k.current)
    ensures Next(d, a).done == d.done && Next(d, a).m.lock == d.m.lock
    ensures Next(d, a).pending ==
      if a == Start then d.pending + 1 else if a == Interrupt then d.pending - 1 else d.pending
  {
    hide T.Next, T.Enabled;
  }

  lemma BystanderKept(d: Client, a: Action, t: ThreadId)
    requires Context(d, a, t) && t != d.m.k.current
    ensures StepInv(Next(d, a), t)
  {
    hide M.Next, M.LockInv, DeviceInv;
    MonitorOf(d, a);
    StepFrame(d, a, t);
    var ma := MonitorPart(d, a);
    if ma.Some? {
      M.BystanderFrame(d.m, ma.value, t);
    }
    hide Next;
  }

  lemma CurrentKept(d: Client, a: Action)
    requires Context(d, a, d.m.k.current) && !a.Lock? && a != AwaitDone
    ensures StepInv(Next(d, a), d.m.k.current)
  {
    hide T.Asserts;
  }

  lemma CurrentKeptByP(d: Client, a: Action)
    requires Context(d, a, d.m.k.current) && a == AwaitDone
    ensures StepInv(Next(d, a), d.m.k.current)
  {
    hide T.Asserts;
  }

  lemma CurrentKeptByKernel(d: Client, a: Action)
    requires Context(d, a, d.m.k.current) && a.Lock? && a.a.Other?
    ensures StepInv(Next(d, a), d.m.k.current)
  {
    hide T.Asserts;
  }

  lemma CurrentKeptByLock(d: Client, a: Action)
    requires Context(d, a, d.m.k.current) && a.Lock? && !a.a.Other?
    ensures StepInv(Next(d, a), d.m.k.current)
  {
    hide T.Asserts;
  }

  // The device invariant rests on the semaphore and on the owner's step.

  lemma StartKeepsDevice(d: Client, a: Action)
    requires Context(d, a, d.m.k.current) && (a == Start || a == Enter)
    ensures DeviceInv(Next(d, a)) && (a == Start ==> d.pending == 0)
  {
    hide T.Asserts;
  }

  lemma AwaitKeepsDevice(d: Client, a: Action)
    requires Context(d, a, d.m.k.current) && a == AwaitDone
    ensures DeviceInv(Next(d, a))
  {
    hide T.Asserts;
  }

  lemma InterruptKeepsDevice(d: Client, a: Action)
    requires Context(d, a, d.m.k.current) && a == Interrupt
    ensures DeviceInv(Next(d, a))
  {
    hide T.Asserts;
  }

  lemma LockKeepsDevice(d: Client, a: Action)
    requires Context(d, a, d.m.k.current) && a.Lock? && !a.a.Other?
    ensures DeviceInv(Next(d, a))
  {
    hide T.Asserts;
  }

  lemma KernelKeepsDevice(d: Client, a: Action)
    requires Context(d, a, d.m.k.current) && a.Lock? && a.a.Other?
    ensures DeviceInv(Next(d, a))
  {
    hide T.Next, T.Asserts;
    M.KernelSemFrame(d.m.k, a.a.a, d.done);
  }

  /** Who owns the lock after an action, and where the owner is. */
  predicate OwnerMoves(d: Client, a: Action, d': Client) {
    var t := d.m.k.current;
    match a
    case Start => d.m.owner == Some(t) == d'.m.owner && d.StepOf(t) == Some(ToStart) && d'.StepOf(t) == Some(ToWait)
    case AwaitDone =>
      && d.m.owner == Some(t) == d'.m.owner && d.StepOf(t) == Some(ToWait)
      && d'.StepOf(t) == Some(if Completes(d, a) then ToRelease else ToWait)
    case Lock(ReleaseV) => d.m.owner == Some(t) && d'.m.owner == None && d.StepOf(t) == Some(ToRelease)
    case Lock(LockP) =>
      && d'.steps == d.steps
      && if d.m.lock in d.m.k.sems && d.m.k.sems[d.m.lock].value != 0
         then d.m.owner == None && d'.m.owner == Some(t) && d.StepOf(t) == Some(ToStart)
         else d'.m.owner == d.m.owner
    case _ =>
      && d'.m.owner == d.m.owner && (a == Enter ==> d.m.owner != Some(t))
      && (d.m.owner.Some? ==> d'.StepOf(d.m.owner.value) == d.StepOf(d.m.owner.value))
  }

  lemma OwnerAfter(d: Client, a: Action)
    requires Context(d, a, d.m.k.current)
    ensures OwnerMoves(d, a, Next(d, a))
  {
    hide T.Next, T.Enabled, T.Asserts;
  }

  lemma DeviceKept(d: Client, a: Action)
    requires Context(d, a, d.m.k.current)
    ensures DeviceInv(Next(d, a)) && (a == Start ==> d.pending == 0)
  {
    hide Context, Next, DeviceInv;
    if a == Start || a == Enter {
      StartKeepsDevice(d, a);
    } else if a == AwaitDone {
      AwaitKeepsDevice(d, a);
    } else if a == Interrupt {
      InterruptKeepsDevice(d, a);
    } else if a.a.Other? {
      KernelKeepsDevice(d, a);
    } else {
      LockKeepsDevice(d, a);
    }
  }

  lemma StepKept(d: Client, a: Action, t: ThreadId)
    requires Context(d, a, t)
    ensures StepInv(Next(d, a), t)
  {
    hide Context, Next, StepInv;
    if t != d.m.k.current {
      BystanderKept(d, a, t);
    } else if a == AwaitDone {
      CurrentKeptByP(d, a);
    } else if !a.Lock? {
      CurrentKept(d, a);
    } else if a.a.Other? {
      CurrentKeptByKernel(d, a);
    } else {
      CurrentKeptByLock(d, a);
    }
  }

  /** Every action passes its ASSERTs and keeps the invariant. */
  lemma StepKeeps(d: Client, a: Action)
    requires Inv(d) && Enabled(d, a)
    ensures Asserts(d, a) && Inv(Next(d, a))
  {
    hide Context, Next, DeviceInv, StepInv, M.Inv, M.Asserts, M.Enabled, Elsewhere;
    ContextHolds(d, a, d.m.k.current);
    DeviceKept(d, a);
    MonitorOf(d, a);
    var ma := MonitorPart(d, a);
    if ma.Some? {
      M.StepKeeps(d.m, ma.value);
    }
    forall t: ThreadId ensures StepInv(Next(d, a), t) {
      ContextHolds(d, a, t);
      StepKept(d, a, t);
    }
  }

  /** A device just opened: idle, and nobody uses it yet. */
  ghost predicate Fresh(d: Client) {
    && M.Fresh(d.m)
    && d.done != d.m.lock && d.done in d.m.k.sems && d.m.k.sems[d.done].value == 0
    && T.NobodyIn(d.m.k, d.done)
    && d.pending == 0 && d.steps == map[]
  }

  lemma StartsRight(d: Client)
    requires Fresh(d)
    ensures Inv(d)
  {
    M.FreshReaches(d.m, []);
    hide M.Inv;
  }
}
