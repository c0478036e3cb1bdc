/**
 Lock and Condition (threads/synch.cc) as any threads may use them: one lock, one condition variable,
 every interleaving that the thread kernel allows.

 A step is a piece of Lock or Condition code between two calls into the kernel, or one kernel action.
 Cutting the code finer than the real switching points only adds interleavings.
 */
module Monitor {
  import opened Common
  import T = Threads

  type ThreadId = T.ThreadId
  type SemId = T.SemId

  /** Where a thread is in the monitor code; `w` is the waiter semaphore of the Wait it is executing. */
  datatype Pc =
    | Outside
    | Acquire(inWait: Option<SemId>)    // at or inside semaphore->P() of Acquire
    | Acquired(inWait: Option<SemId>)   // P has returned, lockHolder is not set yet
    | Inside                            // holding the lock
    | Releasing(inWait: Option<SemId>)  // lockHolder is NULL again, semaphore->V() is still to come
    | Blocked(w: SemId)                 // at or inside waiter->P()
    | Discarding(w: SemId)              // lock re-acquired, `delete waiter` is still to come
    | Signalling(w: SemId, all: bool)   // w is off the wait queue, waiter->V() is still to come
    | Broadcasting                      // at the loop test of Broadcast

  /** `owner` and `waiters` are history: the thread between P and V on the lock, and whose Wait made each semaphore. */
  datatype Monitor = Monitor(
    k: T.Kernel,
    lock: SemId,
    holder: Option<ThreadId>,
    waitQueue: seq<SemId>,
    pcs: map<ThreadId, Pc>,
    owner: Option<ThreadId>,
    waiters: map<SemId, ThreadId>)
  {
    function Pc(t: ThreadId): Pc {
      if t in pcs then pcs[t] else Outside
    }

    function Goto(t: ThreadId, pc: Pc): Monitor {
      this.(pcs := pcs[t := pc])
    }

    predicate Reserved(s: SemId) {
      s == lock || s in waiters
    }
  }

  datatype Action =
    | EnterAcquire | LockP | SetHolder
    | EnterRelease | ReleaseV
    | EnterWait(w: SemId) | WaiterP | Discard
    | EnterSignal | SignalV
    | EnterBroadcast | BroadcastTest
    | Other(a: T.Action)    // a kernel action that is none of the above

  /** The kernel action inside a step, if there is one. */
  function KernelPart(m: Monitor, a: Action): Option<T.Action> {
    var pc := m.Pc(m.k.current);
    match a
    case LockP => Some(T.Attempt(m.lock))
    case ReleaseV => Some(T.Signal(m.lock))
    case EnterWait(w) => Some(T.Create(w, 0))
    case WaiterP => if pc.Blocked? then Some(T.Attempt(pc.w)) else None
    case Discard => if pc.Discarding? then Some(T.Delete(pc.w)) else None
    case SignalV => if pc.Signalling? then Some(T.Signal(pc.w)) else None
    case Other(ka) => Some(ka)
    case _ => None
  }

  /** The thread's code is at this step.  Other actions leave the semaphores of the monitor alone,
      and only a thread outside the monitor finishes. */
  predicate Enabled(m: Monitor, a: Action) {
    var pc := m.Pc(m.k.current);
    match a
    case EnterAcquire => m.k.Free() && pc == Outside
    case LockP => m.k.mode == T.Executing && pc.Acquire?
    case SetHolder => m.k.Free() && pc.Acquired?
    case EnterRelease => m.k.Free() && pc == Inside
    case ReleaseV => m.k.Free() && pc.Releasing?
    case EnterWait(w) => m.k.Free() && pc == Inside && w !in m.k.sems
    case WaiterP => m.k.mode == T.Executing && pc.Blocked?
    case Discard => m.k.Free() && pc.Discarding?
    case EnterSignal => m.k.Free() && pc == Inside
    case SignalV => m.k.Free() && pc.Signalling?
    case EnterBroadcast => m.k.Free() && pc == Inside
    case BroadcastTest => m.k.Free() && pc == Broadcasting
    case Other(ka) =>
      && T.Enabled(m.k, ka)
      && match ka
         case Attempt(s) => !m.Reserved(s) && (pc == Outside || pc == Inside)
         case Signal(s) => !m.Reserved(s) && (pc == Outside || pc == Inside)
         case Handler(s) => !m.Reserved(s)
         case Delete(s) => !m.Reserved(s)
         case Finish => pc == Outside
         case _ => true
  }

  /** ASSERT(IsHeldByCurrentThread()), List::Append's ASSERT(!IsInList), no use of a deleted semaphore,
      and no deletion of a semaphore still on the wait queue; and the kernel's own assertions. */
  predicate Asserts(m: Monitor, a: Action) {
    var held := m.holder == Some(m.k.current);
    var ka := KernelPart(m, a);
    && (match a
        case EnterRelease => held
        case EnterWait(w) => held && w !in m.waitQueue
        case EnterSignal => held
        case BroadcastTest => m.waitQueue != [] ==> held
        case Discard => m.Pc(m.k.current).Discarding? ==> m.Pc(m.k.current).w !in m.waitQueue
        case _ => true)
    && (ka.Some? ==> T.Enabled(m.k, ka.value) && T.Asserts(m.k, ka.value))
  }

  /** Signal's `RemoveFront`, or nothing when no one waits. */
  function TakeWaiter(m: Monitor, all: bool): Monitor {
    var t := m.k.current;
    if m.waitQueue == [] then m.Goto(t, Inside)
    else m.(waitQueue := m.waitQueue[1..]).Goto(t, Signalling(m.waitQueue[0], all))
  }

  function Next(m: Monitor, a: Action): Monitor {
    var t := m.k.current;
    var pc := m.Pc(t);
    var ka := KernelPart(m, a);
    var m' := if ka.Some? then m.(k := T.Next(m.k, ka.value)) else m;
    match a
    case EnterAcquire => m'.Goto(t, Acquire(None))
    case LockP =>
      if pc.Acquire? && m.lock in m.k.sems && m.k.sems[m.lock].value != 0
      then m'.(owner := Some(t)).Goto(t, Acquired(pc.inWait)) else m'
    case SetHolder =>
      if pc.Acquired? && pc.inWait.Some? then m'.(holder := Some(t)).Goto(t, Discarding(pc.inWait.value))
      else m'.(holder := Some(t)).Goto(t, Inside)
    case EnterRelease => m'.(holder := None).Goto(t, Releasing(None))
    case ReleaseV =>
      if pc.Releasing? && pc.inWait.Some? then m'.(owner := None).Goto(t, Blocked(pc.inWait.value))
      else m'.(owner := None).Goto(t, Outside)
    case EnterWait(w) =>
      m'.(waitQueue := m.waitQueue + [w], holder := None, waiters := m.waiters[w := t]).Goto(t, Releasing(Some(w)))
    case WaiterP =>
      if pc.Blocked? && pc.w in m.k.sems && m.k.sems[pc.w].value != 0 then m'.Goto(t, Acquire(Some(pc.w))) else m'
    case Discard =>
      if pc.Discarding? then m'.(waiters := m.waiters - {pc.w}).Goto(t, Inside) else m'
    case EnterSignal => TakeWaiter(m', false)
    case SignalV => m'.Goto(t, if pc.Signalling? && pc.all then Broadcasting else Inside)
    case EnterBroadcast => m'.Goto(t, Broadcasting)
    case BroadcastTest => TakeWaiter(m', true)
    case Other(_) => m'
  }

  // ---------------------------------------------------------------- invariant

  /** Between P and V on the lock's semaphore. */
  predicate Owns(pc: Pc) {
    pc.Acquired? || pc == Inside || pc.Releasing? || pc.Discarding? || pc.Signalling? || pc == Broadcasting
  }

  /** Between the two assignments to lockHolder. */
  predicate Holds(pc: Pc) {
    Owns(pc) && !pc.Acquired? && !pc.Releasing?
  }

  /** The semaphore of the Wait being executed. */
  function WaiterOf(pc: Pc): Option<SemId> {
    match pc
    case Acquire(w) => w
    case Acquired(w) => w
    case Releasing(w) => w
    case Blocked(w) => Some(w)
    case Discarding(w) => Some(w)
    case _ => None
  }

  /** In Wait and not yet past waiter->P(). */
  predicate Unserved(pc: Pc) {
    pc.Blocked? || (pc.Releasing? && pc.inWait.Some?)
  }

  ghost predicate LockInv(m: Monitor) {
    && m.lock in m.k.sems
    && m.lock !in m.waiters
    && m.k.sems[m.lock].value == (if m.owner == None then 1 else 0)
    && Distinct(m.waitQueue)
  }

  /** The kernel's view of who is inside which P agrees with the program counter of `t`. */
  predicate Linked(m: Monitor, t: ThreadId) {
    t in m.k.waiting ==>
      match m.Pc(t)
      case Acquire(_) => m.k.waiting[t] == m.lock
      case Blocked(w) => m.k.waiting[t] == w
      case Outside => !m.Reserved(m.k.waiting[t])
      case Inside => !m.Reserved(m.k.waiting[t])
      case _ => false
  }

  predicate ThreadInv(m: Monitor, t: ThreadId) {
    && (Owns(m.Pc(t)) <==> m.owner == Some(t))
    && (Holds(m.Pc(t)) <==> m.holder == Some(t))
    && Linked(m, t)
    && (m.Pc(t) != Outside ==> t in m.k.live && t !in m.k.finished)
    && var w := WaiterOf(m.Pc(t)); w.Some? ==> w.value in m.waiters && m.waiters[w.value] == t
  }

  predicate BeingSignalled(m: Monitor, w: SemId) {
    m.owner.Some? && m.Pc(m.owner.value).Signalling? && m.Pc(m.owner.value).w == w
  }

  /** How often `w` has been, is being, or can still be signalled. */
  function Credit(m: Monitor, w: SemId): int
    requires w in m.k.sems
  {
    m.k.sems[w].value + (if w in m.waitQueue then 1 else 0) + (if BeingSignalled(m, w) then 1 else 0)
  }

  predicate WaiterInv(m: Monitor, w: SemId) {
    if w in m.waiters then
      && w in m.k.sems
      && WaiterOf(m.Pc(m.waiters[w])) == Some(w)
      && Credit(m, w) == if Unserved(m.Pc(m.waiters[w])) then 1 else 0
    else
      w !in m.waitQueue && !BeingSignalled(m, w)
  }

  ghost predicate Inv(m: Monitor) {
    && T.Inv(m.k)
    && LockInv(m)
    && (forall t: ThreadId :: ThreadInv(m, t))
    && (forall w: SemId :: WaiterInv(m, w))
  }

  /** The waiter semaphore that a step touches, if any. */
  function Touched(m: Monitor, a: Action): SemId {
    var pc := m.Pc(m.k.current);
    match a
    case EnterWait(w) => w
    case _ =>
      match pc
      case Signalling(w, _) => w
      case Blocked(w) => w
      case Discarding(w) => w
      case _ => if m.waitQueue != [] then m.waitQueue[0] else m.lock
  }

  /** Discard deletes a semaphore that nobody is in. */
  lemma NobodyInDiscarded(m: Monitor, a: Action)
    requires Inv(m) && Enabled(m, a) && a.Discard?
    ensures T.NobodyIn(m.k, m.Pc(m.k.current).w)
  {
    hide T.Inv;
    var w := m.Pc(m.k.current).w;
    assert ThreadInv(m, m.k.current) && WaiterInv(m, w);
    forall u | u in m.k.waiting ensures m.k.waiting[u] != w {
      assert ThreadInv(m, u);
    }
  }

  /** The semaphore that a step uses exists. */
  lemma KernelPartEnabled(m: Monitor, a: Action)
    requires LockInv(m) && ThreadInv(m, m.k.current) && WaiterInv(m, Touched(m, a)) && Enabled(m, a)
    requires a.Discard? ==> T.NobodyIn(m.k, m.Pc(m.k.current).w)
    ensures var ka := KernelPart(m, a); ka.Some? ==> T.Enabled(m.k, ka.value)
  {
    hide T.NobodyIn;
  }

  /** The ASSERTs of the monitor's own code. */
  lemma OwnAsserts(m: Monitor, a: Action)
    requires T.CountInv(m.k)
    requires LockInv(m) && ThreadInv(m, m.k.current) && WaiterInv(m, Touched(m, a)) && Enabled(m, a)
    requires var ka := KernelPart(m, a); ka.Some? ==> T.Enabled(m.k, ka.value) && T.Asserts(m.k, ka.value)
    ensures Asserts(m, a)
  {
    hide T.Enabled, T.Asserts, T.Woken;
  }

  lemma CountsOf(k: T.Kernel)
    requires T.Inv(k)
    ensures T.CountInv(k)
  {
  }

  /** A step changes the kernel as its kernel action does. */
  lemma KernelOf(m: Monitor, a: Action)
    ensures var ka := KernelPart(m, a); Next(m, a).k == if ka.Some? then T.Next(m.k, ka.value) else m.k
  {
    hide T.Next;
  }

  lemma StepAsserts(m: Monitor, a: Action)
    requires Inv(m) && Enabled(m, a)
    ensures Asserts(m, a) && T.Inv(Next(m, a).k)
  {
    hide T.Inv, T.Enabled, T.Asserts, T.Next, T.NobodyIn, T.CountInv, Asserts, LockInv, ThreadInv, WaiterInv, Next;
    KernelOf(m, a);
    CountsOf(m.k);
    assert ThreadInv(m, m.k.current) && WaiterInv(m, Touched(m, a));
    if a.Discard? {
      NobodyInDiscarded(m, a);
    }
    KernelPartEnabled(m, a);
    var ka := KernelPart(m, a);
    if ka.Some? {
      T.StepKeeps(m.k, ka.value);
    }
    OwnAsserts(m, a);
  }

  // What one kernel action leaves alone.

  lemma KernelThreadFrame(k: T.Kernel, a: T.Action, t: ThreadId)
    requires T.Inv(k) && T.Enabled(k, a) && t in k.live && t !in k.finished && !(a.Finish? && t == k.current)
    ensures t in T.Next(k, a).live && t !in T.Next(k, a).finished
  {
  }

  predicate Names(a: T.Action, s: SemId) {
    match a
    case Attempt(r) => r == s
    case Signal(r) => r == s
    case Handler(r) => r == s
    case Create(r, _) => r == s
    case Delete(r) => r == s
    case _ => false
  }

  lemma KernelSemFrame(k: T.Kernel, a: T.Action, s: SemId)
    requires T.Enabled(k, a) && s in k.sems && !Names(a, s)
    ensures s in T.Next(k, a).sems && T.Next(k, a).sems[s] == k.sems[s]
  {
  }

  /** The facts about step `a` that the lock depends on. */
  ghost predicate LockContext(m: Monitor, a: Action) {
    && LockInv(m) && ThreadInv(m, m.k.current) && Enabled(m, a) && Asserts(m, a) && WaiterInv(m, Touched(m, a))
  }

  lemma LockPKeepsLock(m: Monitor, a: Action)
    requires LockContext(m, a) && a.LockP?
    ensures LockInv(Next(m, a))
  {
    hide T.Inv, T.Asserts;
  }

  lemma ReleaseVKeepsLock(m: Monitor, a: Action)
    requires LockContext(m, a) && a.ReleaseV?
    ensures LockInv(Next(m, a))
  {
    hide T.Inv, T.Asserts;
  }

  /** No other kernel action is about the lock's semaphore. */
  lemma OtherwiseNotNamed(m: Monitor, a: Action)
    requires LockContext(m, a) && !a.LockP? && !a.ReleaseV?
    ensures var ka := KernelPart(m, a); ka.Some? ==> !Names(ka.value, m.lock) && T.Enabled(m.k, ka.value)
  {
    hide T.Asserts;
  }

  lemma OtherwiseLockKept(m: Monitor, a: Action)
    requires LockContext(m, a) && !a.LockP? && !a.ReleaseV?
    ensures LockInv(Next(m, a))
  {
    OtherwiseNotNamed(m, a);
    var ka := KernelPart(m, a);
    if ka.Some? {
      KernelSemFrame(m.k, ka.value, m.lock);
    }
    if a.EnterWait? {
      DistinctAppend(m.waitQueue, a.w);
    }
    hide T.Next, T.Asserts, T.Enabled, Names, ThreadInv;
  }

  lemma LockKept(m: Monitor, a: Action)
    requires LockContext(m, a)
    ensures LockInv(Next(m, a))
  {
    hide LockContext, Next, LockInv;
    if a.LockP? {
      LockPKeepsLock(m, a);
    } else if a.ReleaseV? {
      ReleaseVKeepsLock(m, a);
    } else {
      OtherwiseLockKept(m, a);
    }
  }

  /** The facts about step `a` that the fate of thread `t` depends on. */
  predicate ThreadContext(m: Monitor, a: Action, t: ThreadId) {
    && ThreadInv(m, t)
    && ThreadInv(m, m.k.current)
    && WaiterInv(m, Touched(m, a))
    && Enabled(m, a)
    && Asserts(m, a)
    && (t in m.k.waiting ==> m.k.waiting[t] in m.k.sems)
    && ((t == m.k.current && !a.Other?) || m.Pc(t) != Outside ==>
          t in Next(m, a).k.live && t !in Next(m, a).k.finished)
  }

  lemma AcquireCodeKeepsThread(m: Monitor, a: Action, t: ThreadId)
    requires LockInv(m) && ThreadContext(m, a, t) && (a.EnterAcquire? || a.SetHolder?)
    ensures ThreadInv(Next(m, a), t)
  {
    hide T.Inv, T.Asserts;
  }

  lemma LockPKeepsThread(m: Monitor, a: Action, t: ThreadId)
    requires LockInv(m) && ThreadContext(m, a, t) && a.LockP?
    ensures ThreadInv(Next(m, a), t)
  {
    hide T.Inv, T.Asserts;
  }

  lemma EnterReleaseKeepsThread(m: Monitor, a: Action, t: ThreadId)
    requires LockInv(m) && ThreadContext(m, a, t) && a.EnterRelease?
    ensures ThreadInv(Next(m, a), t)
  {
    hide T.Inv, T.Asserts;
  }

  lemma ReleaseVKeepsThread(m: Monitor, a: Action, t: ThreadId)
    requires LockInv(m) && ThreadContext(m, a, t) && a.ReleaseV?
    ensures ThreadInv(Next(m, a), t)
  {
    hide T.Next, T.Enabled, T.Asserts;
    if t != m.k.current {
      BystanderFrame(m, a, t);
    } else {
      T.FreeStaysFree(m.k, KernelPart(m, a).value);
    }
  }

  lemma EnterWaitKeepsThread(m: Monitor, a: Action, t: ThreadId)
    requires LockInv(m) && ThreadContext(m, a, t) && a.EnterWait?
    ensures ThreadInv(Next(m, a), t)
  {
    hide T.Inv, T.Asserts;
  }

  lemma WaiterPKeepsThread(m: Monitor, a: Action, t: ThreadId)
    requires LockInv(m) && ThreadContext(m, a, t) && a.WaiterP?
    ensures ThreadInv(Next(m, a), t)
  {
    hide T.Inv, T.Asserts;
  }

  lemma DiscardKeepsThread(m: Monitor, a: Action, t: ThreadId)
    requires LockInv(m) && ThreadContext(m, a, t) && a.Discard?
    ensures ThreadInv(Next(m, a), t)
  {
    hide T.Inv, T.Asserts;
  }

  lemma TakeWaiterKeepsThread(m: Monitor, a: Action, t: ThreadId)
    requires LockInv(m) && ThreadContext(m, a, t) && (a.EnterSignal? || a.BroadcastTest?)
    ensures ThreadInv(Next(m, a), t)
  {
    hide T.Inv, T.Asserts;
  }

  lemma SignalVKeepsThread(m: Monitor, a: Action, t: ThreadId)
    requires LockInv(m) && ThreadContext(m, a, t) && (a.SignalV? || a.EnterBroadcast?)
    ensures ThreadInv(Next(m, a), t)
  {
    hide T.Inv, T.Asserts;
  }

  lemma OtherKeepsThread(m: Monitor, a: Action, t: ThreadId)
    requires LockInv(m) && ThreadContext(m, a, t) && a.Other?
    ensures ThreadInv(Next(m, a), t)
  {
    hide T.Inv, T.Asserts;
  }

  /** The facts about step `a` that the fate of waiter semaphore `w` depends on. */
  predicate WaiterContext(m: Monitor, a: Action, w: SemId) {
    && WaiterInv(m, w)
    && WaiterInv(m, Touched(m, a))
    && ThreadInv(m, m.k.current)
    && (w in m.waiters ==> ThreadInv(m, m.waiters[w]))
    && Enabled(m, a)
    && Asserts(m, a)
  }

  lemma AcquireCodeKeepsWaiter(m: Monitor, a: Action, w: SemId)
    requires LockInv(m) && WaiterContext(m, a, w) && (a.EnterAcquire? || a.SetHolder?)
    ensures WaiterInv(Next(m, a), w)
  {
    hide T.Inv, T.Asserts;
  }

  lemma LockPKeepsWaiter(m: Monitor, a: Action, w: SemId)
    requires LockInv(m) && WaiterContext(m, a, w) && a.LockP?
    ensures WaiterInv(Next(m, a), w)
  {
    hide T.Inv, T.Asserts;
  }

  lemma EnterReleaseKeepsWaiter(m: Monitor, a: Action, w: SemId)
    requires LockInv(m) && WaiterContext(m, a, w) && a.EnterRelease?
    ensures WaiterInv(Next(m, a), w)
  {
    hide T.Inv, T.Asserts;
  }

  lemma ReleaseVKeepsWaiter(m: Monitor, a: Action, w: SemId)
    requires LockInv(m) && WaiterContext(m, a, w) && a.ReleaseV?
    ensures WaiterInv(Next(m, a), w)
  {
    hide T.Inv, T.Asserts;
  }

  lemma EnterWaitKeepsWaiter(m: Monitor, a: Action, w: SemId)
    requires LockInv(m) && WaiterContext(m, a, w) && a.EnterWait?
    ensures WaiterInv(Next(m, a), w)
  {
    hide T.Inv, T.Asserts;
  }

  lemma WaiterPKeepsWaiter(m: Monitor, a: Action, w: SemId)
    requires LockInv(m) && WaiterContext(m, a, w) && a.WaiterP?
    ensures WaiterInv(Next(m, a), w)
  {
    hide T.Inv, T.Asserts;
  }

  lemma DiscardKeepsWaiter(m: Monitor, a: Action, w: SemId)
    requires LockInv(m) && WaiterContext(m, a, w) && a.Discard?
    ensures WaiterInv(Next(m, a), w)
  {
    hide T.Inv, T.Asserts;
  }

  lemma TakeWaiterKeepsWaiter(m: Monitor, a: Action, w: SemId)
    requires LockInv(m) && WaiterContext(m, a, w) && (a.EnterSignal? || a.BroadcastTest?)
    ensures WaiterInv(Next(m, a), w)
  {
    hide T.Inv, T.Asserts;
  }

  lemma SignalVKeepsWaiter(m: Monitor, a: Action, w: SemId)
    requires LockInv(m) && WaiterContext(m, a, w) && (a.SignalV? || a.EnterBroadcast?)
    ensures WaiterInv(Next(m, a), w)
  {
    hide T.Inv, T.Asserts;
  }

  lemma OtherKeepsWaiter(m: Monitor, a: Action, w: SemId)
    requires LockInv(m) && WaiterContext(m, a, w) && a.Other?
    ensures WaiterInv(Next(m, a), w)
  {
    hide T.Inv, T.Asserts;
  }

  lemma ContextHolds(m: Monitor, a: Action, t: ThreadId)
    requires Inv(m) && Enabled(m, a)
    ensures ThreadContext(m, a, t)
  {
    hide T.Inv, T.Enabled, T.Asserts, T.Next, LockInv, WaiterInv, Next;
    StepAsserts(m, a);
    KernelOf(m, a);
    WaitingExists(m, t);
    if m.k.mode == T.Executing {
      CurrentAlive(m);
    }
    assert ThreadInv(m, t) && ThreadInv(m, m.k.current) && WaiterInv(m, Touched(m, a));
    var ka := KernelPart(m, a);
    if ka.Some? && t in m.k.live && t !in m.k.finished && !(ka.value.Finish? && t == m.k.current) {
      KernelThreadFrame(m.k, ka.value, t);
    }
  }

  lemma CurrentAlive(m: Monitor)
    requires T.Inv(m.k) && m.k.mode == T.Executing
    ensures m.k.current in m.k.live && m.k.current !in m.k.finished
  {
  }

  lemma WaitingExists(m: Monitor, t: ThreadId)
    requires T.Inv(m.k)
    ensures t in m.k.waiting ==> m.k.waiting[t] in m.k.sems
  {
    T.WaitingOnSomething(m.k, t);
  }

  lemma ThreadKept(m: Monitor, a: Action, t: ThreadId)
    requires LockInv(m) && ThreadContext(m, a, t)
    ensures ThreadInv(Next(m, a), t)
  {
    hide ThreadInv, ThreadContext, LockInv, Next;
    if a.EnterAcquire? || a.SetHolder? {
      AcquireCodeKeepsThread(m, a, t);
    } else if a.LockP? {
      LockPKeepsThread(m, a, t);
    } else if a.EnterRelease? {
      EnterReleaseKeepsThread(m, a, t);
    } else if a.ReleaseV? {
      ReleaseVKeepsThread(m, a, t);
    } else if a.EnterWait? {
      EnterWaitKeepsThread(m, a, t);
    } else if a.WaiterP? {
      WaiterPKeepsThread(m, a, t);
    } else if a.Discard? {
      DiscardKeepsThread(m, a, t);
    } else if a.EnterSignal? || a.BroadcastTest? {
      TakeWaiterKeepsThread(m, a, t);
    } else if a.SignalV? || a.EnterBroadcast? {
      SignalVKeepsThread(m, a, t);
    } else {
      OtherKeepsThread(m, a, t);
    }
  }

  lemma WaiterKept(m: Monitor, a: Action, w: SemId)
    requires Inv(m) && Enabled(m, a)
    ensures WaiterInv(Next(m, a), w)
  {
    StepAsserts(m, a);
    assert WaiterContext(m, a, w);
    hide WaiterInv, WaiterContext, LockInv, Next;
    if a.EnterAcquire? || a.SetHolder? {
      AcquireCodeKeepsWaiter(m, a, w);
    } else if a.LockP? {
      LockPKeepsWaiter(m, a, w);
    } else if a.EnterRelease? {
      EnterReleaseKeepsWaiter(m, a, w);
    } else if a.ReleaseV? {
      ReleaseVKeepsWaiter(m, a, w);
    } else if a.EnterWait? {
      EnterWaitKeepsWaiter(m, a, w);
    } else if a.WaiterP? {
      WaiterPKeepsWaiter(m, a, w);
    } else if a.Discard? {
      DiscardKeepsWaiter(m, a, w);
    } else if a.EnterSignal? || a.BroadcastTest? {
      TakeWaiterKeepsWaiter(m, a, w);
    } else if a.SignalV? || a.EnterBroadcast? {
      SignalVKeepsWaiter(m, a, w);
    } else {
      OtherKeepsWaiter(m, a, w);
    }
  }

  /** Every step passes its ASSERTs and keeps the invariant. */
  lemma StepKeeps(m: Monitor, a: Action)
    requires Inv(m) && Enabled(m, a)
    ensures Asserts(m, a) && Inv(Next(m, a))
  {
    StepAsserts(m, a);
    assert ThreadInv(m, m.k.current) && WaiterInv(m, Touched(m, a));
    LockKept(m, a);
    forall t: ThreadId ensures ThreadInv(Next(m, a), t) {
      ContextHolds(m, a, t);
      ThreadKept(m, a, t);
    }
    forall w: SemId ensures WaiterInv(Next(m, a), w) {
      WaiterKept(m, a, w);
    }
  }

  /** A step moves no thread but the current one through the monitor code. */
  lemma BystanderFrame(m: Monitor, a: Action, t: ThreadId)
    requires Enabled(m, a) && t != m.k.current
    ensures Next(m, a).Pc(t) == m.Pc(t)
    ensures t in Next(m, a).k.waiting <==> t in m.k.waiting
    ensures t in m.k.waiting ==> Next(m, a).k.waiting[t] == m.k.waiting[t]
  {
    hide T.Next, T.Enabled;
    var ka := KernelPart(m, a);
    if ka.Some? {
      T.OnlyCurrentMoves(m.k, ka.value, t);
    }
  }

  /** Only Wait, Signal and Broadcast change the wait queue. */
  lemma QueueFrame(m: Monitor, a: Action)
    requires !a.EnterSignal? && !a.BroadcastTest?
    ensures Next(m, a).waitQueue == if a.EnterWait? then m.waitQueue + [a.w] else m.waitQueue
  {
    hide T.Next;
  }

  // ---------------------------------------------------------------- whole runs

  /** A lock and a condition just made: the semaphore holds 1 and nobody uses it yet. */
  ghost predicate Fresh(m: Monitor) {
    && T.Inv(m.k)
    && m.lock in m.k.sems
    && m.k.sems[m.lock].value == 1
    && T.NobodyIn(m.k, m.lock)
    && m.holder == None && m.owner == None && m.waitQueue == [] && m.pcs == map[] && m.waiters == map[]
  }

  ghost predicate Legal(m: Monitor, run: seq<Action>)
    decreases |run|
  {
    run == [] || (Enabled(m, run[0]) && Legal(Next(m, run[0]), run[1..]))
  }

  ghost function After(m: Monitor, run: seq<Action>): Monitor
    decreases |run|
  {
    if run == [] then m else After(Next(m, run[0]), run[1..])
  }

  lemma {:induction false} RunKeeps(m: Monitor, run: seq<Action>)
    requires Inv(m) && Legal(m, run)
    ensures Inv(After(m, run))
    decreases |run|
  {
    if run != [] {
      StepKeeps(m, run[0]);
      RunKeeps(Next(m, run[0]), run[1..]);
    }
  }

  lemma FreshReaches(m: Monitor, run: seq<Action>)
    requires Fresh(m) && Legal(m, run)
    ensures Inv(After(m, run))
  {
    RunKeeps(m, run);
  }

  /** No ASSERT in Lock, Condition or the kernel fails, no deleted semaphore is used,
      and no waiter semaphore is deleted while it is on a wait queue or a thread sleeps on it. */
  lemma NoAssertFails(m: Monitor, run: seq<Action>, a: Action)
    requires Fresh(m) && Legal(m, run) && Enabled(After(m, run), a)
    ensures Asserts(After(m, run), a)
  {
    FreshReaches(m, run);
    StepKeeps(After(m, run), a);
  }

  ghost function Owners(m: Monitor): set<ThreadId> {
    set t | t in m.pcs && Owns(m.pcs[t])
  }

  /** The lock's semaphore value plus the threads between P in Acquire and V in Release is always 1,
      and lockHolder names a thread exactly while that thread is between the two assignments to it. */
  lemma MutualExclusion(m: Monitor, run: seq<Action>)
    requires Fresh(m) && Legal(m, run)
    ensures var n := After(m, run);
      && n.lock in n.k.sems
      && n.k.sems[n.lock].value + |Owners(n)| == 1
      && (forall t: ThreadId :: n.holder == Some(t) <==> t in Owners(n) && Holds(n.Pc(t)))
  {
    FreshReaches(m, run);
    OwnersAreTheOwner(After(m, run));
  }

  lemma OwnersAreTheOwner(n: Monitor)
    requires LockInv(n) && forall t: ThreadId :: ThreadInv(n, t)
    ensures n.k.sems[n.lock].value + |Owners(n)| == 1
    ensures forall t: ThreadId :: n.holder == Some(t) <==> t in Owners(n) && Holds(n.Pc(t))
  {
    forall t: ThreadId ensures t in Owners(n) <==> n.owner == Some(t) {
      assert ThreadInv(n, t);
    }
    assert Owners(n) == match n.owner { case None => {} case Some(t) => {t} };
    forall t: ThreadId ensures n.holder == Some(t) <==> t in Owners(n) && Holds(n.Pc(t)) {
      assert ThreadInv(n, t);
    }
  }

  /** From the moment a thread in Wait is on the wait queue until it gets past waiter->P(), exactly one of these
      holds: it can still be signalled, a signaller is about to V its semaphore, or the V is already there.
      Once the V is there, the thread is not asleep on the semaphore. */
  lemma SignalNeverLost(m: Monitor, run: seq<Action>, t: ThreadId)
    requires Fresh(m) && Legal(m, run) && Unserved(After(m, run).Pc(t))
    ensures var n := After(m, run); var w := WaiterOf(n.Pc(t)).value;
      && w in n.k.sems
      && n.k.sems[w].value == (if w in n.waitQueue || BeingSignalled(n, w) then 0 else 1)
      && !(w in n.waitQueue && BeingSignalled(n, w))
      && (n.k.sems[w].value == 1 ==> n.k.sems[w].queue == [])
  {
    FreshReaches(m, run);
    var n := After(m, run);
    assert ThreadInv(n, t);
    var w := WaiterOf(n.Pc(t)).value;
    assert WaiterInv(n, w);
    OnlyItsOwnWaiter(n, t, w);
    T.SoleSleeper(n.k, w, t);
  }

  lemma OnlyItsOwnWaiter(n: Monitor, t: ThreadId, w: SemId)
    requires Inv(n) && w in n.waiters && n.waiters[w] == t
    ensures forall u :: u in n.k.waiting && n.k.waiting[u] == w ==> u == t
  {
    assert WaiterInv(n, w);
    forall u | u in n.k.waiting && n.k.waiting[u] == w ensures u == t {
      assert ThreadInv(n, u);
    }
  }

  // ---------------------------------------------------------------- Broadcast

  predicate InBroadcast(m: Monitor, t: ThreadId) {
    m.Pc(t) == Broadcasting || (m.Pc(t).Signalling? && m.Pc(t).all)
  }

  /** Waiters that the broadcast of `t` still has to V. */
  function ToWake(m: Monitor, t: ThreadId): nat {
    |m.waitQueue| + if m.Pc(t).Signalling? then 1 else 0
  }

  ghost predicate StaysInBroadcast(m: Monitor, run: seq<Action>, t: ThreadId)
    decreases |run|
  {
    InBroadcast(m, t) && (run != [] ==> StaysInBroadcast(Next(m, run[0]), run[1..], t))
  }

  function SignalVs(run: seq<Action>): nat {
    if run == [] then 0 else (if run[0].SignalV? then 1 else 0) + SignalVs(run[1..])
  }

  lemma BroadcastStep(m: Monitor, a: Action, t: ThreadId)
    requires Inv(m) && Enabled(m, a) && InBroadcast(m, t)
    ensures InBroadcast(Next(m, a), t) ==> ToWake(Next(m, a), t) + (if a.SignalV? then 1 else 0) == ToWake(m, t)
    ensures !InBroadcast(Next(m, a), t) ==> a.BroadcastTest? && t == m.k.current && m.waitQueue == []
  {
    assert ThreadInv(m, t) && ThreadInv(m, m.k.current);
  }

  /** While a thread broadcasts, every V it makes leaves one waiter fewer, whatever other threads do meanwhile:
      so a broadcast makes as many V's as there were waiters, and stops. */
  lemma {:induction false} BroadcastCounts(m: Monitor, run: seq<Action>, t: ThreadId)
    requires Inv(m) && Legal(m, run) && StaysInBroadcast(m, run, t)
    ensures SignalVs(run) + ToWake(After(m, run), t) == ToWake(m, t)
    decreases |run|
  {
    if run != [] {
      BroadcastStep(m, run[0], t);
      StepKeeps(m, run[0]);
      BroadcastCounts(Next(m, run[0]), run[1..], t);
    }
  }

  /** A broadcast ends with nobody on the wait queue and the semaphore of every thread still in Wait signalled. */
  lemma BroadcastWakesAll(m: Monitor, a: Action, t: ThreadId, u: ThreadId)
    requires Inv(m) && Enabled(m, a) && InBroadcast(m, t) && !InBroadcast(Next(m, a), t)
    ensures Next(m, a).waitQueue == []
    ensures Unserved(Next(m, a).Pc(u)) ==>
      WaiterOf(Next(m, a).Pc(u)).value in m.k.sems && m.k.sems[WaiterOf(Next(m, a).Pc(u)).value].value == 1
  {
    BroadcastStep(m, a, t);
    assert ThreadInv(m, u) && ThreadInv(m, t);
    var w := WaiterOf(Next(m, a).Pc(u));
    if w.Some? {
      assert WaiterInv(m, w.value);
    }
  }
}
