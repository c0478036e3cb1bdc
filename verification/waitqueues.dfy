/**
 What Lock and Condition do for their callers (threads/synch.cc): each routine from its call to its return, and the order in
 which waiters are signalled over whole runs.
 */
module WaitQueues {
  import opened Common
  import T = Threads
  import opened Monitor

  // ---------------------------------------------------------------- routines that are not interrupted

  ghost predicate Ready(m: Monitor, pc: Pc) {
    Inv(m) && m.k.Free() && m.Pc(m.k.current) == pc
  }

  predicate Worth(k: T.Kernel, s: SemId, value: int) {
    s in k.sems && k.sems[s].value == value
  }

  function Asleep(k: T.Kernel, s: SemId): seq<ThreadId> {
    if s in k.sems then k.sems[s].queue else []
  }

  predicate HeldBy(m: Monitor, t: Option<ThreadId>) {
    m.holder == t && m.owner == t
  }

  /** Acquire of a free lock: P takes its unit and the caller holds it. */
  lemma AcquireTakes(m: Monitor)
    requires Ready(m, Outside) && m.owner == None
    ensures var m1 := Next(m, EnterAcquire);
      var m2 := Next(m1, LockP);
      var m3 := Next(m2, SetHolder);
      && Enabled(m, EnterAcquire) && Enabled(m1, LockP) && Enabled(m2, SetHolder)
      && m3.Pc(m.k.current) == Inside && HeldBy(m3, Some(m.k.current))
      && Worth(m3.k, m.lock, 0) && m3.waitQueue == m.waitQueue
  {
    hide T.Inv, T.Asserts;
  }

  /** Acquire of a lock that is held puts the caller to sleep on it. */
  lemma AcquireWaits(m: Monitor)
    requires Ready(m, Outside) && m.owner.Some?
    ensures var m1 := Next(m, EnterAcquire);
      var m2 := Next(m1, LockP);
      && Enabled(m, EnterAcquire) && Enabled(m1, LockP)
      && m2.k.mode.Sleeping? && Asleep(m2.k, m.lock) == Asleep(m.k, m.lock) + [m.k.current]
      && m2.owner == m.owner && m2.holder == m.holder
  {
    hide T.Inv, T.Asserts;
  }

  /** Release: the lock is free, and whoever has slept longest on it is ready. */
  lemma ReleaseGives(m: Monitor)
    requires Ready(m, Inside)
    ensures var m1 := Next(m, EnterRelease);
      var m2 := Next(m1, ReleaseV);
      && Enabled(m, EnterRelease) && Enabled(m1, ReleaseV)
      && m2.Pc(m.k.current) == Outside && HeldBy(m2, None) && Worth(m2.k, m.lock, 1)
      && m2.waitQueue == m.waitQueue
      && m2.k.ready == m.k.ready + (if Asleep(m.k, m.lock) != [] then [Asleep(m.k, m.lock)[0]] else [])
  {
    hide T.Inv, T.Asserts;
    assert ThreadInv(m, m.k.current);
  }

  /** Wait up to its sleep: a new semaphore at the end of the queue, the lock free, and the caller about to P the semaphore,
      which is 0. */
  lemma WaitReleases(m: Monitor, w: SemId)
    requires Ready(m, Inside) && w !in m.k.sems
    ensures var m1 := Next(m, EnterWait(w));
      var m2 := Next(m1, ReleaseV);
      && Enabled(m, EnterWait(w)) && Enabled(m1, ReleaseV)
      && m2.Pc(m.k.current) == Blocked(w) && HeldBy(m2, None) && Worth(m2.k, m.lock, 1)
      && m2.waitQueue == m.waitQueue + [w] && Worth(m2.k, w, 0)
  {
    hide T.Inv, T.Asserts;
    assert ThreadInv(m, m.k.current);
  }

  /** Wait from its wake-up on, if the lock is free: the caller holds it again, and its semaphore is gone. */
  lemma WaitReturns(m: Monitor, w: SemId)
    requires Awoken(m, w)
    ensures var m1 := Next(m, WaiterP);
      var m2 := Next(m1, LockP);
      var m3 := Next(m2, SetHolder);
      var m4 := Next(m3, Discard);
      && Enabled(m, WaiterP) && Enabled(m1, LockP) && Enabled(m2, SetHolder) && Enabled(m3, Discard)
      && m4.Pc(m.k.current) == Inside && HeldBy(m4, Some(m.k.current)) && w !in m4.k.sems
      && m4.waitQueue == m.waitQueue
  {
    hide T.Inv, T.Asserts, Inv, Next;
    WaitReacquires(m, w);
    var m1 := Next(m, WaiterP);
    var m2 := Next(m1, LockP);
    WaitDiscards(m2, w);
  }

  ghost predicate Awoken(m: Monitor, w: SemId) {
    && Inv(m) && m.k.mode == T.Executing && m.Pc(m.k.current) == Blocked(w)
    && w in m.k.sems && m.k.sems[w].value != 0 && m.owner == None
  }

  lemma WaitReacquires(m: Monitor, w: SemId)
    requires Awoken(m, w)
    ensures var m1 := Next(m, WaiterP);
      var m2 := Next(m1, LockP);
      && Enabled(m, WaiterP) && Enabled(m1, LockP) && m2.k.Free() && m2.k.current == m.k.current
      && m2.Pc(m.k.current) == Acquired(Some(w)) && m2.owner == Some(m.k.current) && w in m2.k.sems
      && m2.waitQueue == m.waitQueue
  {
    hide T.Inv, T.Asserts;
    assert ThreadInv(m, m.k.current) && WaiterInv(m, w);
  }

  lemma WaitDiscards(m: Monitor, w: SemId)
    requires m.k.Free() && m.Pc(m.k.current) == Acquired(Some(w)) && m.owner == Some(m.k.current) && w in m.k.sems
    ensures var m3 := Next(m, SetHolder);
      var m4 := Next(m3, Discard);
      && Enabled(m, SetHolder) && Enabled(m3, Discard)
      && m4.Pc(m.k.current) == Inside && HeldBy(m4, Some(m.k.current)) && w !in m4.k.sems
      && m4.waitQueue == m.waitQueue
  {
  }

  /** Signal: the waiter at the front of the queue, if there is one, has its semaphore V'ed. */
  lemma SignalWakesFront(m: Monitor)
    requires Ready(m, Inside)
    ensures Enabled(m, EnterSignal)
    ensures m.waitQueue == [] ==> Next(m, EnterSignal) == m.Goto(m.k.current, Inside)
    ensures m.waitQueue != [] ==>
      var w := m.waitQueue[0];
      var m1 := Next(m, EnterSignal);
      var m2 := Next(m1, SignalV);
      && Enabled(m1, SignalV) && m2.Pc(m.k.current) == Inside && m2.waitQueue == m.waitQueue[1..]
      && Worth(m.k, w, 0) && Worth(m2.k, w, 1)
      && m2.owner == m.owner && m2.holder == m.holder
  {
    hide T.Inv, T.Asserts;
    if m.waitQueue != [] {
      var w := m.waitQueue[0];
      assert w in m.waitQueue && WaiterInv(m, w);
      FrontWaits(m);
    }
  }

  /** Broadcast: as long as there are waiters the one at the front has its semaphore V'ed; then it is over. */
  lemma BroadcastWakesFront(m: Monitor)
    requires Ready(m, Broadcasting)
    ensures Enabled(m, BroadcastTest)
    ensures m.waitQueue == [] ==> Next(m, BroadcastTest) == m.Goto(m.k.current, Inside)
    ensures m.waitQueue != [] ==>
      var w := m.waitQueue[0];
      var m1 := Next(m, BroadcastTest);
      var m2 := Next(m1, SignalV);
      && Enabled(m1, SignalV) && m2.Pc(m.k.current) == Broadcasting && m2.waitQueue == m.waitQueue[1..]
      && Worth(m.k, w, 0) && Worth(m2.k, w, 1) && m2.owner == m.owner && m2.holder == m.holder
  {
    hide T.Inv, T.Asserts;
    if m.waitQueue != [] {
      var w := m.waitQueue[0];
      assert w in m.waitQueue && WaiterInv(m, w);
      FrontWaits(m);
    }
  }

  lemma BroadcastBegins(m: Monitor)
    requires Ready(m, Inside)
    ensures Enabled(m, EnterBroadcast) && Next(m, EnterBroadcast) == m.Goto(m.k.current, Broadcasting)
  {
  }

  /** Release, Wait, Signal and each turn of Broadcast are called with the lock held: their ASSERT. */
  lemma HeldByCaller(m: Monitor, run: seq<Action>, a: Action)
    requires Fresh(m) && Legal(m, run) && Enabled(After(m, run), a)
    requires a.EnterRelease? || a.EnterWait? || a.EnterSignal? || a.EnterBroadcast? || a.BroadcastTest?
    ensures var e := After(m, run); e.holder == Some(e.k.current)
  {
    hide T.Inv, T.Enabled, Legal, After, Fresh;
    FreshReaches(m, run);
    var e := After(m, run);
    assert ThreadInv(e, e.k.current);
  }

  lemma FrontWaits(m: Monitor)
    requires Inv(m) && m.waitQueue != []
    ensures Worth(m.k, m.waitQueue[0], 0)
  {
    var w := m.waitQueue[0];
    assert w in m.waitQueue && WaiterInv(m, w);
    CountsOf(m.k);
    hide T.Inv, T.Woken;
  }

  // ---------------------------------------------------------------- first in, first out

  /** The waiter that an action takes off the queue: its thread is then about to V it. */
  function Taken(m: Monitor, m': Monitor): seq<SemId> {
    var t := m.k.current;
    if m'.Pc(t).Signalling? && !m.Pc(t).Signalling? then [m'.Pc(t).w] else []
  }

  function Entered(a: Action): seq<SemId> {
    if a.EnterWait? then [a.w] else []
  }

  function AllEntered(run: seq<Action>): seq<SemId> {
    if run == [] then [] else Entered(run[0]) + AllEntered(run[1..])
  }

  function AllTaken(m: Monitor, run: seq<Action>): seq<SemId>
    decreases |run|
  {
    if run == [] then [] else Taken(m, Next(m, run[0])) + AllTaken(Next(m, run[0]), run[1..])
  }

  lemma QueueStep(m: Monitor, a: Action)
    requires Enabled(m, a)
    ensures m.waitQueue + Entered(a) == Taken(m, Next(m, a)) + Next(m, a).waitQueue
  {
    hide T.Next, T.Enabled;
  }

  /** Waiters are signalled in the order in which they began to wait. */
  lemma {:induction false} WaitersFifo(m: Monitor, run: seq<Action>)
    requires Legal(m, run)
    ensures m.waitQueue + AllEntered(run) == AllTaken(m, run) + After(m, run).waitQueue
    decreases |run|
  {
    if run != [] {
      QueueStep(m, run[0]);
      var m' := Next(m, run[0]);
      hide Next, Enabled, Taken, Entered;
      WaitersFifo(m', run[1..]);
      Joined(m.waitQueue, Entered(run[0]), Taken(m, m'), m'.waitQueue,
             AllEntered(run[1..]), AllTaken(m', run[1..]), After(m', run[1..]).waitQueue);
    }
  }

  lemma Joined(q: seq<SemId>, b: seq<SemId>, d: seq<SemId>, q': seq<SemId>, c: seq<SemId>, e: seq<SemId>, q'': seq<SemId>)
    requires q + b == d + q' && q' + c == e + q''
    ensures q + (b + c) == (d + e) + q''
  {
    assert q + (b + c) == (q + b) + c;
    assert (d + q') + c == d + (q' + c);
    assert d + (e + q'') == (d + e) + q'';
  }
}
