/**
 The Nachos thread kernel (threads/scheduler.cc, threads/thread.cc, threads/synch.cc) as a step machine.

 Nachos runs on one processor, so a region with interrupts off is atomic.  An Action is one such region:
 it runs from one point where the CPU can change hands to the next.
 */
module Threads {
  import opened Common

  type ThreadId = nat
  type SemId = nat

  datatype Sem = Sem(value: int, queue: seq<ThreadId>)

  /** What the processor is doing: running `current`; looking for a successor to `current` inside Thread::Sleep;
      or just past SWITCH, where the new thread has not yet looked at `toBeDestroyed`. */
  datatype Mode = Executing | Sleeping(finishing: bool) | Arriving

  /** `waiting[t]` is the semaphore whose P has put `t` to sleep at least once and has not yet succeeded.
      `live`, `finished` and `deleted` are history: forked threads, threads that called Finish, threads deleted. */
  datatype Kernel = Kernel(
    current: ThreadId,
    mode: Mode,
    ready: seq<ThreadId>,
    toBeDestroyed: Option<ThreadId>,
    sems: map<SemId, Sem>,
    waiting: map<ThreadId, SemId>,
    live: set<ThreadId>,
    finished: set<ThreadId>,
    deleted: seq<ThreadId>)
  {
    /** The current thread is outside P, so interrupts may be on. */
    predicate Free() {
      mode == Executing && current !in waiting
    }
  }

  datatype Action =
    | Attempt(s: SemId)              // one turn of the loop in Semaphore::P by the current thread
    | Signal(s: SemId)               // Semaphore::V by the current thread
    | Handler(s: SemId)              // Semaphore::V by an interrupt handler, at a tick or while idling
    | Yield                          // Thread::Yield, called or forced by a time slice
    | Fork(t: ThreadId)
    | Finish
    | Dispatch                       // Sleep found a ready thread: Scheduler::Run up to SWITCH
    | CleanUp                        // Scheduler::CheckToBeDestroyed, first thing after SWITCH
    | Create(s: SemId, initial: int)
    | Delete(s: SemId)

  /** What the source demands of whoever performs the action. */
  predicate Enabled(k: Kernel, a: Action) {
    match a
    case Attempt(s) => k.mode == Executing && s in k.sems && (k.current in k.waiting ==> k.waiting[k.current] == s)
    case Signal(s) => k.Free() && s in k.sems
    case Handler(s) => (k.Free() || k.mode.Sleeping?) && s in k.sems
    case Yield => k.Free()
    case Fork(t) => k.Free() && t !in k.live && t !in k.deleted
    case Finish => k.Free()
    case Dispatch => k.mode.Sleeping? && k.ready != []
    case CleanUp => k.mode == Arriving
    case Create(s, initial) => k.Free() && s !in k.sems && initial >= 0
    case Delete(s) => k.Free() && s in k.sems && NobodyIn(k, s)
  }

  /** "Assume no one is still waiting on the semaphore!" */
  predicate NobodyIn(k: Kernel, s: SemId) {
    forall t :: t in k.waiting ==> k.waiting[t] != s
  }

  /** The ASSERTs that the code of the action executes. */
  predicate Asserts(k: Kernel, a: Action)
  {
    match a
    case Attempt(s) =>   // List::Append: !IsInList
      s in k.sems && k.sems[s].value == 0 ==> k.current !in k.sems[s].queue
    case Signal(s) => s in k.sems && k.sems[s].queue != [] ==> k.sems[s].queue[0] !in k.ready
    case Handler(s) => s in k.sems && k.sems[s].queue != [] ==> k.sems[s].queue[0] !in k.ready
    case Yield => k.ready != [] ==> k.current !in k.ready[1..]
    case Fork(t) => t !in k.ready
    case Finish => true
    case Dispatch => k.mode.Sleeping? && k.mode.finishing ==> k.toBeDestroyed == None
    case CleanUp => k.toBeDestroyed != Some(k.current)   // ~Thread: this != currentThread
    case Create(_, _) => true
    case Delete(_) => true
  }

  function ReadyToRun(k: Kernel, t: ThreadId): Kernel {
    k.(ready := k.ready + [t])
  }

  /** Scheduler::Run up to SWITCH, dispatching the front of the ready list. */
  function RunFront(k: Kernel, finishing: bool): Kernel
    requires k.ready != []
  {
    k.(toBeDestroyed := if finishing then Some(k.current) else k.toBeDestroyed,
       current := k.ready[0], ready := k.ready[1..], mode := Arriving)
  }

  /** One turn of `while (value == 0) { queue->Append(currentThread); Sleep } value--`. */
  function Attempted(k: Kernel, s: SemId): Kernel
    requires s in k.sems
  {
    var sem := k.sems[s];
    if sem.value == 0 then
      k.(sems := k.sems[s := sem.(queue := sem.queue + [k.current])],
         waiting := k.waiting[k.current := s], mode := Sleeping(false))
    else
      k.(sems := k.sems[s := sem.(value := sem.value - 1)], waiting := k.waiting - {k.current})
  }

  function Ved(k: Kernel, s: SemId): Kernel
    requires s in k.sems
  {
    var sem := k.sems[s];
    if sem.queue == [] then
      k.(sems := k.sems[s := sem.(value := sem.value + 1)])
    else
      var woken := k.(sems := k.sems[s := sem.(value := sem.value + 1, queue := sem.queue[1..])]);
      ReadyToRun(woken, sem.queue[0])
  }

  function CheckedToBeDestroyed(k: Kernel): Kernel {
    match k.toBeDestroyed
    case None => k.(mode := Executing)
    case Some(t) => k.(mode := Executing, toBeDestroyed := None, live := k.live - {t}, deleted := k.deleted + [t])
  }

  function Next(k: Kernel, a: Action): Kernel {
    match a
    case Attempt(s) => if s in k.sems then Attempted(k, s) else k
    case Signal(s) => if s in k.sems then Ved(k, s) else k
    case Handler(s) => if s in k.sems then Ved(k, s) else k
    case Yield => if k.ready == [] then k else RunFront(ReadyToRun(k, k.current), false)
    case Fork(t) => ReadyToRun(k, t).(live := k.live + {t})
    case Finish => k.(mode := Sleeping(true), finished := k.finished + {k.current})
    case Dispatch => if k.ready == [] then k else RunFront(k, k.mode.Sleeping? && k.mode.finishing)
    case CleanUp => CheckedToBeDestroyed(k)
    case Create(s, initial) => k.(sems := k.sems[s := Sem(initial, [])])
    case Delete(s) => k.(sems := k.sems - {s})
  }

  /** Threads woken by V that have not yet re-run the test in P. */
  ghost function Woken(k: Kernel, s: SemId): set<ThreadId> {
    set t | t in k.waiting && k.waiting[t] == s && (s in k.sems ==> t !in k.sems[s].queue)
  }

  // ---------------------------------------------------------------- invariant

  ghost predicate Queued(k: Kernel, t: ThreadId) {
    t in k.waiting && k.waiting[t] in k.sems && t in k.sems[k.waiting[t]].queue
  }

  ghost predicate ListsInv(k: Kernel) {
    && Distinct(k.ready)
    && (forall s :: s in k.sems ==> Distinct(k.sems[s].queue))
    && (forall s, t :: s in k.sems && t in k.sems[s].queue ==> t in k.waiting && k.waiting[t] == s)
    && (forall t :: t in k.waiting ==> t in k.live && k.waiting[t] in k.sems)
    && (forall t :: t in k.ready ==> t in k.live && !Queued(k, t))
  }

  ghost predicate CurrentInv(k: Kernel) {
    && k.current in k.live
    && (!k.mode.Sleeping? ==> k.current !in k.ready && !Queued(k, k.current))
    && (k.mode == Sleeping(false) ==> k.current in k.waiting && (Queued(k, k.current) || k.current in k.ready))
    && (k.mode == Sleeping(true) ==> k.current !in k.waiting && k.current !in k.ready)
    && (forall t :: t in k.live ==> t == k.current || t in k.ready || Queued(k, t) || k.toBeDestroyed == Some(t))
  }

  ghost predicate DoomedInv(k: Kernel) {
    && (k.toBeDestroyed.Some? ==>
          && k.mode == Arriving
          && var t := k.toBeDestroyed.value; t != k.current && t in k.live && t !in k.waiting && t !in k.ready)
    && Distinct(k.deleted)
    && (forall t :: t in k.deleted ==> t !in k.live)
    && (forall t :: t in k.finished <==>
          t in k.deleted || k.toBeDestroyed == Some(t) || (t == k.current && k.mode == Sleeping(true)))
  }

  ghost predicate CountInv(k: Kernel) {
    forall s :: s in k.sems ==>
      var sem := k.sems[s];
      && sem.value >= 0
      && (sem.queue != [] ==> sem.value <= |Woken(k, s)|)
  }

  ghost predicate Inv(k: Kernel) {
    ListsInv(k) && CurrentInv(k) && DoomedInv(k) && CountInv(k)
  }

  /** The main thread alone, as Kernel::Initialize leaves it. */
  function Boot(main: ThreadId): Kernel {
    Kernel(main, Executing, [], None, map[], map[], {main}, {}, [])
  }

  lemma BootInv(main: ThreadId)
    ensures Inv(Boot(main))
  {
  }

  // ---------------------------------------------------------------- preservation, one action at a time

  /** The current thread joins the tail of the queue of `s`, or leaves P; nothing else moves between lists. */
  lemma AttemptListsKept(k: Kernel, s: SemId)
    requires ListsInv(k) && CurrentInv(k) && Enabled(k, Attempt(s))
    ensures Asserts(k, Attempt(s)) && ListsInv(Attempted(k, s))
  {
    hide Distinct;
    assert k.current !in k.ready && !Queued(k, k.current);
    assert Asserts(k, Attempt(s));
    hide Asserts, CurrentInv;
    if k.sems[s].value == 0 {
      DistinctAppend(k.sems[s].queue, k.current);
    }
    AttemptQueues(k, s);
  }

  lemma AttemptQueues(k: Kernel, s: SemId)
    requires ListsInv(k) && s in k.sems
    ensures forall t :: t != k.current ==> (Queued(Attempted(k, s), t) <==> Queued(k, t))
  {
  }

  lemma AttemptCurrentKept(k: Kernel, s: SemId)
    requires ListsInv(k) && CurrentInv(k) && Enabled(k, Attempt(s))
    ensures CurrentInv(Attempted(k, s))
  {
    AttemptQueues(k, s);
  }

  lemma AttemptCountKept(k: Kernel, s: SemId)
    requires ListsInv(k) && CurrentInv(k) && CountInv(k) && Enabled(k, Attempt(s))
    ensures CountInv(Attempted(k, s))
  {
    var k' := Attempted(k, s);
    forall r | r in k'.sems && k'.sems[r].queue != [] ensures k'.sems[r].value <= |Woken(k', r)| {
      AttemptWoken(k, s, r);
      hide Woken, ListsInv, CurrentInv;
      if r == s && k.sems[s].value != 0 {
        assert k.sems[s].queue != [];
      }
    }
  }

  /** Whoever takes the semaphore is no longer among those it has woken. */
  lemma AttemptWoken(k: Kernel, s: SemId, r: SemId)
    requires ListsInv(k) && CurrentInv(k) && Enabled(k, Attempt(s))
    ensures r != s ==> Woken(Attempted(k, s), r) == Woken(k, r)
    ensures r == s && k.sems[s].value != 0 ==> |Woken(Attempted(k, s), s)| >= |Woken(k, s)| - 1
  {
    if r == s && k.sems[s].value != 0 {
      assert Woken(Attempted(k, s), s) == Woken(k, s) - {k.current};
    }
  }

  /** The front of the queue of `s`, if any, moves to the tail of the ready list. */
  lemma VListsKept(k: Kernel, s: SemId)
    requires ListsInv(k) && s in k.sems
    ensures Asserts(k, Handler(s)) && ListsInv(Ved(k, s))
  {
    var sem := k.sems[s];
    if sem.queue != [] {
      assert Queued(k, sem.queue[0]);
      DistinctTail(sem.queue);
      DistinctAppend(k.ready, sem.queue[0]);
    }
    VQueues(k, s);
  }

  lemma VQueues(k: Kernel, s: SemId)
    requires ListsInv(k) && s in k.sems
    ensures forall t :: Queued(Ved(k, s), t) <==> Queued(k, t) && !(k.sems[s].queue != [] && t == k.sems[s].queue[0])
  {
    if k.sems[s].queue != [] {
      DistinctTail(k.sems[s].queue);
    }
  }

  lemma VCurrentKept(k: Kernel, s: SemId)
    requires ListsInv(k) && CurrentInv(k) && Enabled(k, Handler(s))
    ensures CurrentInv(Ved(k, s))
  {
    VQueues(k, s);
    if k.sems[s].queue != [] {
      assert Queued(k, k.sems[s].queue[0]);
    }
  }

  lemma VCountKept(k: Kernel, s: SemId)
    requires ListsInv(k) && CountInv(k) && s in k.sems
    ensures CountInv(Ved(k, s))
  {
    var k' := Ved(k, s);
    forall r | r in k'.sems && k'.sems[r].queue != [] ensures k'.sems[r].value <= |Woken(k', r)| {
      VWoken(k, s, r);
      hide Woken, ListsInv;
    }
  }

  /** Whoever V takes off the queue is from then on among those it has woken. */
  lemma VWoken(k: Kernel, s: SemId, r: SemId)
    requires ListsInv(k) && s in k.sems
    ensures r != s ==> Woken(Ved(k, s), r) == Woken(k, r)
    ensures r == s && k.sems[s].queue != [] ==> |Woken(Ved(k, s), s)| == |Woken(k, s)| + 1
  {
    if r == s && k.sems[s].queue != [] {
      var t := k.sems[s].queue[0];
      DistinctTail(k.sems[s].queue);
      assert t in k.sems[s].queue && t !in Woken(k, s);
      hide Distinct;
      assert Woken(Ved(k, s), s) == Woken(k, s) + {t};
    }
  }

  lemma VDoomedKept(k: Kernel, s: SemId)
    requires ListsInv(k) && DoomedInv(k) && s in k.sems
    ensures DoomedInv(Ved(k, s))
  {
    if k.sems[s].queue != [] {
      assert k.sems[s].queue[0] in k.sems[s].queue;
    }
  }

  /** Actions that touch no queue: at most they create an empty one or delete one nobody uses. */
  ghost predicate SameQueues(k: Kernel, k': Kernel) {
    && k'.waiting == k.waiting
    && (forall s :: s in k'.sems ==>
          if s in k.sems then k'.sems[s] == k.sems[s] else k'.sems[s].queue == [] && k'.sems[s].value >= 0)
    && (forall t :: t in k.waiting && k.waiting[t] in k.sems ==> k.waiting[t] in k'.sems)
  }

  lemma SameQueuesKeepCount(k: Kernel, k': Kernel)
    requires CountInv(k) && SameQueues(k, k')
    ensures CountInv(k')
  {
    forall s | s in k'.sems && s in k.sems ensures Woken(k', s) == Woken(k, s) {
    }
  }

  lemma SameQueuesKeepQueued(k: Kernel, k': Kernel)
    requires ListsInv(k) && SameQueues(k, k')
    ensures forall t :: Queued(k', t) <==> Queued(k, t)
    ensures forall s, t :: s in k'.sems && t in k'.sems[s].queue ==> t in k'.waiting && k'.waiting[t] == s
    ensures forall s :: s in k'.sems ==> Distinct(k'.sems[s].queue)
    ensures forall t :: t in k'.waiting ==> k'.waiting[t] in k'.sems
  {
  }

  /** The ready list may change meanwhile, and threads may come and go that wait for nothing. */
  lemma SameQueuesKeepLists(k: Kernel, k': Kernel)
    requires ListsInv(k) && SameQueues(k, k') && Distinct(k'.ready)
    requires forall t :: t in k'.ready ==> t in k'.live && !Queued(k, t)
    requires forall t :: t in k.waiting ==> t in k'.live
    ensures ListsInv(k')
  {
    SameQueuesKeepQueued(k, k');
    hide SameQueues, Queued, Distinct;
  }

  lemma YieldKeeps(k: Kernel)
    requires Inv(k) && Enabled(k, Yield)
    ensures Asserts(k, Yield) && Inv(Next(k, Yield))
  {
    YieldKeepsLists(k);
    hide CountInv, ListsInv, CurrentInv;
    SameQueuesKeepCount(k, Next(k, Yield));
  }

  lemma YieldKeepsLists(k: Kernel)
    requires ListsInv(k) && CurrentInv(k) && Enabled(k, Yield)
    ensures Asserts(k, Yield) && ListsInv(Next(k, Yield)) && CurrentInv(Next(k, Yield))
  {
    hide Distinct, Queued;
    if k.ready != [] {
      var k' := Next(k, Yield);
      RotateRight(k.ready, k.current);
      SameQueuesKeepQueued(k, k');
      SameQueuesKeepLists(k, k');
      hide SameQueues, ListsInv;
    }
  }

  /** Putting the current thread behind the ready ones and taking the first. */
  lemma RotateRight(ready: seq<ThreadId>, t: ThreadId)
    requires Distinct(ready) && ready != [] && t !in ready
    ensures var r := (ready + [t])[1..];
      && (ready + [t])[0] == ready[0] && t !in ready[1..] && Distinct(r) && ready[0] !in r && ready[0] != t
      && forall u :: u in r <==> (u in ready && u != ready[0]) || u == t
  {
    DistinctTail(ready);
    DistinctAppend(ready, t);
    DistinctTail(ready + [t]);
  }

  lemma DispatchKeeps(k: Kernel)
    requires Inv(k) && Enabled(k, Dispatch)
    ensures Asserts(k, Dispatch) && Inv(Next(k, Dispatch))
  {
    DispatchKeepsPlaces(k);
    hide CountInv, ListsInv, Queued, Distinct;
    SameQueuesKeepCount(k, Next(k, Dispatch));
  }

  lemma DispatchKeepsPlaces(k: Kernel)
    requires ListsInv(k) && CurrentInv(k) && DoomedInv(k) && Enabled(k, Dispatch)
    ensures ListsInv(Next(k, Dispatch)) && CurrentInv(Next(k, Dispatch))
  {
    hide Distinct, Queued;
    var k' := Next(k, Dispatch);
    DistinctTail(k.ready);
    SameQueuesKeepQueued(k, k');
    SameQueuesKeepLists(k, k');
    hide SameQueues;
  }

  lemma ForkKeeps(k: Kernel, t: ThreadId)
    requires Inv(k) && Enabled(k, Fork(t))
    ensures Asserts(k, Fork(t)) && Inv(Next(k, Fork(t)))
  {
    hide CountInv;
    SameQueuesKeepCount(k, Next(k, Fork(t)));
    SameQueuesKeepQueued(k, Next(k, Fork(t)));
    DistinctAppend(k.ready, t);
  }

  lemma CleanUpKeeps(k: Kernel)
    requires Inv(k) && Enabled(k, CleanUp)
    ensures Asserts(k, CleanUp) && Inv(Next(k, CleanUp))
  {
    CleanUpKeepsPlaces(k);
    if k.toBeDestroyed.Some? {
      DistinctAppend(k.deleted, k.toBeDestroyed.value);
    }
    hide CountInv, ListsInv, Queued, Distinct;
    SameQueuesKeepCount(k, Next(k, CleanUp));
  }

  lemma CleanUpKeepsPlaces(k: Kernel)
    requires ListsInv(k) && CurrentInv(k) && DoomedInv(k) && Enabled(k, CleanUp)
    ensures ListsInv(Next(k, CleanUp)) && CurrentInv(Next(k, CleanUp))
  {
    hide Distinct, Queued;
    var k' := Next(k, CleanUp);
    SameQueuesKeepQueued(k, k');
    SameQueuesKeepLists(k, k');
    hide SameQueues;
  }

  lemma FinishKeeps(k: Kernel)
    requires Inv(k) && Enabled(k, Finish)
    ensures Inv(Next(k, Finish))
  {
    hide CountInv;
    SameQueuesKeepCount(k, Next(k, Finish));
    SameQueuesKeepQueued(k, Next(k, Finish));
  }

  lemma SemaphoresKeep(k: Kernel, a: Action)
    requires Inv(k) && Enabled(k, a) && (a.Create? || a.Delete?)
    ensures Inv(Next(k, a))
  {
    hide CountInv, Distinct, Queued;
    var k' := Next(k, a);
    SemaphoresLeaveQueues(k, a);
    SameQueuesKeepCount(k, k');
    SameQueuesKeepQueued(k, k');
    SameQueuesKeepLists(k, k');
    hide SameQueues, ListsInv;
  }

  lemma SemaphoresLeaveQueues(k: Kernel, a: Action)
    requires ListsInv(k) && Enabled(k, a) && (a.Create? || a.Delete?)
    ensures SameQueues(k, Next(k, a))
  {
    hide Distinct, Queued;
  }

  /** Every enabled action passes its ASSERTs and keeps the invariant. */
  lemma StepKeeps(k: Kernel, a: Action)
    requires Inv(k) && Enabled(k, a)
    ensures Asserts(k, a) && Inv(Next(k, a))
  {
    match a {
      case Attempt(s) => AttemptListsKept(k, s); AttemptCurrentKept(k, s); AttemptCountKept(k, s);
      case Signal(s) => VListsKept(k, s); VCurrentKept(k, s); VCountKept(k, s); VDoomedKept(k, s);
      case Handler(s) => VListsKept(k, s); VCurrentKept(k, s); VCountKept(k, s); VDoomedKept(k, s);
      case Yield => YieldKeeps(k);
      case Dispatch => DispatchKeeps(k);
      case Fork(t) => ForkKeeps(k, t);
      case Finish => FinishKeeps(k);
      case CleanUp => CleanUpKeeps(k);
      case Create(_, _) => SemaphoresKeep(k, a);
      case Delete(_) => SemaphoresKeep(k, a);
    }
  }

  // ---------------------------------------------------------------- whole runs

  /** Each action of `run` is enabled when its turn comes, starting from `k`. */
  ghost predicate Legal(k: Kernel, run: seq<Action>)
    decreases |run|
  {
    run == [] || (Enabled(k, run[0]) && Legal(Next(k, run[0]), run[1..]))
  }

  ghost function After(k: Kernel, run: seq<Action>): Kernel
    decreases |run|
  {
    if run == [] then k else After(Next(k, run[0]), run[1..])
  }

  lemma {:induction false} RunExtends(k: Kernel, run: seq<Action>, a: Action)
    requires Legal(k, run) && Enabled(After(k, run), a)
    ensures Legal(k, run + [a]) && After(k, run + [a]) == Next(After(k, run), a)
    decreases |run|
  {
    if run == [] {
      assert [a][1..] == [];
    } else {
      assert (run + [a])[1..] == run[1..] + [a];
      RunExtends(Next(k, run[0]), run[1..], a);
    }
  }

  /** Whoever is in P stays there until the processor is its own. */
  lemma OthersKeepWaiting(k: Kernel, a: Action, t: ThreadId)
    requires Enabled(k, a) && !(k.current == t && k.mode == Executing)
    ensures var k' := Next(k, a);
      (t in k'.waiting <==> t in k.waiting) && (t in k.waiting ==> k'.waiting[t] == k.waiting[t])
  {
  }

  /** No action puts anybody but the current thread into P or gets anybody else out of it. */
  lemma OnlyCurrentMoves(k: Kernel, a: Action, t: ThreadId)
    requires t != k.current
    ensures var k' := Next(k, a);
      (t in k'.waiting <==> t in k.waiting) && (t in k.waiting ==> k'.waiting[t] == k.waiting[t])
  {
  }

  /** V leaves its caller outside P. */
  lemma FreeStaysFree(k: Kernel, a: Action)
    requires k.Free() && a.Signal?
    ensures Next(k, a).current == k.current && Next(k, a).waiting == k.waiting
  {
  }

  lemma WaitingOnSomething(k: Kernel, t: ThreadId)
    requires Inv(k)
    ensures t in k.waiting ==> k.waiting[t] in k.sems
  {
  }

  lemma {:induction false} RunsJoin(k: Kernel, run: seq<Action>, more: seq<Action>)
    requires Legal(k, run) && Legal(After(k, run), more)
    ensures Legal(k, run + more) && After(k, run + more) == After(After(k, run), more)
    decreases |run|
  {
    if run == [] {
      assert run + more == more;
    } else {
      assert (run + more)[1..] == run[1..] + more;
      RunsJoin(Next(k, run[0]), run[1..], more);
    }
  }

  lemma {:induction false} RunKeeps(k: Kernel, run: seq<Action>)
    requires Inv(k) && Legal(k, run)
    ensures Inv(After(k, run))
    decreases |run|
  {
    if run != [] {
      StepKeeps(k, run[0]);
      RunKeeps(Next(k, run[0]), run[1..]);
    }
  }

  /** No ASSERT of the kernel ever fails: whatever the threads, time slices and interrupt handlers do. */
  lemma NoAssertFails(main: ThreadId, run: seq<Action>, a: Action)
    requires Legal(Boot(main), run) && Enabled(After(Boot(main), run), a)
    ensures Asserts(After(Boot(main), run), a)
  {
    BootInv(main);
    RunKeeps(Boot(main), run);
    StepKeeps(After(Boot(main), run), a);
  }

  datatype Place = Running | OnReadyList | OnQueue(s: SemId) | Finishing | Doomed

  ghost predicate At(k: Kernel, t: ThreadId, p: Place) {
    match p
    case Running => t == k.current && !k.mode.Sleeping?
    case OnReadyList => t in k.ready
    case OnQueue(s) => s in k.sems && t in k.sems[s].queue
    case Finishing => t == k.current && k.mode == Sleeping(true)
    case Doomed => k.toBeDestroyed == Some(t)
  }

  /** Every forked thread is in exactly one place, and once on the list it is on. */
  lemma OnePlaceEach(main: ThreadId, run: seq<Action>, t: ThreadId) returns (p: Place)
    requires Legal(Boot(main), run)
    requires t in After(Boot(main), run).live
    ensures var k := After(Boot(main), run);
      && At(k, t, p)
      && (forall q :: At(k, t, q) ==> q == p)
      && Distinct(k.ready)
      && (forall s :: s in k.sems ==> Distinct(k.sems[s].queue))
  {
    BootInv(main);
    RunKeeps(Boot(main), run);
    var k := After(Boot(main), run);
    p := if t in k.ready then OnReadyList
         else if Queued(k, t) then OnQueue(k.waiting[t])
         else if k.toBeDestroyed == Some(t) then Doomed
         else if k.mode.Sleeping? then Finishing
         else Running;
  }

  /** A thread that called Finish is deleted once, or waits for that as the doomed or the still-sleeping thread. */
  lemma DeletedOnceAndNeverRunning(main: ThreadId, run: seq<Action>)
    requires Legal(Boot(main), run)
    ensures var k := After(Boot(main), run);
      && Distinct(k.deleted)
      && k.current !in k.deleted
      && (forall t :: t in k.deleted ==> t in k.finished && t !in k.ready && t !in k.waiting)
      && (forall t :: t in k.finished && t !in k.deleted ==>
            k.toBeDestroyed == Some(t) || (t == k.current && k.mode == Sleeping(true)))
  {
    BootInv(main);
    RunKeeps(Boot(main), run);
  }

  /** When the doomed thread is deleted it is not the one that runs, and nobody is doomed while another thread finishes. */
  lemma DoomedIsAnother(main: ThreadId, run: seq<Action>)
    requires Legal(Boot(main), run)
    ensures var k := After(Boot(main), run);
      (k.mode == Arriving ==> k.toBeDestroyed != Some(k.current)) && (k.mode == Sleeping(true) ==> k.toBeDestroyed == None)
  {
    BootInv(main);
    RunKeeps(Boot(main), run);
  }

  /** V's on `s` in a run, and P's on `s` that got past their test. */
  ghost function Vs(run: seq<Action>, s: SemId): nat {
    if run == [] then 0 else
      (if run[0] == Signal(s) || run[0] == Handler(s) then 1 else 0) + Vs(run[1..], s)
  }

  ghost function Ps(k: Kernel, run: seq<Action>, s: SemId): nat
    decreases |run|
  {
    if run == [] then 0 else
      (if run[0] == Attempt(s) && s in k.sems && k.sems[s].value != 0 then 1 else 0)
      + Ps(Next(k, run[0]), run[1..], s)
  }

  /** The value of a semaphore is what it was, plus completed V's, minus completed P's. */
  lemma {:induction false} SemaphoreConserves(k: Kernel, run: seq<Action>, s: SemId)
    requires Inv(k) && Legal(k, run) && s in k.sems && Delete(s) !in run
    ensures s in After(k, run).sems
    ensures After(k, run).sems[s].value == k.sems[s].value + Vs(run, s) - Ps(k, run, s)
    decreases |run|
  {
    if run != [] {
      assert run[0] in run;
      StepKeeps(k, run[0]);
      StepChangesValue(k, run[0], s);
      hide Inv, Next, Enabled;
      SemaphoreConserves(Next(k, run[0]), run[1..], s);
    }
  }

  lemma StepChangesValue(k: Kernel, a: Action, s: SemId)
    requires Enabled(k, a) && s in k.sems && a != Delete(s)
    ensures s in Next(k, a).sems
    ensures Next(k, a).sems[s].value == k.sems[s].value + (if a == Signal(s) || a == Handler(s) then 1 else 0)
      - (if a == Attempt(s) && k.sems[s].value != 0 then 1 else 0)
  {
  }

  /** No wake-up is lost: units of the semaphore are outstanding only to threads already woken for them. */
  lemma NoLostWakeup(main: ThreadId, run: seq<Action>, s: SemId)
    requires Legal(Boot(main), run) && s in After(Boot(main), run).sems
    ensures var k := After(Boot(main), run);
      && k.sems[s].value >= 0
      && (k.sems[s].queue != [] ==> k.sems[s].value <= |Woken(k, s)|)
  {
    BootInv(main);
    RunKeeps(Boot(main), run);
  }

  /** If only one thread can be inside P of `s`, it is asleep on it only while the value is 0. */
  lemma SoleSleeper(k: Kernel, s: SemId, t: ThreadId)
    requires Inv(k) && s in k.sems
    requires forall u :: u in k.waiting && k.waiting[u] == s ==> u == t
    ensures k.sems[s].queue != [] ==> k.sems[s].value == 0
  {
    if k.sems[s].queue != [] {
      var u := k.sems[s].queue[0];
      assert u in k.sems[s].queue;
      assert u in k.waiting;
      assert k.waiting[u] == s;
      assert u == t;
      assert Woken(k, s) == {};
    }
  }
}
