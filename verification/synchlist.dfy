/**
 SynchList (threads/synchlist.cc): Append and RemoveFront run by any number of producers and consumers
 as code of the monitor in module Monitor.
 */
module SynchList {
  import opened Common
  import T = Threads
  import M = Monitor

  type ThreadId = T.ThreadId
  type SemId = T.SemId

  /** What is stored on the list: a pointer, compared by address. */
  type Item = nat

  datatype PutStep = ToAppend | ToSignal | PutDone
  datatype GetStep = ToTest | ToRemove | GetDone

  /** The call a thread is executing and the statement it reaches next.
      `resumed` is history: the thread has waited and has not taken an item since. */
  datatype Job = NoJob | Put(item: Item, put: PutStep) | Get(get: GetStep, resumed: bool)

  /** `appended` and `removed` are history: every item ever put on, and taken off, in order. */
  datatype SynchList = SynchList(
    m: M.Monitor,
    list: seq<Item>,
    jobs: map<ThreadId, Job>,
    appended: seq<Item>,
    removed: seq<Item>)
  {
    function Job(t: ThreadId): Job {
      if t in jobs then jobs[t] else NoJob
    }

    function WithJob(t: ThreadId, j: Job): SynchList {
      this.(jobs := jobs[t := j])
    }
  }

  datatype Action =
    | StartAppend(item: Item)
    | StartRemoveFront
    | AppendItem            // list->Append(item)
    | TestEmpty(w: SemId)   // while (list->IsEmpty()) listEmpty->Wait(lock); w is the semaphore Wait would make
    | RemoveItem            // item = list->RemoveFront()
    | Step(a: M.Action)     // the code of Lock, Condition and the kernel

  /** The step of the monitor inside an action, if there is one. */
  function MonitorPart(s: SynchList, a: Action): Option<M.Action> {
    match a
    case StartAppend(_) => Some(M.EnterAcquire)
    case StartRemoveFront => Some(M.EnterAcquire)
    case TestEmpty(w) => if s.list == [] then Some(M.EnterWait(w)) else None
    case Step(ma) => Some(ma)
    case _ => None
  }

  /** An item is passed to Append by one thread at a time and not while it is on the list. */
  ghost predicate Unused(s: SynchList, item: Item) {
    && item !in s.list
    && forall t: ThreadId :: s.Job(t).Put? && s.Job(t).put == ToAppend ==> s.Job(t).item != item
  }

  ghost predicate Enabled(s: SynchList, a: Action) {
    var t := s.m.k.current;
    var inside := s.m.k.Free() && s.m.Pc(t) == M.Inside;
    var ma := MonitorPart(s, a);
    && (match a
        case StartAppend(item) => Unused(s, item)
        case StartRemoveFront => true
        case AppendItem => inside && s.Job(t).Put? && s.Job(t).put == ToAppend
        case TestEmpty(_) => inside && s.Job(t).Get? && s.Job(t).get == ToTest
        case RemoveItem => inside && s.Job(t).Get? && s.Job(t).get == ToRemove
        case Step(EnterSignal) => s.Job(t).Put? && s.Job(t).put == ToSignal
        case Step(EnterRelease) => s.Job(t) == Get(GetDone, false) || (s.Job(t).Put? && s.Job(t).put == PutDone)
        case Step(Other(Yield)) => true
        case Step(Other(Dispatch)) => true
        case Step(Other(CleanUp)) => true
        case Step(Other(Handler(_))) => true
        case Step(Other(_)) => s.Job(t) == NoJob   // the list code itself makes no other kernel call
        case Step(EnterAcquire) => false
        case Step(EnterWait(_)) => false
        case Step(EnterBroadcast) => false
        case Step(BroadcastTest) => false
        case Step(_) => true)
    && (ma.Some? ==> M.Enabled(s.m, ma.value))
  }

  /** list->Append asserts that the item is not on the list, list->RemoveFront that the list is not empty. */
  predicate Asserts(s: SynchList, a: Action) {
    var t := s.m.k.current;
    var ma := MonitorPart(s, a);
    && (match a
        case AppendItem => s.Job(t).Put? ==> s.Job(t).item !in s.list
        case RemoveItem => s.list != []
        case _ => true)
    && (ma.Some? ==> M.Asserts(s.m, ma.value))
  }

  function Next(s: SynchList, a: Action): SynchList {
    var t := s.m.k.current;
    var j := s.Job(t);
    var ma := MonitorPart(s, a);
    var s' := if ma.Some? then s.(m := M.Next(s.m, ma.value)) else s;
    match a
    case StartAppend(item) => s'.WithJob(t, Put(item, ToAppend))
    case StartRemoveFront => s'.WithJob(t, Get(ToTest, false))
    case AppendItem =>
      if j.Put? then
        s'.(list := s.list + [j.item], appended := s.appended + [j.item]).WithJob(t, Put(j.item, ToSignal))
      else s'
    case TestEmpty(_) => s'.WithJob(t, if s.list == [] then Get(ToTest, true) else Get(ToRemove, j.Get? && j.resumed))
    case RemoveItem =>
      if s.list != [] then
        s'.(list := s.list[1..], removed := s.removed + [s.list[0]]).WithJob(t, Get(GetDone, false))
      else s'
    case Step(EnterSignal) => if j.Put? then s'.WithJob(t, Put(j.item, PutDone)) else s'
    case Step(ReleaseV) => if s.m.Pc(t) == M.Releasing(None) then s'.WithJob(t, NoJob) else s'
    case Step(_) => s'
  }

  // ---------------------------------------------------------------- invariant

  /** The program counters of the list code and of the monitor code agree. */
  predicate JobInv(s: SynchList, t: ThreadId) {
    var j := s.Job(t);
    && (match s.m.Pc(t)
        case Outside => j == NoJob
        case Acquire(w) => if w.Some? then j == Get(ToTest, true) else (j == Get(ToTest, false) || (j.Put? && j.put == ToAppend))
        case Acquired(w) => if w.Some? then j == Get(ToTest, true) else (j == Get(ToTest, false) || (j.Put? && j.put == ToAppend))
        case Inside => j != NoJob
        case Releasing(w) => if w.Some? then j == Get(ToTest, true) else (j == Get(GetDone, false) || (j.Put? && j.put == PutDone))
        case Blocked(_) => j == Get(ToTest, true)
        case Discarding(_) => j == Get(ToTest, true)
        case Signalling(_, all) => j.Put? && j.put == PutDone && !all
        case Broadcasting => false)
    && (j.Get? && j.get == ToRemove ==> s.list != [] && s.m.Pc(t) == M.Inside)
    && (j.Get? && j.get == GetDone ==> !j.resumed)
    && (j.Put? && j.put == ToSignal ==> s.m.Pc(t) == M.Inside)
    && (j.Put? && j.put == ToAppend ==> j.item !in s.list)
    && (s.m.Pc(t) == M.Inside ==> t !in s.m.k.waiting)
  }

  /** In Wait with its semaphore still on the wait queue. */
  predicate Parked(s: SynchList, t: ThreadId) {
    M.Unserved(s.m.Pc(t)) && M.WaiterOf(s.m.Pc(t)).value in s.m.waitQueue
  }

  /** A consumer that was signalled and has not taken an item, nor gone back to waiting, since. */
  predicate IsSignalled(s: SynchList, t: ThreadId) {
    s.Job(t).Get? && s.Job(t).resumed && !Parked(s, t)
  }

  ghost function Signalled(s: SynchList): set<ThreadId> {
    set t | t in s.jobs && IsSignalled(s, t)
  }

  /** The lock holder has appended an item and not yet signalled. */
  predicate SignalDue(s: SynchList) {
    s.m.owner.Some? && s.Job(s.m.owner.value).Put? && s.Job(s.m.owner.value).put == ToSignal
  }

  ghost predicate CountInv(s: SynchList) {
    s.m.waitQueue != [] ==> |s.list| <= |Signalled(s)| + if SignalDue(s) then 1 else 0
  }

  ghost predicate ItemsInv(s: SynchList) {
    && s.appended == s.removed + s.list
    && Distinct(s.list)
    && (forall t: ThreadId, u: ThreadId ::
          t != u && s.Job(t).Put? && s.Job(t).put == ToAppend && s.Job(u).Put? && s.Job(u).put == ToAppend ==>
          s.Job(t).item != s.Job(u).item)
  }

  ghost predicate Inv(s: SynchList) {
    M.Inv(s.m) && (forall t: ThreadId :: JobInv(s, t)) && CountInv(s) && ItemsInv(s)
  }

  lemma StepAsserts(s: SynchList, a: Action)
    requires Inv(s) && Enabled(s, a)
    ensures Asserts(s, a) && M.Inv(Next(s, a).m)
  {
    assert JobInv(s, s.m.k.current);
    var ma := MonitorPart(s, a);
    if ma.Some? {
      M.StepKeeps(s.m, ma.value);
    }
  }

  lemma ItemsKept(s: SynchList, a: Action)
    requires ItemsInv(s) && Enabled(s, a) && Asserts(s, a)
    ensures ItemsInv(Next(s, a))
  {
    ListKept(s, a);
    var t := s.m.k.current;
    JobFrame(s, a);
    hide M.Enabled, M.Asserts, M.Next, Asserts;
    var s' := Next(s, a);
    forall u: ThreadId, v: ThreadId |
      u != v && s'.Job(u).Put? && s'.Job(u).put == ToAppend && s'.Job(v).Put? && s'.Job(v).put == ToAppend
      ensures s'.Job(u).item != s'.Job(v).item
    {
      assert s'.Job(t).Put? && s'.Job(t).put == ToAppend ==> a == StartAppend(s'.Job(t).item) || s'.Job(t) == s.Job(t);
    }
  }

  lemma ListKept(s: SynchList, a: Action)
    requires ItemsInv(s) && Enabled(s, a) && Asserts(s, a)
    ensures var s' := Next(s, a); s'.appended == s'.removed + s'.list && Distinct(s'.list)
  {
    hide M.Enabled, M.Asserts, M.Next;
    match a {
      case AppendItem =>
        DistinctAppend(s.list, s.Job(s.m.k.current).item);
      case RemoveItem =>
        DistinctTail(s.list);
      case _ =>
    }
  }

  lemma JobFrame(s: SynchList, a: Action)
    ensures forall u: ThreadId :: u != s.m.k.current ==> Next(s, a).Job(u) == s.Job(u)
  {
    hide M.Next;
  }

  /** The facts about action `a` that the fate of thread `t` depends on. */
  ghost predicate JobContext(s: SynchList, a: Action, t: ThreadId) {
    && Enabled(s, a)
    && Asserts(s, a)
    && ItemsInv(s)
    && JobInv(s, t)
    && JobInv(s, s.m.k.current)
    && M.ThreadInv(s.m, t)
    && M.ThreadInv(s.m, s.m.k.current)
  }

  lemma BystanderJobKept(s: SynchList, a: Action, t: ThreadId)
    requires JobContext(s, a, t) && t != s.m.k.current
    ensures JobInv(Next(s, a), t)
  {
    hide T.Asserts, T.Next, T.Enabled, M.Asserts, M.Next;
    var ma := MonitorPart(s, a);
    if ma.Some? {
      M.BystanderFrame(s.m, ma.value, t);
    }
    assert Next(s, a).Job(t) == s.Job(t);
  }

  lemma CurrentJobKept(s: SynchList, a: Action)
    requires JobContext(s, a, s.m.k.current) && !a.Step?
    ensures JobInv(Next(s, a), s.m.k.current)
  {
    hide T.Asserts, M.Asserts;
  }

  lemma CurrentJobKeptByP(s: SynchList, a: Action)
    requires JobContext(s, a, s.m.k.current) && (a == Step(M.LockP) || a == Step(M.WaiterP))
    ensures JobInv(Next(s, a), s.m.k.current)
  {
  }

  lemma CurrentJobKeptByRelease(s: SynchList, a: Action)
    requires JobContext(s, a, s.m.k.current) && a.Step? && (a.a.EnterRelease? || a.a.ReleaseV?)
    ensures JobInv(Next(s, a), s.m.k.current)
  {
    hide T.Asserts, M.Asserts;
  }

  lemma CurrentJobKeptBySignal(s: SynchList, a: Action)
    requires JobContext(s, a, s.m.k.current) && a.Step? && (a.a.EnterSignal? || a.a.SignalV?)
    ensures JobInv(Next(s, a), s.m.k.current)
  {
    hide T.Asserts, M.Asserts;
  }

  lemma CurrentJobKeptByStep(s: SynchList, a: Action)
    requires JobContext(s, a, s.m.k.current) && a.Step? && !a.a.Other? && !a.a.LockP? && !a.a.WaiterP?
    requires !a.a.EnterRelease? && !a.a.ReleaseV? && !a.a.EnterSignal? && !a.a.SignalV?
    ensures JobInv(Next(s, a), s.m.k.current)
  {
    hide T.Asserts, M.Asserts;
  }

  lemma CurrentJobKeptByKernel(s: SynchList, a: Action)
    requires JobContext(s, a, s.m.k.current) && a.Step? && a.a.Other?
    ensures JobInv(Next(s, a), s.m.k.current)
  {
  }

  lemma JobKept(s: SynchList, a: Action, t: ThreadId)
    requires JobContext(s, a, t)
    ensures JobInv(Next(s, a), t)
  {
    if t != s.m.k.current {
      BystanderJobKept(s, a, t);
    } else if !a.Step? {
      CurrentJobKept(s, a);
    } else if a.a.Other? {
      CurrentJobKeptByKernel(s, a);
    } else if a.a.LockP? || a.a.WaiterP? {
      CurrentJobKeptByP(s, a);
    } else if a.a.EnterRelease? || a.a.ReleaseV? {
      CurrentJobKeptByRelease(s, a);
    } else if a.a.EnterSignal? || a.a.SignalV? {
      CurrentJobKeptBySignal(s, a);
    } else {
      CurrentJobKeptByStep(s, a);
    }
  }

  // How one action changes the set of signalled consumers.

  lemma BystanderSignalled(s: SynchList, a: Action, t: ThreadId)
    requires Enabled(s, a) && t != s.m.k.current && a != Step(M.EnterSignal)
    requires M.ThreadInv(s.m, t)
    requires a.TestEmpty? && s.list == [] ==> M.WaiterInv(s.m, a.w)
    ensures IsSignalled(Next(s, a), t) <==> IsSignalled(s, t)
  {
    hide M.Next, M.Asserts;
    JobFrame(s, a);
    MonitorOf(s, a);
    var ma := MonitorPart(s, a);
    if ma.Some? {
      M.BystanderFrame(s.m, ma.value, t);
      M.QueueFrame(s.m, ma.value);
    }
    hide Next;
  }

  /** An action changes the monitor as its step does. */
  lemma MonitorOf(s: SynchList, a: Action)
    ensures var ma := MonitorPart(s, a); Next(s, a).m == if ma.Some? then M.Next(s.m, ma.value) else s.m
  {
    hide M.Next;
  }

  lemma CurrentSignalledByListCode(s: SynchList, a: Action)
    requires JobContext(s, a, s.m.k.current) && !a.Step? && !(a.TestEmpty? && s.list == []) && a != RemoveItem
    ensures IsSignalled(Next(s, a), s.m.k.current) <==> IsSignalled(s, s.m.k.current)
  {
    hide T.Asserts, T.Next, T.Enabled, M.Asserts;
  }

  lemma CurrentSignalledByP(s: SynchList, a: Action)
    requires JobContext(s, a, s.m.k.current) && a.Step? && (a.a.LockP? || a.a.WaiterP?)
    requires M.WaiterInv(s.m, M.Touched(s.m, M.WaiterP))
    requires forall w :: w in s.m.k.sems ==> s.m.k.sems[w].value >= 0
    ensures IsSignalled(Next(s, a), s.m.k.current) <==> IsSignalled(s, s.m.k.current)
  {
    hide T.Asserts, M.Asserts;
  }

  lemma CurrentSignalledByMonitor(s: SynchList, a: Action)
    requires JobContext(s, a, s.m.k.current) && a.Step? && a != Step(M.EnterSignal) && !a.a.LockP? && !a.a.WaiterP?
    ensures IsSignalled(Next(s, a), s.m.k.current) <==> IsSignalled(s, s.m.k.current)
  {
    hide T.Asserts, T.Next, M.Asserts;
  }

  lemma CurrentSignalled(s: SynchList, a: Action)
    requires JobContext(s, a, s.m.k.current)
    requires M.WaiterInv(s.m, M.Touched(s.m, M.WaiterP))
    requires forall w :: w in s.m.k.sems ==> s.m.k.sems[w].value >= 0
    requires !(a.TestEmpty? && s.list == []) && a != RemoveItem && a != Step(M.EnterSignal)
    ensures IsSignalled(Next(s, a), s.m.k.current) <==> IsSignalled(s, s.m.k.current)
  {
    hide JobContext, Next, IsSignalled, M.WaiterInv, M.Touched;
    if !a.Step? {
      CurrentSignalledByListCode(s, a);
    } else if a.a.LockP? || a.a.WaiterP? {
      CurrentSignalledByP(s, a);
    } else {
      CurrentSignalledByMonitor(s, a);
    }
  }

  /** Signal moves exactly the thread at the front of the wait queue into the set. */
  lemma SignalAddsFront(s: SynchList, t: ThreadId)
    requires JobContext(s, Step(M.EnterSignal), s.m.k.current) && s.m.waitQueue != []
    requires M.LockInv(s.m)
    requires M.WaiterInv(s.m, s.m.waitQueue[0]) && M.ThreadInv(s.m, t)
    requires forall w :: w in s.m.k.sems ==> s.m.k.sems[w].value >= 0
    requires s.m.waitQueue[0] in s.m.waiters ==> JobInv(s, s.m.waiters[s.m.waitQueue[0]])
    ensures s.m.waitQueue[0] in s.m.waiters
    ensures var u := s.m.waiters[s.m.waitQueue[0]];
      && !IsSignalled(s, u)
      && (IsSignalled(Next(s, Step(M.EnterSignal)), t) <==> IsSignalled(s, t) || t == u)
  {
    var s' := Next(s, Step(M.EnterSignal));
    var w := s.m.waitQueue[0];
    assert w in s.m.waitQueue;
    DistinctTail(s.m.waitQueue);
    if t != s.m.k.current {
      assert s'.m.Pc(t) == s.m.Pc(t) && s'.Job(t) == s.Job(t);
    }
  }

  lemma SignalMovesFront(s: SynchList, t: ThreadId)
    requires Inv(s) && Enabled(s, Step(M.EnterSignal)) && Asserts(s, Step(M.EnterSignal)) && s.m.waitQueue != []
    ensures s.m.waitQueue[0] in s.m.waiters
    ensures var u := s.m.waiters[s.m.waitQueue[0]];
      && !IsSignalled(s, u)
      && (IsSignalled(Next(s, Step(M.EnterSignal)), t) <==> IsSignalled(s, t) || t == u)
  {
    hide Next, Enabled, Asserts, IsSignalled, JobInv, M.ThreadInv, M.LockInv, T.ListsInv, T.CurrentInv, T.DoomedInv, T.Woken;
    var w := s.m.waitQueue[0];
    assert w in s.m.waitQueue;
    assert M.WaiterInv(s.m, w);
    assert M.ThreadInv(s.m, s.m.k.current) && JobInv(s, s.m.k.current) && M.ThreadInv(s.m, t);
    assert JobContext(s, Step(M.EnterSignal), s.m.k.current);
    if w in s.m.waiters {
      assert JobInv(s, s.m.waiters[w]);
    }
    SignalAddsFront(s, t);
  }

  lemma SignalledHaveJobs(s: SynchList)
    ensures forall t :: IsSignalled(s, t) ==> t in s.jobs
  {
  }

  lemma SignalledAfterSignal(s: SynchList)
    requires Inv(s) && Enabled(s, Step(M.EnterSignal)) && Asserts(s, Step(M.EnterSignal)) && s.m.waitQueue != []
    ensures |Signalled(Next(s, Step(M.EnterSignal)))| == |Signalled(s)| + 1
  {
    hide Inv, Enabled, Asserts, Next, IsSignalled;
    var s' := Next(s, Step(M.EnterSignal));
    SignalMovesFront(s, 0);
    var u := s.m.waiters[s.m.waitQueue[0]];
    forall t: ThreadId ensures IsSignalled(s', t) <==> IsSignalled(s, t) || t == u {
      SignalMovesFront(s, t);
    }
    SignalledHaveJobs(s);
    SignalledHaveJobs(s');
    assert Signalled(s') == Signalled(s) + {u};
  }

  lemma SignalledOtherwiseBy(s: SynchList, a: Action, t: ThreadId)
    requires Inv(s) && Enabled(s, a) && Asserts(s, a)
    requires a != Step(M.EnterSignal) && !(a.TestEmpty? && s.list == [])
    ensures IsSignalled(Next(s, a), t) <==> IsSignalled(s, t) && !(a == RemoveItem && t == s.m.k.current)
  {
    hide Next, Enabled, Asserts, IsSignalled, JobInv, M.ThreadInv, M.LockInv, M.WaiterInv, M.Touched,
      T.ListsInv, T.CurrentInv, T.DoomedInv, T.Woken;
    var c := s.m.k.current;
    assert M.ThreadInv(s.m, c) && JobInv(s, c) && M.ThreadInv(s.m, t);
    assert M.WaiterInv(s.m, M.Touched(s.m, M.WaiterP));
    if t != c {
      BystanderSignalled(s, a, t);
    } else if a == RemoveItem {
      TakerNotSignalled(s);
    } else {
      CurrentSignalled(s, a);
    }
  }

  lemma TakerNotSignalled(s: SynchList)
    requires Asserts(s, RemoveItem)
    ensures !IsSignalled(Next(s, RemoveItem), s.m.k.current)
  {
  }

  lemma SignalledOtherwise(s: SynchList, a: Action)
    requires Inv(s) && Enabled(s, a) && Asserts(s, a)
    requires a != Step(M.EnterSignal) && !(a.TestEmpty? && s.list == [])
    ensures Signalled(Next(s, a)) == if a == RemoveItem then Signalled(s) - {s.m.k.current} else Signalled(s)
  {
    hide Inv, Enabled, Asserts, Next, IsSignalled;
    forall t: ThreadId
      ensures IsSignalled(Next(s, a), t) <==> IsSignalled(s, t) && !(a == RemoveItem && t == s.m.k.current)
    {
      SignalledOtherwiseBy(s, a, t);
    }
    SignalledHaveJobs(s);
    SignalledHaveJobs(Next(s, a));
  }

  lemma CountAfterSignal(s: SynchList)
    requires CountInv(s) && JobContext(s, Step(M.EnterSignal), s.m.k.current)
    requires s.m.waitQueue != [] ==> |Signalled(Next(s, Step(M.EnterSignal)))| == |Signalled(s)| + 1
    ensures CountInv(Next(s, Step(M.EnterSignal)))
  {
  }

  lemma StepLeavesCounts(s: SynchList, a: Action)
    requires JobContext(s, a, s.m.k.current) && a.Step? && a != Step(M.EnterSignal)
    requires M.LockInv(s.m) && (s.m.owner.Some? ==> JobInv(s, s.m.owner.value))
    ensures Next(s, a).list == s.list && Next(s, a).m.waitQueue == s.m.waitQueue
    ensures SignalDue(s) ==> SignalDue(Next(s, a))
  {
    hide M.Next, M.Asserts, M.LockInv;
    M.QueueFrame(s.m, a.a);
    JobFrame(s, a);
    if SignalDue(s) {
      OwnerStays(s, a);
    }
  }

  /** Whoever is about to signal does not give up the lock. */
  lemma OwnerStays(s: SynchList, a: Action)
    requires JobContext(s, a, s.m.k.current) && a.Step? && a != Step(M.EnterSignal)
    requires M.LockInv(s.m) && SignalDue(s) && JobInv(s, s.m.owner.value)
    ensures Next(s, a).m.owner == s.m.owner && Next(s, a).Job(s.m.owner.value) == s.Job(s.m.owner.value)
  {
    hide T.Asserts, M.Asserts, T.Next;
  }

  lemma CountAfterListCode(s: SynchList, a: Action)
    requires CountInv(s) && JobContext(s, a, s.m.k.current) && !a.Step?
    requires !(a.TestEmpty? && s.list == []) ==>
      Signalled(Next(s, a)) == if a == RemoveItem then Signalled(s) - {s.m.k.current} else Signalled(s)
    ensures CountInv(Next(s, a))
  {
    hide T.Asserts, M.Asserts;
  }

  lemma ContextHolds(s: SynchList, a: Action, t: ThreadId)
    requires Inv(s) && Enabled(s, a) && Asserts(s, a)
    ensures JobContext(s, a, t)
  {
    hide Enabled, Asserts, ItemsInv, CountInv, JobInv, M.ThreadInv, M.LockInv, T.Inv;
    assert JobInv(s, t) && JobInv(s, s.m.k.current) && M.ThreadInv(s.m, t) && M.ThreadInv(s.m, s.m.k.current);
  }

  lemma CountKept(s: SynchList, a: Action)
    requires Inv(s) && Enabled(s, a) && Asserts(s, a)
    ensures CountInv(Next(s, a))
  {
    hide Enabled, Asserts, Next, JobContext, JobInv, Signalled, M.ThreadInv, M.LockInv, T.Inv;
    ContextHolds(s, a, s.m.k.current);
    if a == Step(M.EnterSignal) {
      if s.m.waitQueue != [] {
        SignalledAfterSignal(s);
      }
      CountAfterSignal(s);
    } else {
      if !(a.TestEmpty? && s.list == []) {
        SignalledOtherwise(s, a);
      }
      if a.Step? {
        assert s.m.owner.Some? ==> JobInv(s, s.m.owner.value);
        StepLeavesCounts(s, a);
      } else {
        CountAfterListCode(s, a);
      }
    }
  }

  /** Every action passes its ASSERTs and keeps the invariant. */
  lemma StepKeeps(s: SynchList, a: Action)
    requires Inv(s) && Enabled(s, a)
    ensures Asserts(s, a) && Inv(Next(s, a))
  {
    hide Enabled, Asserts, Next, JobContext, JobInv, CountInv, ItemsInv, M.Inv;
    StepAsserts(s, a);
    ItemsKept(s, a);
    CountKept(s, a);
    forall t: ThreadId ensures JobInv(Next(s, a), t) {
      ContextHolds(s, a, t);
      JobKept(s, a, t);
    }
  }

  // ---------------------------------------------------------------- whole runs

  /** A list just made, in a kernel whose threads do not use it yet. */
  ghost predicate Fresh(s: SynchList) {
    M.Fresh(s.m) && s.list == [] && s.jobs == map[] && s.appended == [] && s.removed == []
  }

  ghost predicate Legal(s: SynchList, run: seq<Action>)
    decreases |run|
  {
    run == [] || (Enabled(s, run[0]) && Legal(Next(s, run[0]), run[1..]))
  }

  ghost function After(s: SynchList, run: seq<Action>): SynchList
    decreases |run|
  {
    if run == [] then s else After(Next(s, run[0]), run[1..])
  }

  lemma {:induction false} RunKeeps(s: SynchList, run: seq<Action>)
    requires Inv(s) && Legal(s, run)
    ensures Inv(After(s, run))
    decreases |run|
  {
    if run != [] {
      StepKeeps(s, run[0]);
      RunKeeps(Next(s, run[0]), run[1..]);
    }
  }

  lemma FreshReaches(s: SynchList, run: seq<Action>)
    requires Fresh(s) && Legal(s, run)
    ensures Inv(After(s, run))
  {
    M.FreshReaches(s.m, []);
    assert forall t: ThreadId :: JobInv(s, t);
    RunKeeps(s, run);
  }

  /** RemoveFront never takes from an empty list, Append never adds an item twice, and no ASSERT below them fails. */
  lemma NoAssertFails(s: SynchList, run: seq<Action>, a: Action)
    requires Fresh(s) && Legal(s, run) && Enabled(After(s, run), a)
    ensures Asserts(After(s, run), a)
  {
    FreshReaches(s, run);
    StepKeeps(After(s, run), a);
  }

  /** First in, first out, over every run: what was ever appended is what was ever removed, in order,
      followed by what is on the list now; and the list holds no item twice. */
  lemma Fifo(s: SynchList, run: seq<Action>)
    requires Fresh(s) && Legal(s, run)
    ensures After(s, run).appended == After(s, run).removed + After(s, run).list
    ensures Distinct(After(s, run).list)
  {
    FreshReaches(s, run);
  }

  /** Whenever the lock is free and somebody is on the wait queue, there is a consumer already signalled,
      and still on its way back to the list, for every item on the list. */
  lemma NoLostWakeup(s: SynchList, run: seq<Action>)
    requires Fresh(s) && Legal(s, run)
    requires After(s, run).m.owner == None && After(s, run).m.waitQueue != []
    ensures |After(s, run).list| <= |Signalled(After(s, run))|
    ensures forall t :: t in Signalled(After(s, run)) ==>
      After(s, run).m.Pc(t).Blocked? || After(s, run).m.Pc(t).Acquire?
  {
    FreshReaches(s, run);
    var e := After(s, run);
    forall t | t in Signalled(e) ensures e.m.Pc(t).Blocked? || e.m.Pc(t).Acquire? {
      assert JobInv(e, t) && M.ThreadInv(e.m, t);
    }
  }

  /** No thread can run until an interrupt handler readies one. */
  predicate Quiet(k: T.Kernel) {
    k.mode.Sleeping? && k.ready == []
  }

  /** When the machine goes quiet, every call of Append has returned, and a call of RemoveFront that has not
      is waiting for a signal while the list is empty. */
  lemma QuietMeansEmpty(s: SynchList, run: seq<Action>, t: ThreadId)
    requires Fresh(s) && Legal(s, run) && Quiet(After(s, run).m.k)
    ensures After(s, run).Job(t) != NoJob ==>
      Parked(After(s, run), t) && After(s, run).list == []
  {
    FreshReaches(s, run);
    var e := After(s, run);
    QuietOwner(e);
    if e.Job(t) != NoJob {
      QuietParked(e, t);
      assert Signalled(e) == {} by {
        forall u ensures !IsSignalled(e, u) {
          if e.Job(u) != NoJob {
            QuietParked(e, u);
          }
        }
      }
    }
  }

  lemma QuietOwner(e: SynchList)
    requires Inv(e) && Quiet(e.m.k)
    ensures e.m.owner == None
  {
    forall t: ThreadId ensures e.m.owner != Some(t) {
      assert M.ThreadInv(e.m, t) && JobInv(e, t);
    }
  }

  lemma QuietParked(e: SynchList, t: ThreadId)
    requires Inv(e) && Quiet(e.m.k) && e.m.owner == None && e.Job(t) != NoJob
    ensures Parked(e, t)
  {
    assert M.ThreadInv(e.m, t) && JobInv(e, t);
    assert T.Queued(e.m.k, t);
    if e.m.Pc(t).Acquire? {
      QuietWoken(e.m.k, e.m.lock);
    } else {
      var w := e.m.Pc(t).w;
      assert M.WaiterInv(e.m, w);
      QuietWoken(e.m.k, w);
    }
  }

  /** In a quiet kernel no thread is between being woken and its test: a semaphore with a queue is at 0. */
  lemma QuietWoken(k: T.Kernel, s: SemId)
    requires T.Inv(k) && Quiet(k) && s in k.sems
    ensures k.sems[s].queue != [] ==> k.sems[s].value == 0
  {
    if k.sems[s].queue != [] {
      forall t ensures t !in T.Woken(k, s) {
      }
      assert T.Woken(k, s) == {};
    }
  }
}
