/**
 What the scheduler promises of its lists (threads/scheduler.cc, threads/thread.cc, threads/synch.cc): threads that yield take
 turns, and the ready list and the queues of semaphores are first in, first out, over whole runs.  All is said of the fields
 before and after the actions.
 */
module RoundRobin {
  import opened Common
  import opened Threads

  // ---------------------------------------------------------------- one turn

  /** Yield and what the next thread does first: the front of the ready list runs, the caller is last in line, and nothing else
      changes. */
  lemma YieldTurn(k: Kernel)
    requires Inv(k) && k.Free() && k.ready != []
    ensures Enabled(k, Yield) && Enabled(Next(k, Yield), CleanUp)
    ensures var k' := Next(Next(k, Yield), CleanUp);
      && k'.current == k.ready[0] && k'.ready == k.ready[1..] + [k.current] && k'.mode == Executing
      && k'.sems == k.sems && k'.waiting == k.waiting && k'.live == k.live && k'.finished == k.finished
      && k'.deleted == k.deleted && k'.toBeDestroyed == None
  {
    hide ListsInv, CountInv;
    assert (k.ready + [k.current])[1..] == k.ready[1..] + [k.current];
  }

  /** With nobody ready, Yield returns at once. */
  lemma YieldAlone(k: Kernel)
    requires k.Free() && k.ready == []
    ensures Next(k, Yield) == k
  {
  }

  /** What Sleep does when it finds a ready thread, and what that thread does first: the front runs, with the rest in line; a
      caller that has finished is deleted. */
  lemma DispatchTurn(k: Kernel)
    requires Inv(k) && k.mode.Sleeping? && k.ready != []
    ensures Enabled(k, Dispatch) && Enabled(Next(k, Dispatch), CleanUp)
    ensures var k' := Next(Next(k, Dispatch), CleanUp);
      && k'.current == k.ready[0] && k'.ready == k.ready[1..] && k'.mode == Executing && k'.toBeDestroyed == None
      && k'.sems == k.sems && k'.waiting == k.waiting && k'.finished == k.finished
      && k'.deleted == k.deleted + (if k.mode.finishing && k.current != k.ready[0] then [k.current] else [])
      && k'.live == if k.mode.finishing then k.live - {k.current} else k.live
  {
    hide ListsInv, CountInv;
  }

  // ---------------------------------------------------------------- round robin

  /** The running thread and those in line behind it. */
  function Line(k: Kernel): seq<ThreadId> {
    [k.current] + k.ready
  }

  function Rotated(line: seq<ThreadId>, i: nat): seq<ThreadId>
    requires i <= |line|
  {
    line[i..] + line[..i]
  }

  function Turns(n: nat): seq<Action> {
    if n == 0 then [] else [Yield, CleanUp] + Turns(n - 1)
  }

  /** Nobody in line is inside a P. */
  predicate AllFree(k: Kernel) {
    k.mode == Executing && forall t :: t in Line(k) ==> t !in k.waiting
  }

  lemma OneRotation(line: seq<ThreadId>, i: nat)
    requires i < |line|
    ensures Rotated(line, i) != [] && Rotated(line, i)[1..] + [Rotated(line, i)[0]] == Rotated(line, i + 1)
  {
  }

  lemma {:induction false} TurnsFrom(k: Kernel, line: seq<ThreadId>, i: nat, n: nat)
    requires Inv(k) && AllFree(k) && |line| > 1 && i + n <= |line| && Line(k) == Rotated(line, i)
    ensures Legal(k, Turns(n)) && Line(After(k, Turns(n))) == Rotated(line, i + n)
    ensures After(k, Turns(n)).mode == Executing && After(k, Turns(n)).sems == k.sems
    decreases n
  {
    hide Inv, Next, Enabled, AllFree, Rotated;
    if n > 0 {
      var k1 := Next(k, Yield);
      var k2 := Next(k1, CleanUp);
      TurnOnLine(k, line, i);
      TurnsFrom(k2, line, i + 1, n - 1);
      assert Turns(n)[1..] == [CleanUp] + Turns(n - 1) && Turns(n)[1..][1..] == Turns(n - 1);
      assert Turns(n)[0] == Yield && Turns(n)[1..][0] == CleanUp;
    } else {
      StillExecuting(k);
    }
  }

  lemma StillExecuting(k: Kernel)
    requires AllFree(k)
    ensures k.mode == Executing
  {
  }

  lemma TurnOnLine(k: Kernel, line: seq<ThreadId>, i: nat)
    requires Inv(k) && AllFree(k) && |line| > 1 && i < |line| && Line(k) == Rotated(line, i)
    ensures Enabled(k, Yield) && Enabled(Next(k, Yield), CleanUp)
    ensures var k2 := Next(Next(k, Yield), CleanUp);
      Inv(k2) && AllFree(k2) && Line(k2) == Rotated(line, i + 1) && k2.sems == k.sems
  {
    hide Inv, Next;
    assert Line(k)[0] == k.current && Line(k)[1..] == k.ready;
    YieldTurn(k);
    StepKeeps(k, Yield);
    StepKeeps(Next(k, Yield), CleanUp);
    OneRotation(line, i);
  }

  /** Round robin: threads that only yield run in the order of the line, each once, until the line is as it was. */
  lemma TakeTurns(k: Kernel, n: nat)
    requires Inv(k) && AllFree(k) && k.ready != [] && n <= |Line(k)|
    ensures Legal(k, Turns(n))
    ensures var k' := After(k, Turns(n));
      && (n < |Line(k)| ==> k'.current == Line(k)[n] && k'.ready == Line(k)[n + 1..] + Line(k)[..n])
      && (n == |Line(k)| ==> k'.current == k.current && k'.ready == k.ready)
  {
    hide Inv, Legal, After;
    assert Rotated(Line(k), 0) == Line(k);
    TurnsFrom(k, Line(k), 0, n);
    var k' := After(k, Turns(n));
    assert k'.current == Line(k')[0] && k'.ready == Line(k')[1..];
    if n < |Line(k)| {
      assert Rotated(Line(k), n)[1..] == Line(k)[n + 1..] + Line(k)[..n];
    } else {
      assert Rotated(Line(k), n) == Line(k);
    }
  }

  // ---------------------------------------------------------------- first in, first out

  /** Two stretches of a queue's life make one. */
  lemma QueuesJoin<X>(q: seq<X>, b: seq<X>, d: seq<X>, q': seq<X>, c: seq<X>, e: seq<X>, q'': seq<X>)
    requires q + b == d + q' && q' + c == e + q''
    ensures q + (b + c) == (d + e) + q''
  {
    assert q + (b + c) == (q + b) + c;
    assert (d + q') + c == d + (q' + c);
    assert d + (e + q'') == (d + e) + q'';
  }

  /** Whom an action makes ready: the first that waits for the semaphore, the new thread, or the caller of Yield. */
  function Readied(k: Kernel, a: Action): seq<ThreadId> {
    match a
    case Signal(s) => if s in k.sems && k.sems[s].queue != [] then [k.sems[s].queue[0]] else []
    case Handler(s) => if s in k.sems && k.sems[s].queue != [] then [k.sems[s].queue[0]] else []
    case Fork(t) => [t]
    case Yield => if k.ready != [] then [k.current] else []
    case _ => []
  }

  /** Who gets the processor: the thread that is found just past SWITCH. */
  function Dispatched(k: Kernel, k': Kernel): seq<ThreadId> {
    if k'.mode == Arriving && k.mode != Arriving then [k'.current] else []
  }

  function AllReadied(k: Kernel, run: seq<Action>): seq<ThreadId>
    decreases |run|
  {
    if run == [] then [] else Readied(k, run[0]) + AllReadied(Next(k, run[0]), run[1..])
  }

  function AllDispatched(k: Kernel, run: seq<Action>): seq<ThreadId>
    decreases |run|
  {
    if run == [] then [] else Dispatched(k, Next(k, run[0])) + AllDispatched(Next(k, run[0]), run[1..])
  }

  lemma ReadyStep(k: Kernel, a: Action)
    requires Enabled(k, a)
    ensures k.ready + Readied(k, a) == Dispatched(k, Next(k, a)) + Next(k, a).ready
  {
  }

  /** The ready list is a queue: over any run, those that were ready and those made ready are, in order, those dispatched and
      those ready still. */
  lemma {:induction false} ReadyFifo(k: Kernel, run: seq<Action>)
    requires Legal(k, run)
    ensures k.ready + AllReadied(k, run) == AllDispatched(k, run) + After(k, run).ready
    decreases |run|
  {
    if run != [] {
      ReadyStep(k, run[0]);
      var k' := Next(k, run[0]);
      hide Next, Enabled, Readied, Dispatched;
      ReadyFifo(k', run[1..]);
      QueuesJoin(k.ready, Readied(k, run[0]), Dispatched(k, k'), k'.ready,
                 AllReadied(k', run[1..]), AllDispatched(k', run[1..]), After(k', run[1..]).ready);
    }
  }

  /** Whom an action puts to sleep on semaphore `s`: the caller of P that finds it 0. */
  function PutToSleep(k: Kernel, a: Action, s: SemId): seq<ThreadId> {
    if a == Attempt(s) && s in k.sems && k.sems[s].value == 0 then [k.current] else []
  }

  /** Whom a V on `s` wakes: what it adds to the ready list. */
  function WokenBy(k: Kernel, a: Action, s: SemId): seq<ThreadId> {
    if (a == Signal(s) || a == Handler(s)) && |Next(k, a).ready| >= |k.ready| then Next(k, a).ready[|k.ready|..] else []
  }

  function AllPutToSleep(k: Kernel, run: seq<Action>, s: SemId): seq<ThreadId>
    decreases |run|
  {
    if run == [] then [] else PutToSleep(k, run[0], s) + AllPutToSleep(Next(k, run[0]), run[1..], s)
  }

  function AllWokenBy(k: Kernel, run: seq<Action>, s: SemId): seq<ThreadId>
    decreases |run|
  {
    if run == [] then [] else WokenBy(k, run[0], s) + AllWokenBy(Next(k, run[0]), run[1..], s)
  }

  lemma QueueStep(k: Kernel, a: Action, s: SemId)
    requires Enabled(k, a) && s in k.sems && a != Delete(s)
    ensures s in Next(k, a).sems
    ensures k.sems[s].queue + PutToSleep(k, a, s) == WokenBy(k, a, s) + Next(k, a).sems[s].queue
  {
  }

  /** So is the queue of each semaphore: V wakes in the order in which P put to sleep. */
  lemma {:induction false} QueueFifo(k: Kernel, run: seq<Action>, s: SemId)
    requires Legal(k, run) && s in k.sems && Delete(s) !in run
    ensures s in After(k, run).sems
    ensures k.sems[s].queue + AllPutToSleep(k, run, s) == AllWokenBy(k, run, s) + After(k, run).sems[s].queue
    decreases |run|
  {
    if run != [] {
      assert run[0] in run;
      QueueStep(k, run[0], s);
      var k' := Next(k, run[0]);
      hide Next, Enabled, PutToSleep, WokenBy;
      QueueFifo(k', run[1..], s);
      QueuesJoin(k.sems[s].queue, PutToSleep(k, run[0], s), WokenBy(k, run[0], s), k'.sems[s].queue,
                 AllPutToSleep(k', run[1..], s), AllWokenBy(k', run[1..], s), After(k', run[1..]).sems[s].queue);
    }
  }

  // ---------------------------------------------------------------- birth and death

  /** Threads forked in a run, and threads that called Finish in it. */
  function Forked(run: seq<Action>): set<ThreadId> {
    set i | 0 <= i < |run| && run[i].Fork? :: run[i].t
  }

  function Finishers(k: Kernel, run: seq<Action>): set<ThreadId>
    decreases |run|
  {
    if run == [] then {} else (if run[0] == Finish then {k.current} else {}) + Finishers(Next(k, run[0]), run[1..])
  }

  function Elements(s: seq<ThreadId>): set<ThreadId> {
    set t | t in s
  }

  lemma LifeStep(k: Kernel, a: Action)
    requires Inv(k) && Enabled(k, a)
    ensures Next(k, a).finished == k.finished + if a == Finish then {k.current} else {}
    ensures Next(k, a).live + Elements(Next(k, a).deleted) ==
      k.live + Elements(k.deleted) + if a.Fork? then {a.t} else {}
  {
    hide ListsInv, CountInv;
    if a == CleanUp && k.toBeDestroyed.Some? {
      var t := k.toBeDestroyed.value;
      assert Elements(k.deleted + [t]) == Elements(k.deleted) + {t};
    }
  }

  lemma NobodyForked()
    ensures Forked([]) == {}
  {
  }

  lemma ForkedSplits(run: seq<Action>)
    requires run != []
    ensures Forked(run) == (if run[0].Fork? then {run[0].t} else {}) + Forked(run[1..])
  {
    forall t | t in Forked(run) ensures t in (if run[0].Fork? then {run[0].t} else {}) + Forked(run[1..]) {
      var i :| 0 <= i < |run| && run[i].Fork? && run[i].t == t;
      if i > 0 {
        assert run[1..][i - 1] == run[i];
      }
    }
    forall t | t in Forked(run[1..]) ensures t in Forked(run) {
      var i :| 0 <= i < |run| - 1 && run[1..][i].Fork? && run[1..][i].t == t;
      assert run[i + 1] == run[1..][i];
    }
  }

  lemma {:induction false} LifeOver(k: Kernel, run: seq<Action>)
    requires Inv(k) && Legal(k, run)
    ensures After(k, run).finished == k.finished + Finishers(k, run)
    ensures After(k, run).live + Elements(After(k, run).deleted) == k.live + Elements(k.deleted) + Forked(run)
    decreases |run|
  {
    if run != [] {
      hide Inv, Next, Enabled, Forked, Elements;
      LifeStep(k, run[0]);
      StepKeeps(k, run[0]);
      ForkedSplits(run);
      LifeOver(Next(k, run[0]), run[1..]);
    } else {
      assert Forked(run) == {} by { NobodyForked(); }
    }
  }

  /** From boot, the threads alive or deleted are the main thread and those forked; those finished are those that called
      Finish, and none of them is ever past it: it is deleted, about to be, or asleep for good. */
  lemma LivesOnceForked(main: ThreadId, run: seq<Action>)
    requires Legal(Boot(main), run)
    ensures var k := After(Boot(main), run);
      && k.live + Elements(k.deleted) == {main} + Forked(run)
      && k.finished == Finishers(Boot(main), run)
      && (forall t :: t in Finishers(Boot(main), run) ==> !(t == k.current && k.mode == Executing) && t !in k.ready)
  {
    BootInv(main);
    LifeOver(Boot(main), run);
    RunKeeps(Boot(main), run);
    DeletedOnceAndNeverRunning(main, run);
    hide ListsInv, CountInv;
  }

  /** A new semaphore counts from its initial value. */
  lemma CreatedCounts(k: Kernel, s: SemId, initial: int, run: seq<Action>)
    requires Inv(k) && Enabled(k, Create(s, initial)) && Legal(Next(k, Create(s, initial)), run) && Delete(s) !in run
    ensures var k' := Next(k, Create(s, initial));
      s in After(k', run).sems && After(k', run).sems[s].value == initial + Vs(run, s) - Ps(k', run, s)
  {
    StepKeeps(k, Create(s, initial));
    SemaphoreConserves(Next(k, Create(s, initial)), run, s);
    hide Inv, Legal, After;
  }
}
