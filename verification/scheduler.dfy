/**
 The thread kernel in its own form (threads/scheduler.cc, threads/thread.cc, Semaphore in threads/synch.cc): fields changed
 in place, each routine proved against the step machine of module Threads.

 A routine that calls SWITCH comes back only when its thread runs again.  What the other threads and the interrupt handlers
 do in the meantime is a parameter, `script`.
 */
module Scheduling {
  import opened Common
  import T = Threads

  type ThreadId = T.ThreadId
  type SemId = T.SemId

  class NachosKernel {
    var currentThread: ThreadId
    var mode: T.Mode
    var readyList: seq<ThreadId>
    var toBeDestroyed: Option<ThreadId>
    var semaphores: map<SemId, T.Sem>
    var waiting: map<ThreadId, SemId>
    var live: set<ThreadId>
    var finished: set<ThreadId>
    var deleted: seq<ThreadId>

    function View(): T.Kernel
      reads this
    {
      T.Kernel(currentThread, mode, readyList, toBeDestroyed, semaphores, waiting, live, finished, deleted)
    }

    constructor (main: ThreadId)
      ensures View() == T.Boot(main)
    {
      currentThread, mode, readyList, toBeDestroyed, semaphores := main, T.Executing, [], None, map[];
      waiting, live, finished, deleted := map[], {main}, {}, [];
    }

    /** List::Append asserts that the thread is not on the list. */
    method ReadyToRun(thread: ThreadId)
      requires thread !in readyList
      modifies this`readyList
      ensures View() == T.ReadyToRun(old(View()), thread)
    {
      readyList := readyList + [thread];
    }

    method FindNextToRun() returns (next: Option<ThreadId>)
      modifies this`readyList
      ensures if old(readyList) == [] then next == None && readyList == []
        else next == Some(old(readyList)[0]) && readyList == old(readyList)[1..]
    {
      if readyList == [] {
        return None;
      }
      next := Some(readyList[0]);
      readyList := readyList[1..];
    }

    /** Up to SWITCH. */
    method Run(nextThread: ThreadId, finishing: bool)
      requires finishing ==> toBeDestroyed == None
      modifies this`toBeDestroyed, this`currentThread, this`mode
      ensures View() == old(View()).(
        toBeDestroyed := if finishing then Some(old(currentThread)) else old(toBeDestroyed),
        current := nextThread, mode := T.Arriving)
    {
      if finishing {
        toBeDestroyed := Some(currentThread);
      }
      currentThread := nextThread;
      mode := T.Arriving;
    }

    /** Behind SWITCH, in the new thread; also what Thread::Begin does first. */
    method CheckToBeDestroyed()
      requires T.Inv(View()) && T.Enabled(View(), T.CleanUp)
      modifies this`toBeDestroyed, this`mode, this`live, this`deleted
      ensures View() == T.Next(old(View()), T.CleanUp) && T.Inv(View())
    {
      hide T.Inv;
      T.StepKeeps(View(), T.CleanUp);
      if toBeDestroyed.Some? {
        assert toBeDestroyed.value != currentThread;   // ASSERT in Thread::~Thread
        live, deleted := live - {toBeDestroyed.value}, deleted + [toBeDestroyed.value];
        toBeDestroyed := None;
      }
      mode := T.Executing;
    }

    method V(s: SemId, ghost byHandler: bool)
      requires T.Inv(View()) && T.Enabled(View(), if byHandler then T.Handler(s) else T.Signal(s))
      modifies this`readyList, this`semaphores
      ensures View() == T.Next(old(View()), if byHandler then T.Handler(s) else T.Signal(s)) && T.Inv(View())
      ensures semaphores.Keys == old(semaphores).Keys
    {
      hide T.Inv;
      T.StepKeeps(View(), if byHandler then T.Handler(s) else T.Signal(s));
      var sem := semaphores[s];
      if sem.queue != [] {
        ReadyToRun(sem.queue[0]);
        sem := sem.(queue := sem.queue[1..]);
      }
      semaphores := semaphores[s := sem.(value := sem.value + 1)];
    }

    method Fork(t: ThreadId)
      requires T.Inv(View()) && T.Enabled(View(), T.Fork(t))
      modifies this`readyList, this`live
      ensures View() == T.Next(old(View()), T.Fork(t)) && T.Inv(View())
    {
      hide T.Inv;
      T.StepKeeps(View(), T.Fork(t));
      ReadyToRun(t);
      live := live + {t};
    }

    /** Up to SWITCH, if any other thread is ready. */
    method Yield()
      requires T.Inv(View()) && T.Enabled(View(), T.Yield)
      modifies this
      ensures View() == T.Next(old(View()), T.Yield) && T.Inv(View())
      ensures if old(readyList) == [] then View() == old(View()) else
        currentThread == old(readyList)[0] && readyList == old(readyList)[1..] + [old(currentThread)] && mode == T.Arriving
    {
      hide T.Inv;
      T.StepKeeps(View(), T.Yield);
      ghost var ready := readyList;
      var nextThread := FindNextToRun();
      if nextThread.Some? {
        assert (ready + [currentThread])[1..] == readyList + [currentThread];
        ReadyToRun(currentThread);
        Run(nextThread.value, false);
      }
    }

    /** The first part of Sleep: the thread no longer runs. */
    method Block(finishing: bool)
      modifies this`mode
      ensures View() == old(View()).(mode := T.Sleeping(finishing))
    {
      mode := T.Sleeping(finishing);
    }

    /** The loop of Sleep: idle until an interrupt makes a thread ready, then run it.  `interrupts` are the semaphores that
        the handlers V, in order; if they make nobody ready the processor stays idle. */
    method SleepLoop(interrupts: seq<SemId>) returns (used: nat)
      requires T.Inv(View()) && mode.Sleeping? && forall i :: 0 <= i < |interrupts| ==> interrupts[i] in semaphores
      modifies this
      ensures T.Inv(View()) && used <= |interrupts|
      ensures var slept := T.After(old(View()), Handlers(interrupts[..used]));
        && T.Legal(old(View()), Handlers(interrupts[..used]))
        && if slept.ready != [] then T.Enabled(slept, T.Dispatch) && View() == T.Next(slept, T.Dispatch)
           else used == |interrupts| && View() == slept
    {
      EmptyRun(View());
      hide T.Inv, T.Asserts, T.Legal, T.After, T.Next, Handlers;
      HandlersGrow(interrupts, 0);
      ghost var start := View();
      ghost var trace: seq<T.Action> := [];
      used := 0;
      while readyList == [] && used < |interrupts|
        invariant used <= |interrupts| && T.Inv(View()) && mode.Sleeping?
        invariant semaphores.Keys == start.sems.Keys
        invariant trace == Handlers(interrupts[..used]) && T.Legal(start, trace) && View() == T.After(start, trace)
      {
        HandlersGrow(interrupts, used);
        T.RunExtends(start, trace, T.Handler(interrupts[used]));
        V(interrupts[used], true);
        trace := trace + [T.Handler(interrupts[used])];
        used := used + 1;
      }
      if readyList != [] {
        Dispatch();
      }
    }

    method Dispatch()
      requires T.Inv(View()) && T.Enabled(View(), T.Dispatch)
      modifies this
      ensures View() == T.Next(old(View()), T.Dispatch) && T.Inv(View())
      ensures currentThread == old(readyList)[0] && readyList == old(readyList)[1..] && mode == T.Arriving
    {
      hide T.Inv;
      T.StepKeeps(View(), T.Dispatch);
      var nextThread := FindNextToRun();
      Run(nextThread.value, mode.finishing);
    }

    /** One turn of the loop of P: take the semaphore, or queue up and block. */
    method TryP(s: SemId) returns (taken: bool)
      requires T.Inv(View()) && T.Enabled(View(), T.Attempt(s))
      modifies this
      ensures View() == T.Next(old(View()), T.Attempt(s)) && T.Inv(View())
      ensures taken <==> old(semaphores)[s].value != 0
    {
      hide T.Inv;
      T.StepKeeps(View(), T.Attempt(s));
      var sem := semaphores[s];
      if sem.value == 0 {
        assert currentThread !in sem.queue;   // ASSERT in List::Append
        semaphores := semaphores[s := sem.(queue := sem.queue + [currentThread])];
        waiting := waiting[currentThread := s];
        Block(false);
        return false;
      }
      semaphores := semaphores[s := sem.(value := sem.value - 1)];
      waiting := waiting - {currentThread};
      return true;
    }

    method Finish()
      requires T.Inv(View()) && T.Enabled(View(), T.Finish)
      modifies this
      ensures View() == T.Next(old(View()), T.Finish) && T.Inv(View())
    {
      hide T.Inv;
      T.StepKeeps(View(), T.Finish);
      finished := finished + {currentThread};
      Block(true);
    }

    /** Whatever some thread, or an interrupt handler, does next. */
    method Perform(a: T.Action)
      requires T.Inv(View()) && T.Enabled(View(), a)
      modifies this
      ensures View() == T.Next(old(View()), a) && T.Inv(View())
    {
      hide T.Inv;
      T.StepKeeps(View(), a);
      match a {
        case Attempt(s) => var taken := TryP(s);
        case Signal(s) => V(s, false);
        case Handler(s) => V(s, true);
        case Yield => Yield();
        case Fork(t) => Fork(t);
        case Finish => Finish();
        case Dispatch => Dispatch();
        case CleanUp => CheckToBeDestroyed();
        case Create(s, initial) => semaphores := semaphores[s := T.Sem(initial, [])];
        case Delete(s) => semaphores := semaphores - {s};
      }
    }

    /** The other threads and the handlers, until this thread runs again behind CheckToBeDestroyed. */
    method RunOthers(me: ThreadId, script: seq<T.Action>) returns (left: seq<T.Action>, ghost trace: seq<T.Action>)
      requires T.Inv(View())
      modifies this
      ensures T.Inv(View()) && T.Legal(old(View()), trace) && View() == T.After(old(View()), trace) && trace + left == script
      ensures (currentThread == me && mode == T.Executing) || left == [] || !T.Enabled(View(), left[0])
      ensures me in waiting <==> me in old(waiting)
      ensures me in waiting ==> waiting[me] == old(waiting)[me]
    {
      left, trace := script, [];
      EmptyRun(View());
      hide T.Inv, T.Asserts, T.Legal, T.After, T.Next, T.Enabled;
      while !(currentThread == me && mode == T.Executing) && left != []
        invariant T.Inv(View()) && T.Legal(old(View()), trace) && View() == T.After(old(View()), trace)
        invariant trace + left == script
        invariant me in waiting <==> me in old(waiting)
        invariant me in waiting ==> waiting[me] == old(waiting)[me]
        decreases |left|
      {
        if !T.Enabled(View(), left[0]) {
          return;
        }
        T.RunExtends(old(View()), trace, left[0]);
        T.OthersKeepWaiting(View(), left[0], me);
        Perform(left[0]);
        assert trace + left == (trace + [left[0]]) + left[1..];
        trace, left := trace + [left[0]], left[1..];
      }
    }

    /** Semaphore::P.  If `done`, the thread runs again and has just taken one unit; if not, `script` ran out, or asked for
        something impossible, while it waited. */
    method P(s: SemId, script: seq<T.Action>) returns (done: bool, left: seq<T.Action>, ghost trace: seq<T.Action>)
      requires T.Inv(View()) && View().Free() && s in semaphores
      modifies this
      ensures T.Inv(View()) && T.Legal(old(View()), trace) && View() == T.After(old(View()), trace)
      ensures done ==>
        trace != [] && trace[|trace| - 1] == T.Attempt(s) && currentThread == old(currentThread) && View().Free()
      ensures done ==> TookOne(T.After(old(View()), trace[..|trace| - 1]), View(), s)
      ensures !done ==> left == [] || !T.Enabled(View(), left[0])
    {
      EmptyRun(View());
      hide T.Inv, T.Asserts, T.Legal, T.After, T.Next;
      var me := currentThread;
      left, trace, done := script, [], false;
      ghost var start := View();
      while true
        invariant T.Inv(View()) && T.Legal(start, trace) && View() == T.After(start, trace)
        invariant currentThread == me && mode == T.Executing && s in semaphores
        invariant me in waiting ==> waiting[me] == s
        decreases |left|
      {
        T.RunExtends(start, trace, T.Attempt(s));
        AttemptIs(View(), s);
        ghost var was := trace;
        done := TryP(s);
        trace := trace + [T.Attempt(s)];
        assert trace[..|trace| - 1] == was;
        if done {
          return;
        }
        ghost var more;
        EmptyRun(View());
        left, more := RunOthers(me, left);
        T.WaitingOnSomething(View(), me);
        T.RunsJoin(start, trace, more);
        trace := trace + more;
        if !(currentThread == me && mode == T.Executing) {
          return;
        }
      }
    }
  }

  lemma EmptyRun(k: T.Kernel)
    ensures T.Legal(k, []) && T.After(k, []) == k
  {
  }

  /** One turn of P takes a unit, or puts the thread into the P. */
  lemma AttemptIs(k: T.Kernel, s: SemId)
    requires T.Inv(k) && s in k.sems && k.mode == T.Executing
    ensures var k' := T.Next(k, T.Attempt(s));
      && k'.current == k.current && s in k'.sems && k.sems[s].value >= 0
      && if k.sems[s].value == 0 then k'.mode.Sleeping? && k.current in k'.waiting && k'.waiting[k.current] == s
         else k'.mode == T.Executing && k.current !in k'.waiting && k'.sems[s].value == k.sems[s].value - 1
  {
  }

  predicate TookOne(before: T.Kernel, after: T.Kernel, s: SemId) {
    && s in before.sems && s in after.sems
    && before.sems[s].value > 0 && after.sems[s].value == before.sems[s].value - 1
  }

  lemma HandlersGrow(sems: seq<SemId>, i: nat)
    ensures Handlers(sems[..0]) == []
    ensures i < |sems| ==> Handlers(sems[..i + 1]) == Handlers(sems[..i]) + [T.Handler(sems[i])]
  {
  }

  function Handlers(sems: seq<SemId>): seq<T.Action> {
    seq(|sems|, i requires 0 <= i < |sems| => T.Handler(sems[i]))
  }
}
