/**
 The threads of the post office (network/post.cc): PostOfficeOutput::Send by any number of threads with the lock and the
 semaphore of module ExclusiveUse, and PostalDelivery in a thread of its own.  Whatever they and the kernel do is a run of the
 machines in module PostOffice.
 */
module PostThreads {
  import opened Common
  import opened Packets
  import opened Memory
  import T = Threads
  import M = Monitor
  import U = ExclusiveUse
  import P = PostOffice

  type ThreadId = T.ThreadId
  type SemId = T.SemId

  /** One machine: sendLock, messageSent and the calls of Send are in `u`; `available` is messageAvailable; `messages` has
      what the calls under way are to send. */
  datatype Node = Node(u: U.Client, available: SemId, worker: ThreadId, messages: map<ThreadId, Message>)

  datatype Action =
    | Send(m: Message)                      // PostOfficeOutput::Send is called
    | Transmit(wire: seq<Byte>, lost: bool) // network->Send
    | AwaitSent                             // one turn of messageSent->P()
    | SentInterrupt                         // NetworkOutput::CallBack
    | PollInterrupt                         // NetworkInput::CallBack
    | AwaitMail                             // one turn of messageAvailable->P()
    | FetchMail                             // network->Receive
    | DeliverMail                           // the ASSERTs and boxes[mailHdr.to].Put
    | Read(box: nat)                        // a reader's RemoveFront succeeds
    | Lock(a: M.Action)                     // the code of Lock and the kernel

  /** The packet of a poll is taken, and the postal worker told, if none is buffered. */
  predicate TakesPacket(s: P.Host) {
    s.inbox == None && s.socket != []
  }

  /** The part of an action that is about threads, if any. */
  function Use(n: Node, s: P.Host, a: Action): Option<U.Action> {
    match a
    case Send(_) => Some(U.Enter)
    case Transmit(_, _) => Some(U.Start)
    case AwaitSent => Some(U.AwaitDone)
    case SentInterrupt => Some(U.Interrupt)
    case PollInterrupt => if TakesPacket(s) then Some(U.Lock(M.Other(T.Handler(n.available)))) else None
    case AwaitMail => Some(U.Lock(M.Other(T.Attempt(n.available))))
    case Lock(ma) => Some(U.Lock(ma))
    case _ => None
  }

  predicate Enabled(n: Node, s: P.Host, h: P.HostId, a: Action) {
    var t := n.u.m.k.current;
    var mine := t == n.worker && n.u.m.k.Free();
    var use := Use(n, s, a);
    && !s.failed
    && (match a
        case Send(m) => P.Sendable(h, m)
        case Transmit(wire, _) => t in n.messages && IsWire(n.messages[t], wire)
        case AwaitMail => t == n.worker && s.worker == P.Waiting
        case FetchMail => mine && s.worker == P.Woken
        case DeliverMail => mine && s.worker.Holding?
        case Read(box) => n.u.m.k.Free() && box < |s.boxes| && s.boxes[box] != []
        case Lock(ma) => ma.Other? ==> !M.Names(ma.a, n.available)
        case _ => true)
    && (use.Some? ==> U.Enabled(n.u, use.value))
  }

  function Next(n: Node, s: P.Host, a: Action): Node {
    var use := Use(n, s, a);
    var n' := if use.Some? then n.(u := U.Next(n.u, use.value)) else n;
    if a.Send? then n'.(messages := n.messages[n.u.m.k.current := a.m]) else n'
  }

  predicate Available(k: T.Kernel, s: SemId) {
    s in k.sems && k.sems[s].value != 0
  }

  /** What the action is in the post office, if anything. */
  function Emits(n: Node, s: P.Host, a: Action): Option<P.Action> {
    var t := n.u.m.k.current;
    match a
    case Send(_) => None
    case Transmit(wire, lost) => if t in n.messages then Some(P.Transmit(n.messages[t], wire, lost)) else None
    case AwaitSent => if U.Completes(n.u, U.AwaitDone) then Some(P.SentP) else None
    case SentInterrupt => Some(P.SendInterrupt)
    case PollInterrupt => Some(P.Poll)
    case AwaitMail => if Available(n.u.m.k, n.available) then Some(P.WorkerP) else None
    case FetchMail => Some(P.WorkerReceive)
    case DeliverMail => Some(P.WorkerPut)
    case Read(box) => Some(P.Get(box))
    case Lock(LockP) => if Available(n.u.m.k, n.u.m.lock) then Some(P.Acquire) else None
    case Lock(ReleaseV) => Some(P.Release)
    case Lock(_) => None
  }

  // ---------------------------------------------------------------- the machine that the threads make

  /** Who has sendLock, seen from the threads. */
  function SenderOf(u: U.Client): P.Sender {
    match u.m.owner
    case None => P.Nobody
    case Some(t) =>
      match u.StepOf(t)
      case Some(ToWait) => P.Sending
      case Some(ToRelease) => P.Sent
      case _ => P.Ready
  }

  /** The semaphores and the sender of the machine are those of its threads. */
  predicate Agrees(n: Node, s: P.Host) {
    && n.u.done in n.u.m.k.sems && n.available in n.u.m.k.sems
    && s.sender == SenderOf(n.u)
    && s.sendInterrupts == n.u.pending
    && s.messageSent == n.u.m.k.sems[n.u.done].value
    && s.messageAvailable == n.u.m.k.sems[n.available].value
  }

  predicate MessageInv(n: Node, h: P.HostId, t: ThreadId) {
    n.u.StepOf(t).Some? ==> t in n.messages && P.Sendable(h, n.messages[t])
  }

  /** messageAvailable is a semaphore of its own. */
  predicate OwnSemaphore(n: Node) {
    n.available in n.u.m.k.sems && n.available != n.u.done && !n.u.m.Reserved(n.available)
  }

  ghost predicate Inv(n: Node, h: P.HostId) {
    U.Inv(n.u) && OwnSemaphore(n) && forall t: ThreadId :: MessageInv(n, h, t)
  }

  // ---------------------------------------------------------------- semaphores

  /** The kernel action inside an action of the threads. */
  function KernelPart(u: U.Client, a: U.Action): Option<T.Action> {
    var ma := U.MonitorPart(u, a);
    if ma.Some? then M.KernelPart(u.m, ma.value) else None
  }

  lemma KernelOf(u: U.Client, a: U.Action)
    requires U.Inv(u) && U.Enabled(u, a)
    ensures var ka := KernelPart(u, a);
      && U.Next(u, a).m.k == (if ka.Some? then T.Next(u.m.k, ka.value) else u.m.k)
      && (ka.Some? ==> T.Enabled(u.m.k, ka.value))
  {
    hide U.Inv, U.Next, M.Inv, M.Enabled, M.Next, T.Enabled, T.Next, T.Asserts;
    U.MonitorOf(u, a);
    U.StepKeeps(u, a);
    var ma := U.MonitorPart(u, a);
    if ma.Some? {
      M.KernelOf(u.m, ma.value);
    }
  }

  /** Only actions that name a semaphore change it. */
  lemma OtherSemaphoresKept(u: U.Client, a: U.Action, s: SemId)
    requires U.Inv(u) && U.Enabled(u, a) && s in u.m.k.sems
    requires var ka := KernelPart(u, a); ka.Some? ==> !M.Names(ka.value, s)
    ensures s in U.Next(u, a).m.k.sems && U.Next(u, a).m.k.sems[s] == u.m.k.sems[s]
  {
    hide U.Inv, U.Next, U.Enabled, KernelPart, T.Enabled, T.Next;
    KernelOf(u, a);
    var ka := KernelPart(u, a);
    if ka.Some? {
      M.KernelSemFrame(u.m.k, ka.value, s);
    }
  }

  /** Which semaphores an action of the threads names. */
  lemma Named(u: U.Client, a: U.Action, s: SemId)
    requires U.Inv(u) && U.Enabled(u, a) && !u.m.Reserved(s) && s in u.m.k.sems
    ensures var ka := KernelPart(u, a);
      ka.Some? && M.Names(ka.value, s) ==>
        || (a.Lock? && a.a.Other? && a.a.a == ka.value)
        || ((a == U.AwaitDone || a == U.Interrupt) && s == u.done)
  {
    hide T.Inv, T.Enabled, U.StepInv, U.DeviceInv;
  }

  lemma AttemptValue(k: T.Kernel, s: SemId)
    requires s in k.sems
    ensures var k' := T.Next(k, T.Attempt(s));
      s in k'.sems && k'.sems[s].value == if k.sems[s].value == 0 then 0 else k.sems[s].value - 1
  {
  }

  lemma HandlerValue(k: T.Kernel, s: SemId)
    requires s in k.sems
    ensures var k' := T.Next(k, T.Handler(s)); s in k'.sems && k'.sems[s].value == k.sems[s].value + 1
  {
  }

  lemma DoneIsFree(n: Node)
    requires U.Inv(n.u)
    ensures n.u.done in n.u.m.k.sems && !n.u.m.Reserved(n.u.done) && n.u.m.lock in n.u.m.k.sems
  {
    hide T.Inv;
  }

  lemma ElsewhereNotDone(u: U.Client, a: T.Action)
    requires U.Elsewhere(u, a) && T.Enabled(u.m.k, a) && u.done in u.m.k.sems
    ensures !M.Names(a, u.done)
  {
  }

  /** The value of messageSent. */
  lemma DoneValue(n: Node, s: P.Host, h: P.HostId, a: Action)
    requires Inv(n, h) && Enabled(n, s, h, a)
    ensures n.u.done in n.u.m.k.sems && n.u.done in Next(n, s, a).u.m.k.sems
    ensures Next(n, s, a).u.m.k.sems[n.u.done].value == n.u.m.k.sems[n.u.done].value
      + (if a == SentInterrupt then 1 else 0) - (if a == AwaitSent && U.Completes(n.u, U.AwaitDone) then 1 else 0)
  {
    hide U.Inv, U.Next, U.Elsewhere, T.Enabled, T.Next, M.Names, OwnSemaphore, P.Sendable, IsWire;
    DoneIsFree(n);
    var use := Use(n, s, a);
    if use.Some? {
      KernelOf(n.u, use.value);
      if a == AwaitSent {
        AttemptValue(n.u.m.k, n.u.done);
      } else if a == SentInterrupt {
        HandlerValue(n.u.m.k, n.u.done);
      } else {
        Named(n.u, use.value, n.u.done);
        if use.value.Lock? && use.value.a.Other? {
          ElsewhereNotDone(n.u, use.value.a.a);
        }
        OtherSemaphoresKept(n.u, use.value, n.u.done);
      }
    }
  }

  /** The value of messageAvailable. */
  lemma AvailableValue(n: Node, s: P.Host, h: P.HostId, a: Action)
    requires Inv(n, h) && Enabled(n, s, h, a)
    ensures n.available in n.u.m.k.sems && n.available in Next(n, s, a).u.m.k.sems
    ensures Next(n, s, a).u.m.k.sems[n.available].value == n.u.m.k.sems[n.available].value
      + (if a == PollInterrupt && TakesPacket(s) then 1 else 0)
      - (if a == AwaitMail && Available(n.u.m.k, n.available) then 1 else 0)
  {
    hide U.Inv, U.Next, U.Elsewhere, T.Enabled, T.Next, M.Names, P.Sendable, IsWire;
    var use := Use(n, s, a);
    if use.Some? {
      KernelOf(n.u, use.value);
      if a == AwaitMail {
        AttemptValue(n.u.m.k, n.available);
      } else if a == PollInterrupt {
        HandlerValue(n.u.m.k, n.available);
      } else {
        Named(n.u, use.value, n.available);
        OtherSemaphoresKept(n.u, use.value, n.available);
      }
    }
  }

  // ---------------------------------------------------------------- simulation

  /** Who has sendLock after an action. */
  lemma SenderAfter(n: Node, s: P.Host, h: P.HostId, a: Action)
    requires Inv(n, h) && Enabled(n, s, h, a)
    ensures var was, now := SenderOf(n.u), SenderOf(Next(n, s, a).u);
      if a.Transmit? then was == P.Ready && now == P.Sending
      else if a == AwaitSent then was == P.Sending && now == if U.Completes(n.u, U.AwaitDone) then P.Sent else P.Sending
      else if a == Lock(M.ReleaseV) then was == P.Sent && now == P.Nobody
      else if a == Lock(M.LockP) && Available(n.u.m.k, n.u.m.lock) then was == P.Nobody && now == P.Ready
      else now == was
  {
    hide U.Inv, U.Next, U.Enabled, U.Context, U.Completes, OwnSemaphore, P.Sendable, IsWire;
    var use := Use(n, s, a);
    if use.Some? {
      U.ContextHolds(n.u, use.value, n.u.m.k.current);
      U.OwnerAfter(n.u, use.value);
    }
  }

  lemma InvKept(n: Node, s: P.Host, h: P.HostId, a: Action)
    requires Inv(n, h) && Enabled(n, s, h, a)
    ensures Inv(Next(n, s, a), h)
  {
    hide U.Inv, U.Next, U.Enabled, P.Sendable, IsWire;
    AvailableValue(n, s, h, a);
    var use := Use(n, s, a);
    if use.Some? {
      U.StepKeeps(n.u, use.value);
      NoWaiters(Next(n, s, a).u);
      U.OnlyEnterBegins(n.u, use.value, n.u.m.k.current);
      forall t: ThreadId ensures MessageInv(Next(n, s, a), h, t) {
        assert MessageInv(n, h, t);
        U.OnlyEnterBegins(n.u, use.value, t);
      }
    }
  }

  lemma NoWaiters(u: U.Client)
    requires U.Inv(u)
    ensures u.m.waiters == map[]
  {
  }

  lemma PendingAfter(n: Node, s: P.Host, h: P.HostId, a: Action)
    requires Enabled(n, s, h, a)
    ensures Next(n, s, a).u.pending == n.u.pending + (if a.Transmit? then 1 else 0) - (if a == SentInterrupt then 1 else 0)
    ensures Next(n, s, a).u.done == n.u.done && Next(n, s, a).available == n.available
    ensures a == SentInterrupt ==> n.u.pending > 0
  {
    hide U.Next, M.Enabled, P.Sendable, IsWire;
    var use := Use(n, s, a);
    if use.Some? {
      U.OnlyEnterBegins(n.u, use.value, n.u.m.k.current);
    }
  }

  /** What the machine sees of an action of its threads, it allows. */
  lemma EmitsEnabled(net: P.Net, h: P.HostId, n: Node, a: Action)
    requires h < |net| && Inv(n, h) && Agrees(n, net[h]) && Enabled(n, net[h], h, a)
    ensures var e := Emits(n, net[h], a); e.Some? ==> P.Enabled(net, h, e.value)
  {
    hide U.Inv, U.Next, P.Sendable, IsWire, OwnSemaphore, M.Enabled;
    SenderAfter(n, net[h], h, a);
    assert MessageInv(n, h, n.u.m.k.current);
  }

  /** What an action of the machine does to its sender and its semaphores, unless an ASSERT fails. */
  lemma LocalEffect(net: P.Net, h: P.HostId, e: P.Action)
    requires P.Inv(net) && P.Enabled(net, h, e)
    ensures var s, s' := net[h], P.Next(net, h, e)[h];
      s'.failed ||
        (&& s'.sender == (match e
             case Acquire => P.Ready
             case Transmit(_, _, _) => P.Sending
             case SentP => P.Sent
             case Release => P.Nobody
             case _ => s.sender)
         && s'.sendInterrupts == s.sendInterrupts + (if e.Transmit? then 1 else 0) - (if e == P.SendInterrupt then 1 else 0)
         && s'.messageSent == s.messageSent + (if e == P.SendInterrupt then 1 else 0) - (if e == P.SentP then 1 else 0)
         && s'.messageAvailable == s.messageAvailable + (if e == P.Poll && TakesPacket(s) then 1 else 0)
              - (if e == P.WorkerP then 1 else 0))
  {
    P.AssertsFailExactly(net, h, e);
    hide P.Inv, P.Unpacked, P.HasBox, HeaderAt, Received, P.Sendable, IsWire;
  }

  /** Send and PostalDelivery do what the post office says: every action of a machine's threads is invisible to it, or is an
      action that it allows and that leaves semaphores and sender as the threads have them. */
  lemma Simulates(net: P.Net, h: P.HostId, n: Node, a: Action)
    requires h < |net| && P.Inv(net) && Inv(n, h) && Agrees(n, net[h]) && Enabled(n, net[h], h, a)
    ensures var e, n' := Emits(n, net[h], a), Next(n, net[h], a);
      && Inv(n', h)
      && if e == None then Agrees(n', net[h])
         else P.Enabled(net, h, e.value) && (P.Next(net, h, e.value)[h].failed || Agrees(n', P.Next(net, h, e.value)[h]))
  {
    hide Inv, Next, Enabled, P.Inv, P.Next, P.Enabled, U.Completes, Available, TakesPacket, SenderOf;
    InvKept(n, net[h], h, a);
    EmitsEnabled(net, h, n, a);
    SenderAfter(n, net[h], h, a);
    PendingAfter(n, net[h], h, a);
    DoneValue(n, net[h], h, a);
    AvailableValue(n, net[h], h, a);
    var e := Emits(n, net[h], a);
    if e.Some? {
      LocalEffect(net, h, e.value);
    }
    NoMessage(n, net[h], h, a);
  }

  lemma NoMessage(n: Node, s: P.Host, h: P.HostId, a: Action)
    requires Enabled(n, s, h, a)
    ensures a.Transmit? ==> Emits(n, s, a).Some?
  {
    hide P.Sendable, IsWire, U.Enabled;
  }

  // ---------------------------------------------------------------- all machines

  /** The threads of every machine, and the machines. */
  datatype System = System(nodes: seq<Node>, net: P.Net)

  datatype Event = Event(host: P.HostId, action: Action)

  predicate SystemEnabled(s: System, e: Event) {
    e.host < |s.nodes| == |s.net| && Enabled(s.nodes[e.host], s.net[e.host], e.host, e.action)
  }

  function SystemNext(s: System, e: Event): System
    requires e.host < |s.nodes| == |s.net|
  {
    var n, host := s.nodes[e.host], s.net[e.host];
    var emitted := Emits(n, host, e.action);
    System(s.nodes[e.host := Next(n, host, e.action)],
           if emitted == None then s.net else P.Next(s.net, e.host, emitted.value))
  }

  ghost predicate SystemInv(s: System) {
    && |s.nodes| == |s.net| && P.Inv(s.net)
    && forall g :: 0 <= g < |s.nodes| ==> Inv(s.nodes[g], g) && (s.net[g].failed || Agrees(s.nodes[g], s.net[g]))
  }

  /** What one machine does changes no more of another than its socket. */
  lemma OthersUntouched(net: P.Net, h: P.HostId, a: P.Action, g: P.HostId)
    requires h < |net| && g < |net| && g != h
    ensures P.Next(net, h, a)[g].(socket := []) == net[g].(socket := [])
  {
    hide P.Local, P.Asserts;
  }

  lemma AgreesStill(net: P.Net, h: P.HostId, a: P.Action, g: P.HostId, n: Node)
    requires h < |net| && g < |net| && g != h && (net[g].failed || Agrees(n, net[g]))
    ensures P.Next(net, h, a)[g].failed || Agrees(n, P.Next(net, h, a)[g])
  {
    OthersUntouched(net, h, a, g);
    var s, s' := net[g], P.Next(net, h, a)[g];
    assert s'.failed == s'.(socket := []).failed == s.(socket := []).failed == s.failed;
    hide P.Next, SenderOf;
  }

  lemma SystemKeeps(s: System, e: Event)
    requires SystemInv(s) && SystemEnabled(s, e)
    ensures SystemInv(SystemNext(s, e))
    ensures var emitted := Emits(s.nodes[e.host], s.net[e.host], e.action);
      emitted.Some? ==> P.Enabled(s.net, e.host, emitted.value)
  {
    hide Inv, Agrees, Emits, Next, P.Inv, P.Next, P.Enabled;
    var h, n := e.host, s.nodes[e.host];
    var emitted := Emits(n, s.net[h], e.action);
    NotFailed(n, s.net[h], h, e.action);
    Simulates(s.net, h, n, e.action);
    if emitted.Some? {
      P.StepKeeps(s.net, h, emitted.value);
    }
    var s' := SystemNext(s, e);
    forall g | 0 <= g < |s'.nodes| ensures Inv(s'.nodes[g], g) && (s'.net[g].failed || Agrees(s'.nodes[g], s'.net[g])) {
      if g != h && emitted.Some? {
        AgreesStill(s.net, h, emitted.value, g, s.nodes[g]);
      }
    }
  }

  lemma NotFailed(n: Node, s: P.Host, h: P.HostId, a: Action)
    requires Enabled(n, s, h, a)
    ensures !s.failed
  {
  }

  ghost predicate Legal(s: System, es: seq<Event>)
    decreases |es|
  {
    es == [] || (SystemEnabled(s, es[0]) && Legal(SystemNext(s, es[0]), es[1..]))
  }

  ghost function After(s: System, es: seq<Event>): System
    requires Legal(s, es)
    decreases |es|
  {
    if es == [] then s else After(SystemNext(s, es[0]), es[1..])
  }

  /** A machine's post office just made: nobody sends, and the postal worker's semaphore is 0. */
  ghost predicate Fresh(n: Node) {
    U.Fresh(n.u) && OwnSemaphore(n) && n.u.m.k.sems[n.available].value == 0
  }

  ghost predicate Start(s: System) {
    |s.nodes| == |s.net| && P.Start(s.net) && forall g :: 0 <= g < |s.nodes| ==> Fresh(s.nodes[g])
  }

  lemma FreshAgrees(n: Node, s: P.Host, h: P.HostId)
    requires Fresh(n) && P.Fresh(s)
    ensures Inv(n, h) && Agrees(n, s)
  {
    U.StartsRight(n.u);
    hide U.Inv, T.Inv;
  }

  lemma StartsRight(s: System)
    requires Start(s)
    ensures SystemInv(s)
  {
    hide Fresh, P.Inv, Inv, Agrees;
    P.StartsRight(s.net);
    forall g | 0 <= g < |s.nodes| ensures Inv(s.nodes[g], g) && Agrees(s.nodes[g], s.net[g]) {
      assert P.Fresh(s.net[g]);
      hide P.Fresh;
      FreshAgrees(s.nodes[g], s.net[g], g);
    }
  }

  /** Every run of the threads of all machines is a run of the post office; so whatever is proved of its runs holds of them. */
  lemma {:induction false} RunRefines(s: System, es: seq<Event>) returns (trace: seq<P.Event>)
    requires SystemInv(s) && Legal(s, es)
    ensures P.Legal(s.net, trace) && P.After(s.net, trace) == After(s, es).net && SystemInv(After(s, es))
    decreases |es|
  {
    if es == [] {
      trace := [];
    } else {
      var e := es[0];
      SystemKeeps(s, e);
      var rest := RunRefines(SystemNext(s, e), es[1..]);
      var emitted := Emits(s.nodes[e.host], s.net[e.host], e.action);
      hide SystemInv, SystemEnabled, Emits, Next, P.Next, P.Enabled;
      if emitted == None {
        trace := rest;
      } else {
        trace := [P.Event(e.host, emitted.value)] + rest;
        assert trace[1..] == rest;
      }
    }
  }

  /** From the start, too; and no ASSERT of Send, its lock or the kernel fails, nor is the network given a packet while it is
      still sending one. */
  lemma ThreadsRefine(s: System, es: seq<Event>, e: Event) returns (trace: seq<P.Event>)
    requires Start(s) && Legal(s, es) && SystemEnabled(After(s, es), e)
    ensures P.Legal(s.net, trace) && P.After(s.net, trace) == After(s, es).net
    ensures var n, host := After(s, es).nodes[e.host], After(s, es).net[e.host];
      var use := Use(n, host, e.action);
      (use.Some? ==> U.Asserts(n.u, use.value)) && !host.failed && Agrees(n, host)
  {
    hide Start, Legal, After, P.Legal, P.After, Agrees, U.Inv, U.Enabled, U.Asserts, U.Next, P.Inv;
    StartsRight(s);
    trace := RunRefines(s, es);
    var n, host := After(s, es).nodes[e.host], After(s, es).net[e.host];
    assert Inv(n, e.host);
    var use := Use(n, host, e.action);
    if use.Some? {
      U.StepKeeps(n.u, use.value);
    }
  }
}
