/**
 What devices get from the simulation of hardware (machine/interrupt.cc, machine/timer.cc): all that their handlers ask for is
 scheduled and nothing else, a timer goes on, a wanted context switch is reported, and ticks are counted.
 */
module DeviceRuns {
  import opened Lists
  import opened Interrupts

  // ---------------------------------------------------------------- one handler

  /** The interrupts that requests made at tick `now` are to become, numbered from `id`. */
  function Events(requests: seq<Request>, id: nat, now: nat): (r: seq<Pending>)
    ensures |r| == |requests|
    ensures forall j :: 0 <= j < |r| ==> r[j] == Pending(id + j, now + requests[j].fromNow, requests[j].kind)
  {
    seq(|requests|, j requires 0 <= j < |requests| => Pending(id + j, now + requests[j].fromNow, requests[j].kind))
  }

  lemma SplicedCounts<X>(s: seq<X>, k: nat, x: X)
    requires k <= |s|
    ensures multiset(Spliced(s, k, x)) == multiset(s) + multiset{x}
  {
    assert s == s[..k] + s[k..];
    assert Spliced(s, k, x) == s[..k] + ([x] + s[k..]);
  }

  lemma CountsCons<X>(x: X, s: seq<X>)
    ensures multiset([x] + s) == multiset{x} + multiset(s)
  {
  }

  lemma InsertedCounts(s: seq<Pending>, x: Pending)
    ensures multiset(Inserted(s, x, PendingCompare)) == multiset(s) + multiset{x}
  {
    hide Inserted, Spliced, Place, PendingCompare;
    InsertedAt(s, x, PendingCompare);
    SplicedCounts(s, Place(s, x, PendingCompare), x);
  }

  lemma EventsSplit(requests: seq<Request>, id: nat, now: nat)
    requires requests != []
    ensures Events(requests, id, now) ==
      [Pending(id, now + requests[0].fromNow, requests[0].kind)] + Events(requests[1..], id + 1, now)
  {
    hide Events;
  }

  lemma {:induction false} ScheduledCounts(s: State, requests: seq<Request>)
    ensures multiset(ScheduledAll(s, requests).pending) == multiset(s.pending) + multiset(Events(requests, s.next, s.total))
    decreases |requests|
  {
    hide Inserted, PendingCompare, Events, Scheduled;
    if requests != [] {
      var t := Scheduled(s, requests[0]);
      OneScheduled(s, requests[0]);
      ScheduledCounts(t, requests[1..]);
      OneMore(s, requests, multiset(s.pending), multiset(t.pending), multiset(ScheduledAll(s, requests).pending));
    } else {
      assert Events([], s.next, s.total) == [];
    }
  }

  lemma OneScheduled(s: State, r: Request)
    ensures var t := Scheduled(s, r);
      && t.next == s.next + 1 && t.total == s.total
      && multiset(t.pending) == multiset(s.pending) + multiset{Pending(s.next, s.total + r.fromNow, r.kind)}
  {
    hide Inserted, PendingCompare;
    InsertedCounts(s.pending, Pending(s.next, s.total + r.fromNow, r.kind));
  }

  lemma OneMore(s: State, requests: seq<Request>, a: multiset<Pending>, b: multiset<Pending>, c: multiset<Pending>)
    requires requests != []
    requires b == a + multiset{Pending(s.next, s.total + requests[0].fromNow, requests[0].kind)}
    requires c == b + multiset(Events(requests[1..], s.next + 1, s.total))
    ensures c == a + multiset(Events(requests, s.next, s.total))
  {
    hide Events;
    EventsSplit(requests, s.next, s.total);
    CountsCons(Pending(s.next, s.total + requests[0].fromNow, requests[0].kind), Events(requests[1..], s.next + 1, s.total));
  }

  /** Scheduling changes the list and the next number only. */
  lemma {:induction false} AllScheduled(s: State, requests: seq<Request>)
    ensures var t := ScheduledAll(s, requests);
      && t.next == s.next + |requests| && t.total == s.total && t.log == s.log && t.yieldOnReturn == s.yieldOnReturn
      && t.idle == s.idle && t.system == s.system && t.user == s.user
    decreases |requests|
  {
    hide Inserted, PendingCompare;
    if requests != [] {
      AllScheduled(Scheduled(s, requests[0]), requests[1..]);
    }
  }

  /** Firing takes the first interrupt off the list and puts on exactly what its handler asks for, each at its time from now
      and of its kind. */
  lemma FireSchedules(s: State, devices: Devices)
    requires s.pending != []
    ensures var t, log := Fire(s, devices), s.log + [Fired(s.pending[0], s.total)];
      && t.log == log && t.next == s.next + |devices(log).requests|
      && t.total == s.total && t.idle == s.idle && t.system == s.system && t.user == s.user
      && t.yieldOnReturn == (s.yieldOnReturn || devices(log).switches)
      && multiset(t.pending) == multiset(s.pending[1..]) + multiset(Events(devices(log).requests, s.next, s.total))
  {
    var log := s.log + [Fired(s.pending[0], s.total)];
    hide ScheduledAll, Events;
    AllScheduled(s.(pending := s.pending[1..], log := log), devices(log).requests);
    ScheduledCounts(s.(pending := s.pending[1..], log := log), devices(log).requests);
  }

  // ---------------------------------------------------------------- all that was asked for

  /** When an interrupt is to come, and of what kind. */
  datatype Due = Due(when: int, kind: IntType)

  function DueOf(p: Pending): Due {
    Due(p.when, p.kind)
  }

  function DueSeq(s: seq<Pending>): (r: seq<Due>)
    ensures |r| == |s| && forall i :: 0 <= i < |s| ==> r[i] == DueOf(s[i])
  {
    seq(|s|, i requires 0 <= i < |s| => DueOf(s[i]))
  }

  function Dues(s: seq<Pending>): multiset<Due> {
    multiset(DueSeq(s))
  }

  function DuesAsked(requests: seq<Request>, now: nat): multiset<Due> {
    Dues(Events(requests, 0, now))
  }

  /** What the handlers of the interrupts in the log asked for, each when it ran. */
  function Reactions(log: seq<Fired>, devices: Devices): multiset<Due> {
    if log == [] then multiset{} else
      Reactions(log[..|log| - 1], devices) + DuesAsked(devices(log).requests, log[|log| - 1].at)
  }

  lemma DuesJoin(s: seq<Pending>, t: seq<Pending>)
    ensures Dues(s + t) == Dues(s) + Dues(t)
  {
    hide DueSeq;
    assert DueSeq(s + t) == DueSeq(s) + DueSeq(t);
  }

  lemma DuesOfInserted(s: seq<Pending>, x: Pending)
    ensures Dues(Inserted(s, x, PendingCompare)) == Dues(s) + multiset{DueOf(x)}
  {
    hide Inserted, Spliced, Place, PendingCompare, DueSeq;
    var k := Place(s, x, PendingCompare);
    InsertedAt(s, x, PendingCompare);
    assert DueSeq(Spliced(s, k, x)) == Spliced(DueSeq(s), k, DueOf(x));
    SplicedCounts(DueSeq(s), k, DueOf(x));
  }

  lemma DuesOfAll(s: State, requests: seq<Request>)
    ensures requests != [] ==>
      DuesAsked(requests, s.total) ==
        multiset{Due(s.total + requests[0].fromNow, requests[0].kind)} + DuesAsked(requests[1..], s.total)
    ensures DuesAsked([], s.total) == multiset{}
  {
    hide DueSeq, Events;
    assert DueSeq(Events([], 0, s.total)) == [];
    if requests != [] {
      var x := Due(s.total + requests[0].fromNow, requests[0].kind);
      assert DueSeq(Events(requests, 0, s.total)) == [x] + DueSeq(Events(requests[1..], 0, s.total));
    }
  }

  lemma {:induction false} DuesScheduled(s: State, requests: seq<Request>)
    ensures Dues(ScheduledAll(s, requests).pending) == Dues(s.pending) + DuesAsked(requests, s.total)
    ensures ScheduledAll(s, requests).log == s.log && ScheduledAll(s, requests).total == s.total
    decreases |requests|
  {
    hide Inserted, PendingCompare, Dues, DuesAsked;
    DuesOfAll(s, requests);
    if requests != [] {
      var x := Pending(s.next, s.total + requests[0].fromNow, requests[0].kind);
      DuesOfInserted(s.pending, x);
      DuesScheduled(Scheduled(s, requests[0]), requests[1..]);
    }
  }

  /** Interrupts fired and interrupts pending, as far as they are due to what handlers asked for. */
  ghost function Known(s: State): multiset<Due> {
    Dues(Timeline(s))
  }

  lemma FireKnown(s: State, devices: Devices)
    requires s.pending != []
    ensures Fire(s, devices).log == s.log + [Fired(s.pending[0], s.total)]
    ensures Known(Fire(s, devices)) + Reactions(s.log, devices) == Known(s) + Reactions(Fire(s, devices).log, devices)
  {
    hide ScheduledAll, Fire, Dues, DuesAsked, Interrupts.Events;
    var log := s.log + [Fired(s.pending[0], s.total)];
    var popped := s.(pending := s.pending[1..], log := log);
    FireIs(s, devices);
    LogAndRest(s);
    DuesScheduled(popped, devices(log).requests);
    assert log[..|log| - 1] == s.log;
    DuesJoin(Interrupts.Events(log), s.pending[1..]);
    DuesJoin(Interrupts.Events(log), Fire(s, devices).pending);
  }

  lemma LogAndRest(s: State)
    requires s.pending != []
    ensures Interrupts.Events(s.log + [Fired(s.pending[0], s.total)]) + s.pending[1..] == Timeline(s)
  {
  }

  lemma FireIs(s: State, devices: Devices)
    requires s.pending != []
    ensures var log := s.log + [Fired(s.pending[0], s.total)];
      var t := ScheduledAll(s.(pending := s.pending[1..], log := log), devices(log).requests);
      Fire(s, devices).pending == t.pending && Fire(s, devices).log == t.log && Fire(s, devices).total == t.total
  {
    hide ScheduledAll;
  }

  lemma {:induction false} DrainKnown(s: State, devices: Devices)
    requires Proper(devices)
    ensures Known(Drain(s, devices)) + Reactions(s.log, devices) == Known(s) + Reactions(Drain(s, devices).log, devices)
    decreases DueCount(s.pending, s.total)
  {
    hide Known, Reactions;
    if AnyDue(s) {
      FireUsesUpDue(s, devices);
      FireKnown(s, devices);
      hide Fire;
      var t := Fire(s, devices);
      DrainKnown(t, devices);
      Cancel(Known(Drain(t, devices)), Known(t), Known(s), Reactions(s.log, devices), Reactions(t.log, devices),
             Reactions(Drain(t, devices).log, devices));
    }
  }

  lemma Cancel(u: multiset<Due>, t: multiset<Due>, s: multiset<Due>, a: multiset<Due>, b: multiset<Due>, c: multiset<Due>)
    requires t + a == s + b && u + b == t + c
    ensures u + a == s + c
  {
    forall d: Due ensures (u + a)[d] == (s + c)[d] {
      assert (t + a)[d] == (s + b)[d] && (u + b)[d] == (t + c)[d];
    }
    assert u + a == s + c;
  }

  /** What the kernel asks for in a run, each when it does. */
  ghost function Asked(s: State, ops: seq<Op>, devices: Devices): multiset<Due>
    requires Proper(devices)
    decreases |ops|
  {
    if ops == [] then multiset{} else
      (if ops[0].Ask? then multiset{Due(s.total + ops[0].request.fromNow, ops[0].request.kind)} else multiset{})
      + Asked(Next(s, ops[0], devices), ops[1..], devices)
  }

  lemma NextKnown(s: State, op: Op, devices: Devices)
    requires Proper(devices)
    ensures var t := Next(s, op, devices);
      Known(t) + Reactions(s.log, devices) == Known(s) + Reactions(t.log, devices)
        + if op.Ask? then multiset{Due(s.total + op.request.fromNow, op.request.kind)} else multiset{}
  {
    hide Dues, Reactions, Drain, Inserted;
    match op
    case Tick(inUserMode) =>
      DrainKnown(Advanced(s, inUserMode), devices);
    case Idle =>
      DrainKnown(s, devices);
      if s.pending != [] {
        DrainKnown(s.(idle := s.idle + (if s.pending[0].when > s.total then s.pending[0].when - s.total else 0),
                      total := if s.pending[0].when > s.total then s.pending[0].when else s.total), devices);
      }
    case Ask(request) =>
      var x := Pending(s.next, s.total + request.fromNow, request.kind);
      DuesOfInserted(s.pending, x);
      DuesJoin(Interrupts.Events(s.log), s.pending);
      DuesJoin(Interrupts.Events(s.log), Inserted(s.pending, x, PendingCompare));
  }

  lemma {:induction false} RunKnown(s: State, ops: seq<Op>, devices: Devices)
    requires Proper(devices)
    ensures var t := After(s, ops, devices);
      Known(t) + Reactions(s.log, devices) == Known(s) + Reactions(t.log, devices) + Asked(s, ops, devices)
    decreases |ops|
  {
    hide Known, Reactions, Next;
    if ops != [] {
      NextKnown(s, ops[0], devices);
      var t := Next(s, ops[0], devices);
      RunKnown(t, ops[1..], devices);
      var u := After(t, ops[1..], devices);
      var x := if ops[0].Ask? then multiset{Due(s.total + ops[0].request.fromNow, ops[0].request.kind)} else multiset{};
      Cancel(Known(u), Known(t), Known(s) + x, Reactions(s.log, devices), Reactions(t.log, devices),
             Reactions(u.log, devices) + Asked(t, ops[1..], devices));
    }
  }

  /** Over any run, the interrupts fired and those pending are, each as often, what the kernel asked for and what the handlers
      that ran asked for, at the times asked for: nothing is lost, and nothing comes that nobody asked for. */
  lemma AllThatWasAsked(ops: seq<Op>, devices: Devices)
    requires Proper(devices)
    ensures var s := After(START, ops, devices);
      Dues(Timeline(s)) == Asked(START, ops, devices) + Reactions(s.log, devices)
  {
    hide After, Asked, DueSeq;
    RunKnown(START, ops, devices);
    assert Timeline(START) == [] && DueSeq([]) == [];
    assert Known(START) == multiset{} && Reactions(START.log, devices) == multiset{};
    var s := After(START, ops, devices);
    assert Known(s) == Known(s) + multiset{};
    assert multiset{} + Reactions(s.log, devices) + Asked(START, ops, devices)
      == Asked(START, ops, devices) + Reactions(s.log, devices);
  }

  // ---------------------------------------------------------------- a timer

  /** The handler of the interrupts of kind `kind`, and no other, asks for one of that kind, `d` ticks on. */
  ghost predicate Periodic(devices: Devices, kind: IntType, d: int) {
    forall log: seq<Fired> :: log != [] ==>
      OfKind(devices(log).requests, kind) == if log[|log| - 1].event.kind == kind then [Request(d, kind)] else []
  }

  function OfKind(requests: seq<Request>, kind: IntType): seq<Request> {
    if requests == [] then [] else
      (if requests[0].kind == kind then [requests[0]] else []) + OfKind(requests[1..], kind)
  }

  /** The interrupts of one kind among those pending, and among those fired. */
  function PendingOf(pending: seq<Pending>, kind: IntType): seq<Pending> {
    if pending == [] then [] else (if pending[0].kind == kind then [pending[0]] else []) + PendingOf(pending[1..], kind)
  }

  function FiredOf(log: seq<Fired>, kind: IntType): seq<Fired> {
    if log == [] then [] else
      FiredOf(log[..|log| - 1], kind) + if log[|log| - 1].event.kind == kind then [log[|log| - 1]] else []
  }

  /** Exactly one interrupt of the kind is pending, for tick `when`. */
  predicate OneAt(pending: seq<Pending>, kind: IntType, when: int) {
    |PendingOf(pending, kind)| == 1 && PendingOf(pending, kind)[0].when == when
  }

  /** The tick of the next interrupt: `d` after the last one fired, or the first. */
  function NextTime(fired: seq<Fired>, d: int, first: int): int {
    if fired == [] then first else fired[|fired| - 1].at + d
  }

  /** Each interrupt fired was for `d` ticks after the one before it fired. */
  predicate Regular(fired: seq<Fired>, d: int, first: int) {
    forall i :: 0 <= i < |fired| ==> fired[i].event.when == NextTime(fired[..i], d, first)
  }

  predicate TimerInv(s: State, kind: IntType, d: int, first: int) {
    Regular(FiredOf(s.log, kind), d, first) && OneAt(s.pending, kind, NextTime(FiredOf(s.log, kind), d, first))
  }

  lemma {:induction false} InsertedOf(s: seq<Pending>, x: Pending, kind: IntType)
    ensures x.kind != kind ==> PendingOf(Inserted(s, x, PendingCompare), kind) == PendingOf(s, kind)
    ensures x.kind == kind && PendingOf(s, kind) == [] ==> PendingOf(Inserted(s, x, PendingCompare), kind) == [x]
  {
    if s == [] || PendingCompare(x, s[0]) < 0 {
      assert ([x] + s)[1..] == s;
    } else {
      InsertedOf(s[1..], x, kind);
      assert ([s[0]] + Inserted(s[1..], x, PendingCompare))[1..] == Inserted(s[1..], x, PendingCompare);
    }
  }

  lemma {:induction false} ScheduledOf(s: State, requests: seq<Request>, kind: IntType)
    ensures ScheduledAll(s, requests).log == s.log
    ensures OfKind(requests, kind) == [] ==> PendingOf(ScheduledAll(s, requests).pending, kind) == PendingOf(s.pending, kind)
    ensures |OfKind(requests, kind)| == 1 && PendingOf(s.pending, kind) == [] ==>
      OneAt(ScheduledAll(s, requests).pending, kind, s.total + OfKind(requests, kind)[0].fromNow)
    decreases |requests|
  {
    hide Inserted, PendingCompare, PendingOf;
    if requests != [] {
      InsertedOf(s.pending, Pending(s.next, s.total + requests[0].fromNow, requests[0].kind), kind);
      ScheduledOf(Scheduled(s, requests[0]), requests[1..], kind);
    }
  }

  lemma FireTimer(s: State, devices: Devices, kind: IntType, d: int, first: int)
    requires s.pending != [] && Periodic(devices, kind, d) && TimerInv(s, kind, d, first)
    ensures TimerInv(Fire(s, devices), kind, d, first)
  {
    hide ScheduledAll, Fire, OfKind, FiredOf, PendingOf, Regular, NextTime, Periodic;
    var log := s.log + [Fired(s.pending[0], s.total)];
    var popped := s.(pending := s.pending[1..], log := log);
    FireIs(s, devices);
    LogOf(s.log, Fired(s.pending[0], s.total), kind);
    ReactionOf(devices, kind, d, log);
    PopOf(s.pending, kind);
    ScheduledOf(popped, devices(log).requests, kind);
    if s.pending[0].kind == kind {
      RegularGrows(FiredOf(s.log, kind), Fired(s.pending[0], s.total), d, first);
      NextAfter(FiredOf(s.log, kind), Fired(s.pending[0], s.total), d, first);
    }
  }

  lemma LogOf(log: seq<Fired>, f: Fired, kind: IntType)
    ensures FiredOf(log + [f], kind) == if f.event.kind == kind then FiredOf(log, kind) + [f] else FiredOf(log, kind)
  {
    assert (log + [f])[..|log|] == log;
  }

  lemma PopOf(pending: seq<Pending>, kind: IntType)
    requires pending != []
    ensures pending[0].kind != kind ==> PendingOf(pending, kind) == PendingOf(pending[1..], kind)
    ensures pending[0].kind == kind ==> PendingOf(pending, kind) == [pending[0]] + PendingOf(pending[1..], kind)
  {
  }

  lemma ReactionOf(devices: Devices, kind: IntType, d: int, log: seq<Fired>)
    requires Periodic(devices, kind, d) && log != []
    ensures OfKind(devices(log).requests, kind) == if log[|log| - 1].event.kind == kind then [Request(d, kind)] else []
  {
  }

  lemma NextAfter(fired: seq<Fired>, f: Fired, d: int, first: int)
    ensures NextTime(fired + [f], d, first) == f.at + d
  {
  }

  lemma RegularGrows(fired: seq<Fired>, f: Fired, d: int, first: int)
    requires Regular(fired, d, first) && f.event.when == NextTime(fired, d, first)
    ensures Regular(fired + [f], d, first)
  {
    forall i | 0 <= i < |fired + [f]| ensures (fired + [f])[i].event.when == NextTime((fired + [f])[..i], d, first) {
      assert (fired + [f])[..i] == if i < |fired| then fired[..i] else fired;
    }
  }

  lemma {:induction false} DrainTimer(s: State, devices: Devices, kind: IntType, d: int, first: int)
    requires Proper(devices) && Periodic(devices, kind, d) && TimerInv(s, kind, d, first)
    ensures TimerInv(Drain(s, devices), kind, d, first)
    decreases DueCount(s.pending, s.total)
  {
    hide TimerInv, Periodic;
    if AnyDue(s) {
      FireUsesUpDue(s, devices);
      FireTimer(s, devices, kind, d, first);
      hide Fire;
      DrainTimer(Fire(s, devices), devices, kind, d, first);
    }
  }

  /** Nobody but the device asks for interrupts of the kind. */
  predicate NoneAsked(ops: seq<Op>, kind: IntType) {
    forall i :: 0 <= i < |ops| && ops[i].Ask? ==> ops[i].request.kind != kind
  }

  lemma NextTimer(s: State, op: Op, devices: Devices, kind: IntType, d: int, first: int)
    requires Proper(devices) && Periodic(devices, kind, d) && TimerInv(s, kind, d, first)
    requires op.Ask? ==> op.request.kind != kind
    ensures TimerInv(Next(s, op, devices), kind, d, first)
  {
    hide Drain, Inserted, PendingCompare, FiredOf, PendingOf, Periodic;
    match op
    case Tick(inUserMode) =>
      DrainTimer(Advanced(s, inUserMode), devices, kind, d, first);
    case Idle =>
      if s.pending != [] && s.pending[0].when > s.total {
        DrainTimer(s.(idle := s.idle + (s.pending[0].when - s.total), total := s.pending[0].when), devices, kind, d, first);
      } else {
        DrainTimer(s, devices, kind, d, first);
      }
    case Ask(request) =>
      InsertedOf(s.pending, Pending(s.next, s.total + request.fromNow, request.kind), kind);
  }

  lemma {:induction false} RunTimer(s: State, ops: seq<Op>, devices: Devices, kind: IntType, d: int, first: int)
    requires Proper(devices) && Periodic(devices, kind, d) && TimerInv(s, kind, d, first) && NoneAsked(ops, kind)
    ensures TimerInv(After(s, ops, devices), kind, d, first)
    decreases |ops|
  {
    hide Periodic, TimerInv, Next;
    if ops != [] {
      NextTimer(s, ops[0], devices, kind, d, first);
      RunTimer(Next(s, ops[0], devices), ops[1..], devices, kind, d, first);
    }
  }

  /** A timer started when nothing else has happened goes on for ever: at every point of every run exactly one of its
      interrupts is pending, `d` ticks after the last one fired, and each that has fired was for `d` ticks after the one
      before it fired. */
  lemma TimerGoesOn(ops: seq<Op>, devices: Devices, kind: IntType, d: int)
    requires Proper(devices) && Periodic(devices, kind, d) && NoneAsked(ops, kind)
    ensures var s := After(START, [Ask(Request(d, kind))] + ops, devices);
      var fired := FiredOf(s.log, kind);
      && OneAt(s.pending, kind, NextTime(fired, d, d))
      && (forall i :: 0 <= i < |fired| ==> fired[i].event.when == if i == 0 then d else fired[i - 1].at + d)
  {
    hide Periodic, Next, PendingOf, After, FiredOf;
    var started := Next(START, Ask(Request(d, kind)), devices);
    TimerStarts(devices, kind, d);
    RunTimer(started, ops, devices, kind, d, d);
    FirstThen(START, Ask(Request(d, kind)), ops, devices);
    var fired := FiredOf(After(started, ops, devices).log, kind);
    forall i | 0 <= i < |fired| ensures fired[i].event.when == if i == 0 then d else fired[i - 1].at + d {
      RegularAt(fired, d, d, i);
    }
  }

  lemma RegularAt(fired: seq<Fired>, d: int, first: int, i: nat)
    requires Regular(fired, d, first) && i < |fired|
    ensures fired[i].event.when == if i == 0 then first else fired[i - 1].at + d
  {
    assert fired[i].event.when == NextTime(fired[..i], d, first);
  }

  lemma FirstThen(s: State, op: Op, ops: seq<Op>, devices: Devices)
    requires Proper(devices)
    ensures After(s, [op] + ops, devices) == After(Next(s, op, devices), ops, devices)
  {
    hide Next;
    assert ([op] + ops)[1..] == ops;
  }

  lemma TimerStarts(devices: Devices, kind: IntType, d: int)
    requires Proper(devices)
    ensures TimerInv(Next(START, Ask(Request(d, kind)), devices), kind, d, d)
  {
    InsertedOf([], Pending(0, d, kind), kind);
  }

  lemma {:induction false} FiredOfIn(log: seq<Fired>, kind: IntType)
    ensures forall f :: f in FiredOf(log, kind) ==> f in log
  {
    if log != [] {
      FiredOfIn(log[..|log| - 1], kind);
    }
  }

  /** So its interrupts are not `d` apart in general: from one to the next are `d` ticks exactly if the one fired on time, and
      never more than d + 9. */
  lemma PeriodIff(ops: seq<Op>, devices: Devices, kind: IntType, d: int, i: nat)
    requires Proper(devices) && Periodic(devices, kind, d) && NoneAsked(ops, kind) && d > 0 && Allowed(ops)
    requires i + 1 < |FiredOf(After(START, [Ask(Request(d, kind))] + ops, devices).log, kind)|
    ensures var fired := FiredOf(After(START, [Ask(Request(d, kind))] + ops, devices).log, kind);
      var gap := fired[i + 1].event.when - fired[i].event.when;
      && d <= gap <= d + 9 && (gap == d <==> fired[i].at == fired[i].event.when)
  {
    hide After, FiredOf, Periodic;
    var run := [Ask(Request(d, kind))] + ops;
    TimerGoesOn(ops, devices, kind, d);
    var s := After(START, run, devices);
    var fired := FiredOf(s.log, kind);
    FiredOfIn(s.log, kind);
    assert fired[i] in s.log;
    var j :| 0 <= j < |s.log| && s.log[j] == fired[i];
    assert Allowed(run);
    NeverEarlyNorLate(run, devices, j);
  }

  /** A timer of period 5 and no other device. */
  function EveryFive(): Devices {
    (log: seq<Fired>) =>
      if log != [] && log[|log| - 1].event.kind == TimerInt then Reaction([Request(5, TimerInt)], false) else Reaction([], false)
  }

  /** A tick in the kernel takes it to tick 10: the interrupt for tick 5 fires late, and the next is for tick 15. */
  lemma DriftExample()
    ensures Proper(EveryFive()) && Periodic(EveryFive(), TimerInt, 5)
    ensures var s := Next(Next(START, Ask(Request(5, TimerInt)), EveryFive()), Tick(false), EveryFive());
      s.log == [Fired(Pending(0, 5, TimerInt), 10)] && s.pending == [Pending(1, 15, TimerInt)]
  {
    var asked := Next(START, Ask(Request(5, TimerInt)), EveryFive());
    assert asked.pending == [Pending(0, 5, TimerInt)];
    var ticked := Advanced(asked, false);
    var fired := Fire(ticked, EveryFive());
    assert fired.log == [Fired(Pending(0, 5, TimerInt), 10)];
    var reaction := EveryFive()(fired.log);
    assert reaction.requests[1..] == [];
    assert fired.pending == [Pending(1, 15, TimerInt)];
  }

  // ---------------------------------------------------------------- context switches

  /** One of the handlers that ran after the first `n` entries of the log asked for a context switch. */
  ghost predicate Switches(log: seq<Fired>, n: nat, devices: Devices) {
    exists i :: n <= i < |log| && SwitchesAt(log, i, devices)
  }

  ghost predicate SwitchesAt(log: seq<Fired>, i: nat, devices: Devices)
    requires i < |log|
  {
    devices(log[..i + 1]).switches
  }

  lemma FireLogs(s: State, devices: Devices)
    requires s.pending != []
    ensures var t := Fire(s, devices);
      && t.log == s.log + [Fired(s.pending[0], s.total)]
      && t.yieldOnReturn == (s.yieldOnReturn || devices(t.log).switches)
  {
    FireSchedules(s, devices);
    hide Fire;
  }

  lemma {:induction false} DrainSwitches(s: State, devices: Devices)
    requires Proper(devices)
    ensures var t := Drain(s, devices);
      && s.log <= t.log
      && (t.yieldOnReturn <==> s.yieldOnReturn || Switches(t.log, |s.log|, devices))
    decreases DueCount(s.pending, s.total)
  {
    if AnyDue(s) {
      FireUsesUpDue(s, devices);
      FireLogs(s, devices);
      hide Fire;
      var u := Fire(s, devices);
      DrainSwitches(u, devices);
      var t := Drain(u, devices);
      assert t.log[..|s.log| + 1] == u.log;
      assert SwitchesAt(t.log, |s.log|, devices) <==> devices(u.log).switches;
      assert Switches(t.log, |s.log|, devices) <==> devices(u.log).switches || Switches(t.log, |s.log| + 1, devices);
    }
  }

  /** OneTick switches contexts exactly if a handler that ran in it asked for it, or one that ran while the machine idled and
      whose wish is still open. */
  lemma SwitchIff(s: State, inUserMode: bool, devices: Devices)
    requires Proper(devices)
    ensures var t := Ticked(s, inUserMode, devices);
      && (SwitchWanted(s, inUserMode, devices) <==> s.yieldOnReturn || Switches(t.log, |s.log|, devices))
      && !t.yieldOnReturn
  {
    hide Drain, Switches;
    DrainSwitches(Advanced(s, inUserMode), devices);
  }

  // ---------------------------------------------------------------- ticks

  /** User instructions, and ticks in the kernel, of a run. */
  function Ticks(ops: seq<Op>, inUserMode: bool): nat {
    if ops == [] then 0 else (if ops[0] == Tick(inUserMode) then 1 else 0) + Ticks(ops[1..], inUserMode)
  }

  lemma {:induction false} DrainKeepsClock(s: State, devices: Devices)
    requires Proper(devices)
    ensures var t := Drain(s, devices); t.total == s.total && t.idle == s.idle && t.system == s.system && t.user == s.user
    decreases DueCount(s.pending, s.total)
  {
    if AnyDue(s) {
      FireUsesUpDue(s, devices);
      FireSchedules(s, devices);
      hide Fire;
      DrainKeepsClock(Fire(s, devices), devices);
    }
  }

  lemma NextClock(s: State, op: Op, devices: Devices)
    requires Proper(devices)
    ensures var t := Next(s, op, devices);
      && t.user == s.user + (if op == Tick(true) then 1 else 0)
      && t.system == s.system + (if op == Tick(false) then 10 else 0)
      && (!op.Idle? ==> t.idle == s.idle)
      && (op.Idle? ==> t.total == if s.pending != [] && s.pending[0].when > s.total then s.pending[0].when else s.total)
  {
    hide Drain;
    match op
    case Tick(inUserMode) => DrainKeepsClock(Advanced(s, inUserMode), devices);
    case Idle =>
      DrainKeepsClock(s, devices);
      if s.pending != [] && s.pending[0].when > s.total {
        DrainKeepsClock(s.(idle := s.idle + (s.pending[0].when - s.total), total := s.pending[0].when), devices);
      }
    case Ask(_) =>
  }

  lemma {:induction false} ClockFrom(s: State, ops: seq<Op>, devices: Devices)
    requires Proper(devices)
    ensures After(s, ops, devices).user == s.user + Ticks(ops, true)
    ensures After(s, ops, devices).system == s.system + 10 * Ticks(ops, false)
    decreases |ops|
  {
    hide Next;
    if ops != [] {
      NextClock(s, ops[0], devices);
      ClockFrom(Next(s, ops[0], devices), ops[1..], devices);
    }
  }

  /** A user instruction costs one tick, a tick in the kernel ten, and the rest of the time is idle. */
  lemma ClockCounts(ops: seq<Op>, devices: Devices)
    requires Proper(devices) && Allowed(ops)
    ensures var s := After(START, ops, devices);
      && s.user == Ticks(ops, true) && s.system == 10 * Ticks(ops, false)
      && s.idle == s.total - Ticks(ops, true) - 10 * Ticks(ops, false)
  {
    hide After, Ticks;
    ClockFrom(START, ops, devices);
    TicksAddUp(ops, devices);
  }
}
