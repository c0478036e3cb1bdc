/**
 The event-driven hardware simulation (machine/interrupt.cc): a clock, a sorted list of pending interrupts, and handlers
 that schedule more of them while the list is being drained.
 */
module Interrupts {
  import opened Lists

  const USER_TICK := 1
  const SYSTEM_TICK := 10

  datatype IntType = TimerInt | DiskInt | ConsoleWriteInt | ConsoleReadInt | NetworkSendInt | NetworkRecvInt

  /** `id` numbers the interrupts in the order in which they were scheduled. */
  datatype Pending = Pending(id: nat, when: int, kind: IntType)

  datatype Fired = Fired(event: Pending, at: nat)

  datatype Request = Request(fromNow: int, kind: IntType)

  /** What a handler does: interrupts it schedules, in order, and whether it asks for a context switch. */
  datatype Reaction = Reaction(requests: seq<Request>, switches: bool)

  /** The devices: how the handler of the last interrupt fired reacts, given all that have fired. */
  type Devices = seq<Fired> -> Reaction

  /** ASSERT(fromNow > 0) in Schedule. */
  predicate Positive(requests: seq<Request>) {
    forall i :: 0 <= i < |requests| ==> requests[i].fromNow > 0
  }

  ghost predicate Proper(devices: Devices) {
    forall log: seq<Fired> :: Positive(devices(log).requests)
  }

  function PendingCompare(x: Pending, y: Pending): int {
    if x.when < y.when then -1 else if x.when > y.when then 1 else 0
  }

  /** It orders interrupts by their times, as SortedList needs it. */
  lemma CompareOrders(x: Pending, y: Pending)
    ensures PendingCompare(x, y) == -PendingCompare(y, x)
    ensures PendingCompare(x, y) == 0 <==> x.when == y.when
    ensures PendingCompare(x, y) < 0 <==> x.when < y.when
  {
  }

  datatype State = State(
    total: nat, idle: nat, system: nat, user: nat, pending: seq<Pending>, next: nat, log: seq<Fired>, yieldOnReturn: bool)

  const START := State(0, 0, 0, 0, [], 0, [], false)

  function Scheduled(s: State, r: Request): State {
    s.(pending := Inserted(s.pending, Pending(s.next, s.total + r.fromNow, r.kind), PendingCompare), next := s.next + 1)
  }

  function ScheduledAll(s: State, requests: seq<Request>): State
    decreases |requests|
  {
    if requests == [] then s else ScheduledAll(Scheduled(s, requests[0]), requests[1..])
  }

  /** Pull the first interrupt off the list and call its handler. */
  function Fire(s: State, devices: Devices): State
    requires s.pending != []
  {
    var log := s.log + [Fired(s.pending[0], s.total)];
    var reaction := devices(log);
    var t := ScheduledAll(s.(pending := s.pending[1..], log := log), reaction.requests);
    t.(yieldOnReturn := t.yieldOnReturn || reaction.switches)
  }

  predicate AnyDue(s: State) {
    s.pending != [] && s.pending[0].when <= s.total
  }

  function DueCount(pending: seq<Pending>, now: nat): nat {
    if pending == [] then 0 else (if pending[0].when <= now then 1 else 0) + DueCount(pending[1..], now)
  }

  lemma {:induction false} InsertNotDue(pending: seq<Pending>, x: Pending, now: nat)
    requires x.when > now
    ensures DueCount(Inserted(pending, x, PendingCompare), now) == DueCount(pending, now)
  {
    if pending == [] {
    } else if PendingCompare(x, pending[0]) < 0 {
      assert ([x] + pending)[1..] == pending;
    } else {
      InsertNotDue(pending[1..], x, now);
    }
  }

  lemma {:induction false} SchedulingNotDue(s: State, requests: seq<Request>)
    requires Positive(requests)
    ensures var t := ScheduledAll(s, requests); t.total == s.total && DueCount(t.pending, s.total) == DueCount(s.pending, s.total)
    decreases |requests|
  {
    if requests != [] {
      InsertNotDue(s.pending, Pending(s.next, s.total + requests[0].fromNow, requests[0].kind), s.total);
      SchedulingNotDue(Scheduled(s, requests[0]), requests[1..]);
    }
  }

  lemma FireUsesUpDue(s: State, devices: Devices)
    requires AnyDue(s) && Proper(devices)
    ensures Fire(s, devices).total == s.total
    ensures DueCount(Fire(s, devices).pending, s.total) < DueCount(s.pending, s.total)
  {
    var log := s.log + [Fired(s.pending[0], s.total)];
    SchedulingNotDue(s.(pending := s.pending[1..], log := log), devices(log).requests);
  }

  /** The loop of CheckIfDue: it ends because a handler can only schedule for later. */
  ghost function Drain(s: State, devices: Devices): State
    requires Proper(devices)
    decreases DueCount(s.pending, s.total)
  {
    if !AnyDue(s) then s else
      FireUsesUpDue(s, devices);
      Drain(Fire(s, devices), devices)
  }

  lemma NothingDue(s: State, devices: Devices)
    requires Proper(devices)
    ensures !AnyDue(s) ==> Drain(s, devices) == s
  {
  }

  /** CheckIfDue(advanceClock). */
  ghost function Checked(s: State, advanceClock: bool, devices: Devices): State
    requires Proper(devices)
  {
    if advanceClock && s.pending != [] && s.pending[0].when > s.total
    then Drain(s.(idle := s.idle + (s.pending[0].when - s.total), total := s.pending[0].when), devices)
    else Drain(s, devices)
  }

  function Advanced(s: State, inUserMode: bool): State {
    if inUserMode then s.(total := s.total + USER_TICK, user := s.user + USER_TICK)
    else s.(total := s.total + SYSTEM_TICK, system := s.system + SYSTEM_TICK)
  }

  /** OneTick, up to the context switch; CheckIfDue(FALSE) inside. */
  ghost function Ticked(s: State, inUserMode: bool, devices: Devices): State
    requires Proper(devices)
  {
    Checked(Advanced(s, inUserMode), false, devices).(yieldOnReturn := false)
  }

  /** Whether a handler that ran in OneTick asked for a context switch. */
  ghost predicate SwitchWanted(s: State, inUserMode: bool, devices: Devices)
    requires Proper(devices)
  {
    Checked(Advanced(s, inUserMode), false, devices).yieldOnReturn
  }

  // ---------------------------------------------------------------- the invariant

  /** Earlier, or at the same time and scheduled first. */
  predicate Before(x: Pending, y: Pending) {
    x.when < y.when || (x.when == y.when && x.id < y.id)
  }

  predicate InOrder(events: seq<Pending>) {
    forall i, j :: 0 <= i < j < |events| ==> Before(events[i], events[j])
  }

  function Events(log: seq<Fired>): seq<Pending> {
    seq(|log|, i requires 0 <= i < |log| => log[i].event)
  }

  /** All interrupts ever scheduled: those that have fired, then those that have not. */
  function Timeline(s: State): (t: seq<Pending>)
    ensures |t| == |s.log| + |s.pending|
  {
    Events(s.log) + s.pending
  }

  /** Each number below `next` belongs to exactly one interrupt. */
  predicate Numbered(events: seq<Pending>, next: nat) {
    && |events| == next
    && (forall i :: 0 <= i < |events| ==> events[i].id < next)
    && (forall i, j :: 0 <= i < j < |events| ==> events[i].id != events[j].id)
  }

  predicate OnTime(f: Fired) {
    f.event.when <= f.at <= f.event.when + SYSTEM_TICK - 1
  }

  predicate LogRight(log: seq<Fired>, now: nat) {
    && (forall i :: 0 <= i < |log| ==> OnTime(log[i]) && log[i].at <= now)
    && (forall i, j :: 0 <= i < j < |log| ==> log[i].at <= log[j].at)
  }

  predicate NotLate(pending: seq<Pending>, now: nat) {
    forall i :: 0 <= i < |pending| ==> now <= pending[i].when + SYSTEM_TICK - 1
  }

  /** What holds even while interrupts are being fired. */
  predicate Inv(s: State) {
    && s.total == s.idle + s.system + s.user
    && InOrder(Timeline(s)) && Numbered(Timeline(s), s.next)
    && LogRight(s.log, s.total) && NotLate(s.pending, s.total)
  }

  /** Nothing pending is due. */
  predicate Rests(s: State) {
    forall i :: 0 <= i < |s.pending| ==> s.pending[i].when > s.total
  }

  /** A new interrupt, later than all that have fired, finds its place among those pending. */
  lemma ScheduleKeeps(s: State, r: Request)
    requires Inv(s) && r.fromNow > 0
    ensures Inv(Scheduled(s, r))
    ensures Rests(s) ==> Rests(Scheduled(s, r))
    ensures Scheduled(s, r).log == s.log && Scheduled(s, r).total == s.total
  {
    hide Inserted, Place, Spliced, InOrder, Numbered, LogRight, Timeline, PendingCompare;
    var x := Pending(s.next, s.total + r.fromNow, r.kind);
    var k := |s.log| + Place(s.pending, x, PendingCompare);
    var was, now := Timeline(s), Timeline(Scheduled(s, r));
    ScheduledTimeline(s, r);
    PlaceRight(s, x);
    SplicedShape(was, k, x);
    SplicedInOrder(was, now, k, x, s.next);
    InsertedElements(s.pending, x, PendingCompare);
    ElementsNotLate(s.pending, Inserted(s.pending, x, PendingCompare), x, s.total);
  }

  /** What is true of the pending interrupts' times and of the new one's is true of all. */
  lemma ElementsNotLate(was: seq<Pending>, now: seq<Pending>, x: Pending, total: nat)
    requires x.when > total && forall y :: y in now ==> y == x || y in was
    ensures NotLate(was, total) ==> NotLate(now, total)
    ensures (forall i :: 0 <= i < |was| ==> was[i].when > total) ==> forall i :: 0 <= i < |now| ==> now[i].when > total
  {
    assert forall i :: 0 <= i < |now| ==> now[i] in now;
  }

  lemma ScheduledTimeline(s: State, r: Request)
    ensures var x := Pending(s.next, s.total + r.fromNow, r.kind);
      Timeline(Scheduled(s, r)) == Spliced(Timeline(s), |s.log| + Place(s.pending, x, PendingCompare), x)
  {
    var x := Pending(s.next, s.total + r.fromNow, r.kind);
    InsertedAt(s.pending, x, PendingCompare);
    hide Inserted, Place, Spliced, PendingCompare;
    SplicedBehind(Events(s.log), s.pending, Place(s.pending, x, PendingCompare), x);
  }

  lemma SplicedBehind(front: seq<Pending>, s: seq<Pending>, k: nat, x: Pending)
    requires k <= |s|
    ensures front + Spliced(s, k, x) == Spliced(front + s, |front| + k, x)
  {
    hide Spliced;
  }

  lemma SplicedShape(s: seq<Pending>, k: nat, x: Pending)
    requires k <= |s|
    ensures var r := Spliced(s, k, x);
      && |r| == |s| + 1 && r[k] == x
      && (forall i :: 0 <= i < k ==> r[i] == s[i]) && (forall i :: k < i < |r| ==> r[i] == s[i - 1])
  {
    hide Spliced;
  }

  lemma PlaceRight(s: State, x: Pending)
    requires LogRight(s.log, s.total) && x.when > s.total
    ensures var k := Place(s.pending, x, PendingCompare);
      && (forall i :: 0 <= i < |s.log| + k ==> Timeline(s)[i].when <= x.when)
      && (k < |s.pending| ==> x.when < Timeline(s)[|s.log| + k].when)
  {
    hide Place, Timeline, LogRight;
    var k, n := Place(s.pending, x, PendingCompare), |s.log|;
    forall i | 0 <= i < n + k ensures Timeline(s)[i].when <= x.when {
      TimelineAt(s, i);
      if i >= n {
        assert PendingCompare(x, s.pending[i - n]) >= 0;
      } else {
        FiredBefore(s, i);
      }
    }
    if k < |s.pending| {
      TimelineAt(s, n + k);
      assert PendingCompare(x, s.pending[k]) < 0;
    }
  }

  lemma FiredBefore(s: State, i: nat)
    requires LogRight(s.log, s.total) && i < |s.log|
    ensures s.log[i].event.when <= s.total
  {
    assert OnTime(s.log[i]);
  }

  lemma TimelineAt(s: State, i: nat)
    requires i < |s.log| + |s.pending|
    ensures Timeline(s)[i] == if i < |s.log| then s.log[i].event else s.pending[i - |s.log|]
  {
  }

  lemma SplicedInOrder(was: seq<Pending>, now: seq<Pending>, k: nat, x: Pending, next: nat)
    requires InOrder(was) && Numbered(was, next) && x.id == next && k <= |was| && |now| == |was| + 1
    requires forall i :: 0 <= i < k ==> now[i] == was[i]
    requires now[k] == x
    requires forall i :: k < i < |now| ==> now[i] == was[i - 1]
    requires forall i :: 0 <= i < k ==> was[i].when <= x.when
    requires k < |was| ==> x.when < was[k].when
    ensures InOrder(now) && Numbered(now, next + 1)
  {
    forall i, j | 0 <= i < j < |now| ensures Before(now[i], now[j]) && now[i].id != now[j].id {
      var i', j' := if i < k then i else i - 1, if j < k then j else j - 1;
      if i == k {
        assert k < j' ==> Before(was[k], was[j']);
      } else if j != k {
        assert Before(was[i'], was[j']);
      }
    }
  }

  lemma {:induction false} ScheduleAllKeeps(s: State, requests: seq<Request>)
    requires Inv(s) && Positive(requests)
    ensures var t := ScheduledAll(s, requests); Inv(t) && t.log == s.log && t.total == s.total && (Rests(s) ==> Rests(t))
    decreases |requests|
  {
    hide Inv, Scheduled, Rests;
    if requests != [] {
      ScheduleKeeps(s, requests[0]);
      ScheduleAllKeeps(Scheduled(s, requests[0]), requests[1..]);
    }
  }

  lemma FireKeeps(s: State, devices: Devices)
    requires Inv(s) && AnyDue(s) && Proper(devices)
    ensures Inv(Fire(s, devices)) && Fire(s, devices).total == s.total
  {
    var log := s.log + [Fired(s.pending[0], s.total)];
    var popped := s.(pending := s.pending[1..], log := log);
    assert Timeline(popped) == Timeline(s);
    assert Inv(popped);
    hide Inv;
    ScheduleAllKeeps(popped, devices(log).requests);
    YieldKeeps(ScheduledAll(popped, devices(log).requests), true);
  }

  /** The wish to yield is no part of the invariant. */
  lemma YieldKeeps(s: State, wish: bool)
    ensures Inv(s) ==> Inv(s.(yieldOnReturn := wish)) && Inv(s.(yieldOnReturn := s.yieldOnReturn || wish))
    ensures Inv(s) ==> Inv(s.(yieldOnReturn := s.yieldOnReturn || false))
  {
    assert forall w: bool :: Timeline(s.(yieldOnReturn := w)) == Timeline(s);
  }

  /** Draining keeps the invariant and leaves nothing due. */
  lemma {:induction false} DrainKeeps(s: State, devices: Devices)
    requires Inv(s) && Proper(devices)
    ensures Inv(Drain(s, devices)) && Rests(Drain(s, devices)) && Drain(s, devices).total == s.total
    decreases DueCount(s.pending, s.total)
  {
    if AnyDue(s) {
      FireUsesUpDue(s, devices);
      FireKeeps(s, devices);
      DrainKeeps(Fire(s, devices), devices);
    } else {
      FirstIsNext(s);
    }
  }

  lemma FirstIsNext(s: State)
    requires Inv(s) && !AnyDue(s)
    ensures Rests(s)
  {
    forall i | 0 <= i < |s.pending| ensures s.pending[i].when > s.total {
      var n := |s.log|;
      assert Timeline(s)[n] == s.pending[0] && Timeline(s)[n + i] == s.pending[i];
      assert i > 0 ==> Before(Timeline(s)[n], Timeline(s)[n + i]);
    }
  }

  // ---------------------------------------------------------------- whole runs

  /** What the rest of the system does to the simulation: a tick, an idle moment, or a device request of the kernel's. */
  datatype Op = Tick(inUserMode: bool) | Idle | Ask(request: Request)

  ghost function Next(s: State, op: Op, devices: Devices): State
    requires Proper(devices)
  {
    match op
    case Tick(inUserMode) => Ticked(s, inUserMode, devices)
    case Idle => Checked(s, true, devices)
    case Ask(request) => Scheduled(s, request)
  }

  ghost function After(s: State, ops: seq<Op>, devices: Devices): State
    requires Proper(devices)
    decreases |ops|
  {
    if ops == [] then s else After(Next(s, ops[0], devices), ops[1..], devices)
  }

  /** ASSERT(fromNow > 0). */
  predicate Allowed(ops: seq<Op>) {
    forall i :: 0 <= i < |ops| && ops[i].Ask? ==> ops[i].request.fromNow > 0
  }

  /** Moving the clock on by a tick, or to the next interrupt, makes no pending interrupt more than a tick late. */
  lemma ClockKeeps(s: State, t: State)
    requires Inv(s) && Rests(s)
    requires t.pending == s.pending && t.log == s.log && t.next == s.next && t.total == t.idle + t.system + t.user
    requires s.total <= t.total
    requires t.total <= s.total + SYSTEM_TICK || (s.pending != [] && t.total == s.pending[0].when)
    ensures Inv(t)
  {
    assert Timeline(t) == Timeline(s);
    forall i | 0 <= i < |s.pending| ensures t.total <= s.pending[i].when + SYSTEM_TICK - 1 {
      var n := |s.log|;
      assert Timeline(s)[n] == s.pending[0] && Timeline(s)[n + i] == s.pending[i];
      assert i > 0 ==> Before(Timeline(s)[n], Timeline(s)[n + i]);
    }
  }

  lemma TickKeeps(s: State, inUserMode: bool, devices: Devices)
    requires Inv(s) && Rests(s) && Proper(devices)
    ensures Inv(Ticked(s, inUserMode, devices)) && Rests(Ticked(s, inUserMode, devices))
  {
    hide Drain;
    var advanced := Advanced(s, inUserMode);
    assert advanced.total == advanced.idle + advanced.system + advanced.user;
    hide Inv;
    ClockKeeps(s, advanced);
    DrainKeeps(advanced, devices);
    YieldKeeps(Drain(advanced, devices), false);
  }

  lemma IdleKeeps(s: State, devices: Devices)
    requires Inv(s) && Rests(s) && Proper(devices)
    ensures Inv(Checked(s, true, devices)) && Rests(Checked(s, true, devices))
  {
    hide Drain;
    if s.pending == [] {
      DrainKeeps(s, devices);
    } else {
      var advanced := s.(idle := s.idle + (s.pending[0].when - s.total), total := s.pending[0].when);
      assert advanced.total == advanced.idle + advanced.system + advanced.user;
      hide Inv;
      ClockKeeps(s, advanced);
      DrainKeeps(advanced, devices);
    }
  }

  lemma NextKeeps(s: State, op: Op, devices: Devices)
    requires Inv(s) && Rests(s) && Proper(devices) && (op.Ask? ==> op.request.fromNow > 0)
    ensures Inv(Next(s, op, devices)) && Rests(Next(s, op, devices))
  {
    hide Inv, Rests, Ticked, Checked, Scheduled;
    match op
    case Tick(inUserMode) => TickKeeps(s, inUserMode, devices);
    case Idle => IdleKeeps(s, devices);
    case Ask(request) => ScheduleKeeps(s, request);
  }

  lemma {:induction false} RunKeeps(s: State, ops: seq<Op>, devices: Devices)
    requires Inv(s) && Rests(s) && Proper(devices) && Allowed(ops)
    ensures Inv(After(s, ops, devices)) && Rests(After(s, ops, devices))
    decreases |ops|
  {
    hide Inv, Rests, Next;
    if ops != [] {
      NextKeeps(s, ops[0], devices);
      RunKeeps(Next(s, ops[0], devices), ops[1..], devices);
    }
  }

  lemma StartsRight()
    ensures Inv(START) && Rests(START)
  {
  }

  /** Every interrupt ever scheduled has fired or is pending, not both and not twice; those that have fired are exactly
      those whose time has come. */
  predicate FiredIffDue(s: State) {
    && |s.log| + |s.pending| == s.next
    && (forall i :: 0 <= i < |s.log| ==> s.log[i].event.id < s.next && s.log[i].event.when <= s.total)
    && (forall i :: 0 <= i < |s.pending| ==> s.pending[i].id < s.next && s.pending[i].when > s.total)
    && (forall i, j :: 0 <= i < j < |s.log| ==> s.log[i].event.id != s.log[j].event.id)
    && (forall i, j :: 0 <= i < j < |s.pending| ==> s.pending[i].id != s.pending[j].id)
    && (forall i, j :: 0 <= i < |s.log| && 0 <= j < |s.pending| ==> s.log[i].event.id != s.pending[j].id)
  }

  lemma FiredIffDueAtRest(s: State)
    requires Inv(s) && Rests(s)
    ensures FiredIffDue(s)
  {
    hide InOrder;
    var t, n := Timeline(s), |s.log|;
    assert forall i :: 0 <= i < n ==> t[i] == s.log[i].event && OnTime(s.log[i]);
    assert forall i :: 0 <= i < |s.pending| ==> t[n + i] == s.pending[i];
  }

  lemma FiredExactlyWhenDue(ops: seq<Op>, devices: Devices)
    requires Proper(devices) && Allowed(ops)
    ensures FiredIffDue(After(START, ops, devices))
  {
    hide Inv, After;
    StartsRight();
    RunKeeps(START, ops, devices);
    FiredIffDueAtRest(After(START, ops, devices));
  }

  /** No interrupt fires early, or more than SystemTick - 1 ticks late. */
  lemma NeverEarlyNorLate(ops: seq<Op>, devices: Devices, i: nat)
    requires Proper(devices) && Allowed(ops) && i < |After(START, ops, devices).log|
    ensures var f := After(START, ops, devices).log[i]; f.event.when <= f.at <= f.event.when + 9
  {
    hide After, Inv;
    StartsRight();
    RunKeeps(START, ops, devices);
    LogOnTime(After(START, ops, devices), i);
  }

  lemma LogOnTime(s: State, i: nat)
    requires Inv(s) && i < |s.log|
    ensures OnTime(s.log[i])
  {
  }

  /** Over the whole run interrupts fire in the order of their times, those of one time in the order of scheduling. */
  lemma FiredInOrder(ops: seq<Op>, devices: Devices, i: nat, j: nat)
    requires Proper(devices) && Allowed(ops) && i < j < |After(START, ops, devices).log|
    ensures var log := After(START, ops, devices).log;
      Before(log[i].event, log[j].event) && log[i].at <= log[j].at
  {
    hide After, Inv;
    StartsRight();
    RunKeeps(START, ops, devices);
    LogInOrder(After(START, ops, devices), i, j);
  }

  lemma LogInOrder(s: State, i: nat, j: nat)
    requires Inv(s) && i < j < |s.log|
    ensures Before(s.log[i].event, s.log[j].event) && s.log[i].at <= s.log[j].at
  {
    assert Timeline(s)[i] == s.log[i].event && Timeline(s)[j] == s.log[j].event;
  }

  /** Every tick is accounted for. */
  lemma TicksAddUp(ops: seq<Op>, devices: Devices)
    requires Proper(devices) && Allowed(ops)
    ensures var s := After(START, ops, devices); s.total == s.idle + s.system + s.user
  {
    hide After, InOrder, Numbered, NotLate, LogRight, Timeline;
    StartsRight();
    RunKeeps(START, ops, devices);
  }

  // ---------------------------------------------------------------- the simulation's own form

  datatype MachineStatus = IdleMode | SystemMode | UserMode

  class Interrupt {
    var interruptsOn: bool
    var inHandler: bool
    var status: MachineStatus
    var yieldOnReturn: bool
    const pending: List<Pending>
    var totalTicks: nat
    var idleTicks: nat
    var systemTicks: nat
    var userTicks: nat
    var scheduled: nat
    var fired: seq<Fired>

    constructor ()
      ensures Valid() && View() == START && !interruptsOn && !inHandler && status == SystemMode && fresh(pending)
    {
      interruptsOn, inHandler, status, yieldOnReturn := false, false, SystemMode, false;
      pending := new List();
      scheduled, fired := 0, [];
      totalTicks, idleTicks, systemTicks, userTicks := 0, 0, 0, 0;
    }

    /** Whatever is on the list has been scheduled. */
    ghost predicate Valid()
      reads this, pending, pending.Repr
    {
      pending.Valid() && forall i :: 0 <= i < |pending.contents| ==> pending.contents[i].id < scheduled
    }

    ghost function View(): State
      reads this, pending
    {
      State(totalTicks, idleTicks, systemTicks, userTicks, pending.contents, scheduled, fired, yieldOnReturn)
    }

    /** ASSERT(!IsInList(item)) in Insert holds, because each interrupt is a new one. */
    method Schedule(fromNow: int, kind: IntType)
      requires Valid() && fromNow > 0
      modifies this, pending, pending.Repr
      ensures Valid() && fresh(pending.Repr - old(pending.Repr))
      ensures View() == Scheduled(old(View()), Request(fromNow, kind))
      ensures interruptsOn == old(interruptsOn) && inHandler == old(inHandler) && status == old(status)
    {
      var toOccur := Pending(scheduled, totalTicks + fromNow, kind);
      ghost var was := pending.contents;
      InsertedElements(was, toOccur, PendingCompare);
      hide Inserted, Place, PendingCompare;
      pending.Insert(toOccur, PendingCompare);
      scheduled := scheduled + 1;
      forall i | 0 <= i < |pending.contents| ensures pending.contents[i].id < scheduled {
        assert pending.contents[i] in pending.contents;
      }
    }

    method YieldOnReturn()
      requires inHandler
      modifies this`yieldOnReturn
      ensures yieldOnReturn
    {
      yieldOnReturn := true;
    }

    /** The first pending interrupt. */
    method First() returns (next: Pending)
      requires Valid() && pending.contents != []
      ensures next == pending.contents[0]
    {
      next := pending.first.item;
    }

    /** RemoveFront and CallBack: the handler runs with interrupts off. */
    method FireFirst(devices: Devices)
      requires Valid() && pending.contents != [] && inHandler && Proper(devices)
      modifies this, pending, pending.Repr
      ensures Valid() && fresh(pending.Repr - old(pending.Repr))
      ensures View() == Fire(old(View()), devices)
      ensures interruptsOn == old(interruptsOn) && inHandler && status == old(status)
    {
      hide Inserted, ScheduledAll;
      var next := pending.RemoveFront();
      fired := fired + [Fired(next, totalTicks)];
      var reaction := devices(fired);
      ScheduleEach(reaction.requests);
      if reaction.switches {
        YieldOnReturn();
      }
    }

    /** What a handler schedules, one after the other. */
    method ScheduleEach(requests: seq<Request>)
      requires Valid() && Positive(requests)
      modifies this, pending, pending.Repr
      ensures Valid() && fresh(pending.Repr - old(pending.Repr))
      ensures View() == ScheduledAll(old(View()), requests)
      ensures interruptsOn == old(interruptsOn) && inHandler == old(inHandler) && status == old(status)
    {
      var i := 0;
      while i < |requests|
        invariant 0 <= i <= |requests|
        invariant Valid() && fresh(pending.Repr - old(pending.Repr))
        invariant inHandler == old(inHandler) && interruptsOn == old(interruptsOn) && status == old(status)
        invariant ScheduledAll(View(), requests[i..]) == ScheduledAll(old(View()), requests)
      {
        assert requests[i..][1..] == requests[i + 1..];
        Schedule(requests[i].fromNow, requests[i].kind);
        i := i + 1;
      }
    }

    /** Fires what is due; with `advanceClock`, first moves the clock to the next interrupt. */
    method CheckIfDue(advanceClock: bool, devices: Devices) returns (any: bool)
      requires Valid() && !interruptsOn && Proper(devices)
      modifies this, pending, pending.Repr
      ensures Valid() && fresh(pending.Repr - old(pending.Repr))
      ensures View() == Checked(old(View()), advanceClock, devices)
      ensures any <==> old(pending.contents) != [] && (advanceClock || old(pending.contents)[0].when <= old(totalTicks))
      ensures !interruptsOn && status == old(status) && inHandler == (old(inHandler) && !any)
    {
      hide Drain;
      NothingDue(View(), devices);
      if pending.IsEmpty() {
        return false;
      }
      var next := First();
      if next.when > totalTicks {
        if !advanceClock {
          return false;
        }
        idleTicks := idleTicks + (next.when - totalTicks);
        totalTicks := next.when;
      }
      inHandler := true;
      FireDue(devices);
      inHandler := false;
      return true;
    }

    /** The loop of CheckIfDue. */
    method FireDue(devices: Devices)
      requires Valid() && AnyDue(View()) && inHandler && Proper(devices)
      modifies this, pending, pending.Repr
      ensures Valid() && fresh(pending.Repr - old(pending.Repr))
      ensures View() == Drain(old(View()), devices)
      ensures inHandler && interruptsOn == old(interruptsOn) && status == old(status)
    {
      hide Fire, Interrupt.Valid, DueCount;
      var more := true;
      while more
        invariant Valid() && fresh(pending.Repr - old(pending.Repr))
        invariant inHandler && interruptsOn == old(interruptsOn) && status == old(status)
        invariant more <==> AnyDue(View())
        invariant Drain(View(), devices) == Drain(old(View()), devices)
        decreases DueCount(pending.contents, totalTicks)
      {
        FireUsesUpDue(View(), devices);
        FireFirst(devices);
        more := IsDue();
      }
    }

    /** The test of that loop. */
    method IsDue() returns (due: bool)
      requires Valid()
      ensures due <==> AnyDue(View())
    {
      if pending.IsEmpty() {
        return false;
      }
      var next := First();
      return next.when <= totalTicks;
    }

    /** `mustYield` tells the caller to yield the processor. */
    method OneTick(devices: Devices) returns (mustYield: bool)
      requires Valid() && Proper(devices)
      modifies this, pending, pending.Repr
      ensures Valid() && fresh(pending.Repr - old(pending.Repr))
      ensures View() == Ticked(old(View()), old(status) != SystemMode, devices)
      ensures mustYield == SwitchWanted(old(View()), old(status) != SystemMode, devices)
      ensures interruptsOn && status == old(status)
    {
      hide Drain;
      if status == SystemMode {
        totalTicks, systemTicks := totalTicks + SYSTEM_TICK, systemTicks + SYSTEM_TICK;
      } else {
        totalTicks, userTicks := totalTicks + USER_TICK, userTicks + USER_TICK;
      }
      interruptsOn := false;
      var any := CheckIfDue(false, devices);
      interruptsOn := true;
      mustYield := yieldOnReturn;
      yieldOnReturn := false;
    }

    /** Enabling interrupts costs a tick; disabling them, or leaving them as they are, costs nothing. */
    method SetLevel(on: bool, devices: Devices) returns (was: bool, mustYield: bool)
      requires Valid() && Proper(devices) && (on ==> !inHandler)
      modifies this, pending, pending.Repr
      ensures Valid() && fresh(pending.Repr - old(pending.Repr))
      ensures was == old(interruptsOn) && interruptsOn == on && status == old(status)
      ensures View() == if on && !was then Ticked(old(View()), old(status) != SystemMode, devices) else old(View())
      ensures mustYield == (on && !was && SwitchWanted(old(View()), old(status) != SystemMode, devices))
    {
      was, mustYield := interruptsOn, false;
      interruptsOn := on;
      if on && !was {
        mustYield := OneTick(devices);
      }
    }

    /** With nothing to run: on to the next interrupt, or halt if there is none. */
    method Idle(devices: Devices) returns (halt: bool)
      requires Valid() && !interruptsOn && Proper(devices)
      modifies this, pending, pending.Repr
      ensures Valid() && fresh(pending.Repr - old(pending.Repr))
      ensures View() == Checked(old(View()), true, devices)
      ensures halt <==> old(pending.contents) == []
      ensures !interruptsOn && (!halt ==> status == SystemMode)
    {
      status := IdleMode;
      var any := CheckIfDue(true, devices);
      if any {
        status := SystemMode;
      }
      halt := !any;
    }
  }
}
