/** The simulated disk (machine/disk.cc): how long requests take, from the position of the head and the track buffer. */
module Disks {
  import opened Bits
  import opened Memory
  import I = Interrupts

  const SECTOR_SIZE := 128
  const SECTORS_PER_TRACK := 32
  const ROTATION_TIME := 500
  const SEEK_TIME := 500

  const HW1_TRACKS := 32
  const HW4_TRACKS := 16384   // 32 * 512

  /** A disk of `tracks` tracks.  The head is at the track of `lastSector`; the track buffer has been filling since
      `bufferInit`. An active request ends at `doneAt`. */
  datatype Drive = Drive(tracks: nat, lastSector: nat, bufferInit: nat, active: bool, doneAt: nat)

  /** The ASSERT on sector numbers. */
  predicate OnDisk(d: Drive, sector: nat) {
    sector < SECTORS_PER_TRACK * d.tracks
  }

  function TrackOf(sector: nat): nat {
    sector / SECTORS_PER_TRACK
  }

  /** The track under the head after `k` ticks of seeking: it moves on by one track every SeekTime ticks until it is there. */
  function HeadAt(from: nat, to: nat, k: nat): nat
    decreases k
  {
    if k < SEEK_TIME || from == to then from
    else HeadAt(if from < to then from + 1 else from - 1, to, k - SEEK_TIME)
  }

  /** The seek for a sector ends `k` ticks after it begins: then, and not before, the head is at the sector's track. */
  ghost predicate HeadArrives(d: Drive, sector: nat, k: nat) {
    && HeadAt(TrackOf(d.lastSector), TrackOf(sector), k) == TrackOf(sector)
    && forall j: nat :: j < k ==> HeadAt(TrackOf(d.lastSector), TrackOf(sector), j) != TrackOf(sector)
  }

  lemma {:induction false} HeadMoves(from: nat, to: nat, k: nat)
    ensures var distance := if from < to then to - from else from - to;
      HeadAt(from, to, k) == to <==> k >= distance * SEEK_TIME
    decreases k
  {
    if k >= SEEK_TIME && from != to {
      HeadMoves(if from < to then from + 1 else from - 1, to, k - SEEK_TIME);
    }
  }

  /** The seek time of TimeToSeek is the time the head takes, for all pairs of sectors. */
  lemma SeekIsArrival(d: Drive, now: nat, newSector: nat, k: nat)
    ensures HeadArrives(d, newSector, k) <==> k == TimeToSeek(d, now, newSector).0
  {
    var from, to := TrackOf(d.lastSector), TrackOf(newSector);
    var seek := TimeToSeek(d, now, newSector).0;
    HeadMoves(from, to, k);
    HeadMoves(from, to, seek);
    forall j: nat ensures HeadAt(from, to, j) == to <==> j >= seek {
      HeadMoves(from, to, j);
    }
  }

  /** The seek time, and the wait for the next sector boundary after it. */
  function TimeToSeek(d: Drive, now: nat, newSector: nat): (r: (nat, nat))
    ensures OnDisk(d, newSector) && OnDisk(d, d.lastSector) ==> r.0 <= (d.tracks - 1) * SEEK_TIME
    ensures r.1 < ROTATION_TIME && (now + r.0 + r.1) % ROTATION_TIME == 0
  {
    var newTrack, oldTrack := newSector / SECTORS_PER_TRACK, d.lastSector / SECTORS_PER_TRACK;
    var tracks: nat := if newTrack > oldTrack then newTrack - oldTrack else oldTrack - newTrack;
    var seek := tracks * SEEK_TIME;
    var over := (now + seek) % ROTATION_TIME;
    (seek, if over > 0 then ROTATION_TIME - over else 0)
  }

  /** From sector position `from`, the number of slots until `to` comes under the head. */
  function ModuloDiff(to: nat, from: nat): (r: nat)
    ensures r < SECTORS_PER_TRACK
    ensures (from + r) % SECTORS_PER_TRACK == to % SECTORS_PER_TRACK
  {
    var toOffset: int, fromOffset: int := to % SECTORS_PER_TRACK, from % SECTORS_PER_TRACK;
    ModuloRight(to, from);
    ((toOffset - fromOffset) + SECTORS_PER_TRACK) % SECTORS_PER_TRACK
  }

  lemma ModuloRight(to: nat, from: nat)
    ensures var r := ((to % SECTORS_PER_TRACK - from % SECTORS_PER_TRACK) + SECTORS_PER_TRACK) % SECTORS_PER_TRACK;
      0 <= r < SECTORS_PER_TRACK && (from + r) % SECTORS_PER_TRACK == to % SECTORS_PER_TRACK
  {
    var t, f, p := to % 32, from % 32, from / 32;
    var ahead := if t >= f then 1 else 0;
    ModUnique((t - f) + 32, 32, ahead, t - f + 32 - 32 * ahead);
    ModUnique(from + (t - f + 32 - 32 * ahead), 32, p + 1 - ahead, t);
  }

  /** It is the least such number. */
  lemma ModuloDiffLeast(to: nat, from: nat, k: nat)
    requires (from + k) % SECTORS_PER_TRACK == to % SECTORS_PER_TRACK
    ensures ModuloDiff(to, from) <= k
  {
    var r := ModuloDiff(to, from);
    var p, q := (from + k) / 32, (from + r) / 32;
    assert r - k == 32 * (q - p);
  }

  function TimeAfter(d: Drive, now: nat, newSector: nat): nat {
    now + TimeToSeek(d, now, newSector).0 + TimeToSeek(d, now, newSector).1
  }

  /** The test for the track buffer. */
  predicate InBuffer(d: Drive, now: nat, newSector: nat, writing: bool)
    requires d.bufferInit <= now
  {
    && !writing && TimeToSeek(d, now, newSector).0 == 0
    && (TimeAfter(d, now, newSector) - d.bufferInit) / ROTATION_TIME > ModuloDiff(newSector, d.bufferInit / ROTATION_TIME)
  }

  /** ComputeLatency: seek time, rotational delay and transfer time. */
  function Latency(d: Drive, now: nat, newSector: nat, writing: bool): (ticks: nat)
    requires d.bufferInit <= now
    ensures ROTATION_TIME <= ticks
    ensures OnDisk(d, newSector) && OnDisk(d, d.lastSector) ==>
      ticks < (d.tracks - 1) * SEEK_TIME + (SECTORS_PER_TRACK + 1) * ROTATION_TIME
  {
    if InBuffer(d, now, newSector, writing) then ROTATION_TIME else
      var (seek, rotation) := TimeToSeek(d, now, newSector);
      seek + (rotation + ModuloDiff(newSector, TimeAfter(d, now, newSector) / ROTATION_TIME) * ROTATION_TIME) + ROTATION_TIME
  }

  /** Slot `n` begins at tick n * RotationTime; the head passes over one sector of the track. */
  predicate SlotIs(n: nat, sector: nat) {
    n % SECTORS_PER_TRACK == sector % SECTORS_PER_TRACK
  }

  /** The track buffer has the sector: the request is a read on the current track, and some whole slot from bufferInit to the
      next sector boundary, at tick `b`, was the wanted sector's. */
  ghost predicate Buffered(d: Drive, now: nat, newSector: nat, writing: bool, b: nat) {
    && !writing && TrackOf(newSector) == TrackOf(d.lastSector)
    && exists n: nat :: d.bufferInit <= n * ROTATION_TIME && (n + 1) * ROTATION_TIME <= b && SlotIs(n, newSector)
  }

  /** Tick `b` is the first sector boundary that is not past. */
  predicate NextBoundary(now: nat, b: nat) {
    now <= b < now + ROTATION_TIME && b % ROTATION_TIME == 0
  }

  lemma BoundaryIs(d: Drive, now: nat, newSector: nat, k: nat, b: nat)
    requires HeadArrives(d, newSector, k) && NextBoundary(now + k, b)
    ensures TimeAfter(d, now, newSector) == b
  {
    SeekIsArrival(d, now, newSector, k);
    SameBoundary(TimeAfter(d, now, newSector), b);
  }

  lemma SameBoundary(b: nat, b': nat)
    requires b % ROTATION_TIME == 0 && b' % ROTATION_TIME == 0 && -500 < b - b' < 500
    ensures b == b'
  {
    var q, q' := b / 500, b' / 500;
    assert b == 500 * q && b' == 500 * q';
  }

  /** The test for the track buffer is right. */
  lemma BufferHasSector(d: Drive, now: nat, newSector: nat, writing: bool, b: nat)
    requires d.bufferInit <= now && d.bufferInit % ROTATION_TIME == 0 && NextBoundary(now, b)
    ensures InBuffer(d, now, newSector, writing) <==> Buffered(d, now, newSector, writing, b)
  {
    SeekIsArrival(d, now, newSector, 0);
    HeadMoves(TrackOf(d.lastSector), TrackOf(newSector), 0);
    if TrackOf(newSector) == TrackOf(d.lastSector) {
      BoundaryIs(d, now, newSector, 0, b);
      SlotsInBuffer(d, now, newSector);
    }
  }

  lemma SlotsInBuffer(d: Drive, now: nat, newSector: nat)
    requires d.bufferInit <= now && d.bufferInit % ROTATION_TIME == 0
    ensures var after := TimeAfter(d, now, newSector);
      (after - d.bufferInit) / ROTATION_TIME > ModuloDiff(newSector, d.bufferInit / ROTATION_TIME) <==>
      exists n: nat :: d.bufferInit <= n * ROTATION_TIME && (n + 1) * ROTATION_TIME <= after && SlotIs(n, newSector)
  {
    var first, last := d.bufferInit / ROTATION_TIME, TimeAfter(d, now, newSector) / ROTATION_TIME;
    var k := ModuloDiff(newSector, first);
    var after := TimeAfter(d, now, newSector);
    assert d.bufferInit == first * 500 && after == last * 500;
    assert (after - d.bufferInit) / ROTATION_TIME == last - first;
    hide TimeAfter;
    if last - first > k {
      var n := first + k;
      assert SlotIs(n, newSector) && (n + 1) * ROTATION_TIME <= after;
    }
    forall n: nat | d.bufferInit <= n * ROTATION_TIME && (n + 1) * ROTATION_TIME <= after && SlotIs(n, newSector)
      ensures last - first > k
    {
      ModuloDiffLeast(newSector, first, n - first);
    }
  }

  /** The transfer begins with slot `n`: the first, once the head has arrived, in which the wanted sector comes under it. */
  ghost predicate FirstSlot(d: Drive, now: nat, newSector: nat, k: nat, n: nat) {
    && HeadArrives(d, newSector, k) && now + k <= n * ROTATION_TIME && SlotIs(n, newSector)
    && forall m: nat :: now + k <= m * ROTATION_TIME && SlotIs(m, newSector) ==> n <= m
  }

  /** Any other request starts its transfer, which takes the last RotationTime ticks, with the first slot of the wanted sector
      after the head has arrived at its track. */
  lemma TransferStartsEarliest(d: Drive, now: nat, newSector: nat, writing: bool, k: nat, n: nat)
    requires d.bufferInit <= now && !InBuffer(d, now, newSector, writing) && HeadArrives(d, newSector, k)
    ensures FirstSlot(d, now, newSector, k, n) <==> now + Latency(d, now, newSector, writing) == (n + 1) * ROTATION_TIME
  {
    SeekIsArrival(d, now, newSector, k);
    var after := TimeAfter(d, now, newSector);
    var last := after / ROTATION_TIME;
    var wait := ModuloDiff(newSector, last);
    assert after == last * 500;
    assert now + Latency(d, now, newSector, writing) == (last + wait + 1) * 500;
    assert now + k <= after < now + k + 500;
    hide ModuloDiff, InBuffer, Latency, TimeAfter, TimeToSeek, HeadArrives;
    SlotFrom(newSector, last, wait);
    forall m: nat | now + k <= m * ROTATION_TIME && SlotIs(m, newSector) ensures last + wait <= m {
      assert last <= m;
      ModuloDiffLeast(newSector, last, m - last);
    }
    assert now + k <= (last + wait) * ROTATION_TIME;
  }

  lemma SlotFrom(newSector: nat, last: nat, wait: nat)
    requires wait == ModuloDiff(newSector, last)
    ensures SlotIs(last + wait, newSector)
  {
  }

  /** What a request takes: a sector's time from the track buffer; otherwise from now to the end of the slot in which the
      wanted sector first comes under the head. */
  ghost predicate Takes(d: Drive, now: nat, newSector: nat, writing: bool, ticks: nat) {
    if exists b :: NextBoundary(now, b) && Buffered(d, now, newSector, writing, b) then ticks == ROTATION_TIME
    else exists k: nat, n: nat :: FirstSlot(d, now, newSector, k, n) && now + ticks == (n + 1) * ROTATION_TIME
  }

  /** The latency is what the request takes, and nothing else is. */
  lemma LatencyRight(d: Drive, now: nat, newSector: nat, writing: bool, ticks: nat)
    requires d.bufferInit <= now && d.bufferInit % ROTATION_TIME == 0
    ensures Takes(d, now, newSector, writing, ticks) <==> ticks == Latency(d, now, newSector, writing)
  {
    hide TimeToSeek, TimeAfter, HeadArrives, FirstSlot, Buffered;
    var over := now % ROTATION_TIME;
    var b := if over > 0 then now - over + ROTATION_TIME else now;
    BoundaryExists(now);
    BufferHasSector(d, now, newSector, writing, b);
    forall b' | NextBoundary(now, b') ensures b' == b {
      SameBoundary(b, b');
    }
    if !InBuffer(d, now, newSector, writing) {
      SlotRight(d, now, newSector, writing, ticks);
    }
    hide NextBoundary;
  }

  lemma BoundaryExists(now: nat)
    ensures var over := now % ROTATION_TIME; NextBoundary(now, if over > 0 then now - over + ROTATION_TIME else now)
  {
    var q, over := now / 500, now % 500;
    ModUnique(if over > 0 then now - over + 500 else now, 500, if over > 0 then q + 1 else q, 0);
  }

  lemma SlotRight(d: Drive, now: nat, newSector: nat, writing: bool, ticks: nat)
    requires d.bufferInit <= now && !InBuffer(d, now, newSector, writing)
    ensures (exists k: nat, n: nat :: FirstSlot(d, now, newSector, k, n) && now + ticks == (n + 1) * ROTATION_TIME) <==>
      ticks == Latency(d, now, newSector, writing)
  {
    var k := TimeToSeek(d, now, newSector).0;
    SeekIsArrival(d, now, newSector, k);
    var end := now + Latency(d, now, newSector, writing);
    EndsWithSlot(d, now, newSector, writing);
    hide TimeToSeek, Latency, HeadArrives, InBuffer;
    var n := end / ROTATION_TIME - 1;
    TransferStartsEarliest(d, now, newSector, writing, k, n);
    forall k': nat, n': nat | FirstSlot(d, now, newSector, k', n') ensures now + Latency(d, now, newSector, writing) == (n' + 1) * 500 {
      TransferStartsEarliest(d, now, newSector, writing, k', n');
    }
  }

  lemma EndsWithSlot(d: Drive, now: nat, newSector: nat, writing: bool)
    requires d.bufferInit <= now && !InBuffer(d, now, newSector, writing)
    ensures var end := now + Latency(d, now, newSector, writing);
      end >= ROTATION_TIME && end == (end / ROTATION_TIME) * ROTATION_TIME
  {
    var last := TimeAfter(d, now, newSector) / ROTATION_TIME;
    var wait := ModuloDiff(newSector, last);
    assert now + Latency(d, now, newSector, writing) == (last + wait + 1) * 500;
    hide InBuffer, Latency, TimeAfter, ModuloDiff;
    ModUnique(now + Latency(d, now, newSector, writing), 500, last + wait + 1, 0);
  }

  // ---------------------------------------------------------------- requests

  function Requested(d: Drive, now: nat, newSector: nat, writing: bool): Drive
    requires d.bufferInit <= now
  {
    var seek := TimeToSeek(d, now, newSector).0;
    Drive(d.tracks, newSector, if seek != 0 then TimeAfter(d, now, newSector) else d.bufferInit, true,
          now + Latency(d, now, newSector, writing))
  }

  /** What a request leaves: the head at the new track, the buffer filling from the first sector boundary after it has arrived
      there or, if it was there, from where it was, and the end of the request at its latency. */
  lemma RequestMoves(d: Drive, now: nat, newSector: nat, writing: bool, k: nat, b: nat)
    requires d.bufferInit <= now && HeadArrives(d, newSector, k) && NextBoundary(now + k, b)
    ensures var d' := Requested(d, now, newSector, writing);
      && d'.tracks == d.tracks && d'.lastSector == newSector && d'.active
      && d'.bufferInit == (if TrackOf(newSector) == TrackOf(d.lastSector) then d.bufferInit else b)
      && (d.bufferInit % ROTATION_TIME == 0 ==> d'.doneAt >= now && Takes(d, now, newSector, writing, d'.doneAt - now))
  {
    hide HeadArrives, Takes, Latency;
    BoundaryIs(d, now, newSector, k, b);
    if d.bufferInit % ROTATION_TIME == 0 {
      LatencyRight(d, now, newSector, writing, Latency(d, now, newSector, writing));
    }
  }

  predicate Inv(d: Drive, now: nat) {
    && OnDisk(d, d.lastSector) && d.bufferInit % ROTATION_TIME == 0
    && d.bufferInit <= if d.active then d.doneAt else now
  }

  /** The head has reached the new track, and the buffer has begun to fill, before the request is done. */
  lemma RequestKeeps(d: Drive, now: nat, newSector: nat, writing: bool)
    requires Inv(d, now) && !d.active && OnDisk(d, newSector)
    ensures Inv(Requested(d, now, newSector, writing), now)
  {
  }

  datatype Event =
    | Request(at: nat, sector: nat, writing: bool)
    | Done(at: nat)

  function Next(d: Drive, e: Event): Drive
    requires e.Request? ==> d.bufferInit <= e.at
  {
    match e
    case Request(at, sector, writing) => Requested(d, at, sector, writing)
    case Done(at) => d.(active := false)
  }

  /** Requests come one at a time, and the disk interrupt ends each no earlier than it was scheduled for. */
  predicate Legal(d: Drive, now: nat, es: seq<Event>)
    requires Inv(d, now)
    decreases |es|
  {
    es == [] ||
      var e := es[0];
      && now <= e.at && (if e.Request? then !d.active && OnDisk(d, e.sector) else d.active && d.doneAt <= e.at)
      && (EventKeeps(d, now, e); Legal(Next(d, e), e.at, es[1..]))
  }

  lemma EventKeeps(d: Drive, now: nat, e: Event)
    requires Inv(d, now) && now <= e.at
    requires if e.Request? then !d.active && OnDisk(d, e.sector) else d.active && d.doneAt <= e.at
    ensures Inv(Next(d, e), e.at)
  {
    match e
    case Request(at, sector, writing) => RequestKeeps(d, at, sector, writing);
    case Done(_) =>
  }

  function After(d: Drive, now: nat, es: seq<Event>): (r: (Drive, nat))
    requires Inv(d, now) && Legal(d, now, es)
    decreases |es|
  {
    if es == [] then (d, now) else After(Next(d, es[0]), es[0].at, es[1..])
  }

  function Initial(tracks: nat): Drive {
    Drive(tracks, 0, 0, false, 0)
  }

  /** In every run the buffer starts at a sector boundary that is past whenever the disk is ready for a request, so the
      tests and latencies above apply to it. */
  lemma {:induction false} BufferStartsAtBoundary(d: Drive, now: nat, es: seq<Event>)
    requires Inv(d, now) && Legal(d, now, es)
    ensures var (d', now') := After(d, now, es);
      d'.bufferInit % ROTATION_TIME == 0 && (!d'.active ==> d'.bufferInit <= now') && now <= now'
    decreases |es|
  {
    if es != [] {
      EventKeeps(d, now, es[0]);
      hide Next;
      BufferStartsAtBoundary(Next(d, es[0]), es[0].at, es[1..]);
    }
  }

  /** The sector last asked for in a run, and whether its request is still to be done. */
  function LastAsked(first: (nat, bool), es: seq<Event>): (nat, bool)
    decreases |es|
  {
    if es == [] then first else
      LastAsked(match es[0] case Request(_, sector, _) => (sector, true) case Done(_) => (first.0, false), es[1..])
  }

  /** In every run the head is at the sector last asked for, and the disk is active exactly until that request is done. */
  lemma {:induction false} HeadWhereAsked(d: Drive, now: nat, es: seq<Event>)
    requires Inv(d, now) && Legal(d, now, es)
    ensures var d' := After(d, now, es).0; (d'.lastSector, d'.active) == LastAsked((d.lastSector, d.active), es)
    decreases |es|
  {
    if es != [] {
      EventKeeps(d, now, es[0]);
      hide Inv, Latency, TimeAfter;
      HeadWhereAsked(Next(d, es[0]), es[0].at, es[1..]);
    }
  }

  // ---------------------------------------------------------------- the disk's own form

  type Sector = s: seq<Byte> | |s| == SECTOR_SIZE witness seq(SECTOR_SIZE, i => 0)

  /** The end of the last request plays no part in the latency of the next. */
  lemma LatencyOfHead(d: Drive, now: nat, newSector: nat, writing: bool)
    requires d.bufferInit <= now
    ensures Latency(d.(doneAt := 0), now, newSector, writing) == Latency(d, now, newSector, writing)
  {
  }

  class Disk {
    const interrupt: I.Interrupt
    const tracks: nat
    const sectors: array<Sector>
    var lastSector: nat
    var bufferInit: nat
    var active: bool
    ghost var doneAt: nat

    ghost predicate Valid()
      reads this, interrupt, interrupt.pending, interrupt.pending.Repr
    {
      interrupt.Valid() && sectors.Length == SECTORS_PER_TRACK * tracks && Inv(View(), interrupt.totalTicks)
    }

    ghost function View(): Drive
      reads this
    {
      Drive(tracks, lastSector, bufferInit, active, doneAt)
    }

    /** The sectors are those found on the host's file. */
    constructor (interrupt: I.Interrupt, tracks: nat, sectors: array<Sector>)
      requires interrupt.Valid() && tracks > 0 && sectors.Length == SECTORS_PER_TRACK * tracks
      ensures Valid() && View() == Initial(tracks) && this.interrupt == interrupt && this.sectors == sectors
    {
      this.interrupt, this.tracks, this.sectors := interrupt, tracks, sectors;
      lastSector, bufferInit, active, doneAt := 0, 0, false, 0;
    }

    method UpdateLast(newSector: nat)
      modifies this
      ensures lastSector == newSector && active == old(active) && doneAt == old(doneAt)
      ensures var d, now := old(View()), interrupt.totalTicks;
        bufferInit == if TimeToSeek(d, now, newSector).0 != 0 then TimeAfter(d, now, newSector) else d.bufferInit
    {
      var (seek, rotate) := TimeToSeek(Drive(tracks, lastSector, bufferInit, active, 0), interrupt.totalTicks, newSector);
      if seek != 0 {
        bufferInit := interrupt.totalTicks + seek + rotate;
      }
      lastSector := newSector;
    }

    method ReadRequest(sectorNumber: nat, data: array<Byte>)
      requires Valid() && !active && sectorNumber < sectors.Length && data.Length >= SECTOR_SIZE
      modifies this, interrupt, interrupt.pending, interrupt.pending.Repr, data
      ensures Valid() && fresh(interrupt.pending.Repr - old(interrupt.pending.Repr))
      ensures data[..SECTOR_SIZE] == sectors[sectorNumber] && data[SECTOR_SIZE..] == old(data[SECTOR_SIZE..])
      ensures View() == Requested(old(View()), old(interrupt.totalTicks), sectorNumber, false)
      ensures interrupt.View() == I.Scheduled(old(interrupt.View()),
        I.Request(Latency(old(View()), old(interrupt.totalTicks), sectorNumber, false), I.DiskInt))
      ensures Takes(old(View()), old(interrupt.totalTicks), sectorNumber, false,
        Latency(old(View()), old(interrupt.totalTicks), sectorNumber, false))
    {
      hide Latency, TimeToSeek, TimeAfter, Requested, Takes, I.Scheduled;
      LatencyRight(View(), interrupt.totalTicks, sectorNumber, false,
        Latency(View(), interrupt.totalTicks, sectorNumber, false));
      forall i | 0 <= i < SECTOR_SIZE {
        data[i] := sectors[sectorNumber][i];
      }
      Begin(sectorNumber, false);
    }

    method WriteRequest(sectorNumber: nat, data: array<Byte>)
      requires Valid() && !active && sectorNumber < sectors.Length && data.Length >= SECTOR_SIZE
      modifies this, interrupt, interrupt.pending, interrupt.pending.Repr, sectors
      ensures Valid() && fresh(interrupt.pending.Repr - old(interrupt.pending.Repr))
      ensures sectors[..] == old(sectors[..])[sectorNumber := old(data[..SECTOR_SIZE])]
      ensures View() == Requested(old(View()), old(interrupt.totalTicks), sectorNumber, true)
      ensures interrupt.View() == I.Scheduled(old(interrupt.View()),
        I.Request(Latency(old(View()), old(interrupt.totalTicks), sectorNumber, true), I.DiskInt))
      ensures Takes(old(View()), old(interrupt.totalTicks), sectorNumber, true,
        Latency(old(View()), old(interrupt.totalTicks), sectorNumber, true))
    {
      hide Latency, TimeToSeek, TimeAfter, Requested, Takes, I.Scheduled;
      LatencyRight(View(), interrupt.totalTicks, sectorNumber, true,
        Latency(View(), interrupt.totalTicks, sectorNumber, true));
      sectors[sectorNumber] := data[..SECTOR_SIZE];
      Begin(sectorNumber, true);
    }

    /** What both requests do: the disk becomes active and will interrupt when the request is done. */
    method Begin(sectorNumber: nat, writing: bool)
      requires Valid() && !active && sectorNumber < sectors.Length
      modifies this, interrupt, interrupt.pending, interrupt.pending.Repr
      ensures Valid() && fresh(interrupt.pending.Repr - old(interrupt.pending.Repr))
      ensures View() == Requested(old(View()), old(interrupt.totalTicks), sectorNumber, writing)
      ensures interrupt.View() == I.Scheduled(old(interrupt.View()),
        I.Request(Latency(old(View()), old(interrupt.totalTicks), sectorNumber, writing), I.DiskInt))
    {
      LatencyOfHead(View(), interrupt.totalTicks, sectorNumber, writing);
      RequestKeeps(View(), interrupt.totalTicks, sectorNumber, writing);
      hide Latency, TimeToSeek, TimeAfter;
      var ticks := Latency(Drive(tracks, lastSector, bufferInit, active, 0), interrupt.totalTicks, sectorNumber, writing);
      active := true;
      doneAt := interrupt.totalTicks + ticks;
      UpdateLast(sectorNumber);
      interrupt.Schedule(ticks, I.DiskInt);
    }

    /** The disk interrupt, which never comes early. */
    method CallBack()
      requires Valid() && active && doneAt <= interrupt.totalTicks
      modifies this
      ensures Valid() && View() == old(View()).(active := false)
    {
      active := false;
    }
  }
}
