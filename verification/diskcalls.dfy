/** One call of SynchDisk::ReadSector or WriteSector (filesys/synchdisk.cc) from its start to its return, not interrupted. */
module DiskCalls {
  import opened Common
  import T = Threads
  import M = Monitor
  import U = ExclusiveUse
  import opened SynchDisk

  /** Where the running thread is: in the code of Lock, in its call, with or without the lock, with `pending` disk interrupts
      to come and `units` in the completion semaphore. */
  predicate Mine(u: U.Client, pc: M.Pc, step: Option<U.Step>, owns: bool, pending: nat, units: nat) {
    var t := u.m.k.current;
    && u.m.k.Free() && u.m.Pc(t) == pc && u.StepOf(t) == step && u.pending == pending
    && u.m.owner == (if owns then Some(t) else None)
    && u.m.lock in u.m.k.sems && u.m.k.sems[u.m.lock].value == (if owns then 0 else 1)
    && u.done in u.m.k.sems && u.m.k.sems[u.done].value == units && !u.m.Reserved(u.done)
  }

  /** So it is whenever a thread comes to a call while the lock is free. */
  lemma ReadyToCall(u: U.Client)
    requires U.Inv(u) && u.m.k.Free() && u.m.Pc(u.m.k.current) == M.Outside && u.m.owner == None
    ensures Mine(u, M.Outside, None, false, 0, 0)
  {
    hide T.Inv;
    assert U.StepInv(u, u.m.k.current);
  }

  lemma Begins(u: U.Client)
    requires Mine(u, M.Outside, None, false, 0, 0)
    ensures U.Enabled(u, U.Enter) && var u1 := U.Next(u, U.Enter);
      && U.Enabled(u1, U.Lock(M.LockP)) && var u2 := U.Next(u1, U.Lock(M.LockP));
      && U.Enabled(u2, U.Lock(M.SetHolder)) && var u3 := U.Next(u2, U.Lock(M.SetHolder));
      && Mine(u3, M.Inside, Some(U.ToStart), true, 0, 0) && u3.m.k.current == u.m.k.current
  {
  }

  lemma Runs(u: U.Client)
    requires Mine(u, M.Inside, Some(U.ToStart), true, 0, 0)
    ensures U.Enabled(u, U.Start) && var u1 := U.Next(u, U.Start);
      && U.Enabled(u1, U.Interrupt) && var u2 := U.Next(u1, U.Interrupt);
      && U.Enabled(u2, U.AwaitDone) && U.Completes(u2, U.AwaitDone) && var u3 := U.Next(u2, U.AwaitDone);
      && Mine(u3, M.Inside, Some(U.ToRelease), true, 0, 0) && u3.m.k.current == u.m.k.current
  {
  }

  lemma Ends(u: U.Client)
    requires Mine(u, M.Inside, Some(U.ToRelease), true, 0, 0)
    ensures U.Enabled(u, U.Lock(M.EnterRelease)) && var u1 := U.Next(u, U.Lock(M.EnterRelease));
      && U.Enabled(u1, U.Lock(M.ReleaseV)) && var u2 := U.Next(u1, U.Lock(M.ReleaseV));
      && Mine(u2, M.Outside, None, false, 0, 0) && u2.m.k.current == u.m.k.current
  {
  }

  /** The call takes the lock and notes what is asked for. */
  lemma CallBegins(d: SynchDisk, request: Request)
    requires Mine(d.u, M.Outside, None, false, 0, 0) && request.sector < |d.sectors|
    ensures Enabled(d, Start(request)) && var d1 := Next(d, Start(request));
      && Enabled(d1, Lock(M.LockP)) && var d2 := Next(d1, Lock(M.LockP));
      && Enabled(d2, Lock(M.SetHolder)) && var d3 := Next(d2, Lock(M.SetHolder));
      && Mine(d3.u, M.Inside, Some(U.ToStart), true, 0, 0) && d3.u.m.k.current == d.u.m.k.current
      && d3 == d.(u := d3.u, requests := d.requests[d.u.m.k.current := request], buffers := d.buffers[d.u.m.k.current := []])
  {
    hide U.Next, U.Enabled, Mine;
    Begins(d.u);
  }

  /** The request, its interrupt and the P behind it: a read has the sector's data, a write has changed that sector to its
      data, and the disk is idle. */
  lemma CallRuns(d: SynchDisk)
    requires Mine(d.u, M.Inside, Some(U.ToStart), true, 0, 0)
    requires d.u.m.k.current in d.requests && d.requests[d.u.m.k.current].sector < |d.sectors| == |d.stored|
    ensures Enabled(d, RequestIo) && var d1 := Next(d, RequestIo);
      && d1.active
      && Enabled(d1, Interrupt) && var d2 := Next(d1, Interrupt);
      && Enabled(d2, AwaitDone) && var d3 := Next(d2, AwaitDone);
      && Mine(d3.u, M.Inside, Some(U.ToRelease), true, 0, 0) && d3.u.m.k.current == d.u.m.k.current && !d3.active
      && match d.requests[d.u.m.k.current]
         case Read(n) => d3.sectors == d.sectors && d3.buffers == d.buffers[d.u.m.k.current := d.sectors[n]]
         case Write(n, data) => d3.sectors == d.sectors[n := data] && d3.buffers == d.buffers
  {
    hide U.Next, U.Enabled, Mine;
    Runs(d.u);
  }

  /** The call gives the lock back and is over. */
  lemma CallEnds(d: SynchDisk)
    requires Mine(d.u, M.Inside, Some(U.ToRelease), true, 0, 0)
    ensures Enabled(d, Lock(M.EnterRelease)) && var d1 := Next(d, Lock(M.EnterRelease));
      && Enabled(d1, Lock(M.ReleaseV)) && var d2 := Next(d1, Lock(M.ReleaseV));
      && Mine(d2.u, M.Outside, None, false, 0, 0) && d2.u.m.k.current == d.u.m.k.current && d2 == d.(u := d2.u)
  {
    hide U.Next, U.Enabled, Mine;
    Ends(d.u);
  }
}
