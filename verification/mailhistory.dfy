/**
 What the runs of the post office (network/post.cc) send, lose and hand to readers, told from their actions alone.
 */
module MailHistory {
  import opened Common
  import opened Packets
  import opened Memory
  import opened PostOffice

  /** A message, and whether its packet got to the socket of the machine it is for. */
  datatype Posted = Posted(m: Message, arrives: bool)

  /** A packet arrives if the link does not lose it and its destination exists and runs. */
  predicate GetsThrough(net: Net, a: Action)
    requires a.Transmit?
  {
    !a.lost && a.m.pkt.to < |net| && !net[a.m.pkt.to].failed
  }

  function PostedBy(net: Net, e: Event, h: HostId): seq<Posted> {
    if e.host == h && e.action.Transmit? then [Posted(e.action.m, GetsThrough(net, e.action))] else []
  }

  function Mailed(net: Net, es: seq<Event>, h: HostId): seq<Posted>
    requires Legal(net, es)
    decreases |es|
  {
    if es == [] then [] else PostedBy(net, es[0], h) + Mailed(Next(net, es[0].host, es[0].action), es[1..], h)
  }

  /** The letter that an action takes out of a mailbox for a reader: the first. */
  function FetchedBy(net: Net, e: Event, h: HostId, box: nat): seq<Letter> {
    if e == Event(h, Get(box)) && h < |net| && box < |net[h].boxes| && net[h].boxes[box] != [] then [net[h].boxes[box][0]] else []
  }

  function Fetched(net: Net, es: seq<Event>, h: HostId, box: nat): seq<Letter>
    requires Legal(net, es)
    decreases |es|
  {
    if es == [] then [] else FetchedBy(net, es[0], h, box) + Fetched(Next(net, es[0].host, es[0].action), es[1..], h, box)
  }

  /** The history of machine `s` goes on with `posted`. */
  predicate Posts(s: Host, posted: seq<Posted>, s': Host) {
    && |s'.sent| == |s.sent| + |posted|
    && (forall i :: 0 <= i < |s.sent| ==> s'.sent[i] == s.sent[i] && (i in s'.dropped <==> i in s.dropped))
    && (forall i :: 0 <= i < |posted| ==> s'.sent[|s.sent| + i] == posted[i].m)
    && (forall i :: 0 <= i < |posted| ==> (|s.sent| + i in s'.dropped <==> !posted[i].arrives))
  }

  lemma PostsJoin(s: Host, p: seq<Posted>, s': Host, p': seq<Posted>, s'': Host)
    requires Posts(s, p, s') && Posts(s', p', s'')
    ensures Posts(s, p + p', s'')
  {
    forall i | 0 <= i < |p + p'|
      ensures s''.sent[|s.sent| + i] == (p + p')[i].m && (|s.sent| + i in s''.dropped <==> !(p + p')[i].arrives)
    {
      if i >= |p| {
        var j := i - |p|;
        assert |s'.sent| + j == |s.sent| + i;
      }
    }
  }

  lemma StepPosts(net: Net, e: Event, h: HostId)
    requires Enabled(net, e.host, e.action) && h < |net| && DropsSent(net[h])
    ensures Posts(net[h], PostedBy(net, e, h), Next(net, e.host, e.action)[h])
    ensures DropsSent(Next(net, e.host, e.action)[h])
  {
    hide Sendable, Unpacked, Received, HeaderAt, HasBox, IsWire;
  }

  lemma {:induction false} RunPosts(net: Net, es: seq<Event>, h: HostId)
    requires Legal(net, es) && h < |net| && DropsSent(net[h])
    ensures Posts(net[h], Mailed(net, es, h), After(net, es)[h])
    decreases |es|
  {
    if es == [] {
      assert Posts(net[h], [], net[h]);
    } else {
      var net' := Next(net, es[0].host, es[0].action);
      StepPosts(net, es[0], h);
      hide Next, Enabled, Posts, DropsSent, PostedBy;
      RunPosts(net', es[1..], h);
      PostsJoin(net[h], PostedBy(net, es[0], h), net'[h], Mailed(net', es[1..], h), After(net', es[1..])[h]);
    }
  }

  /** Over a run from the start, what a machine has sent is what its threads gave to the network, in order, and of that is
      dropped exactly what the link lost or nobody was there to take. */
  lemma SentIsMailed(net: Net, es: seq<Event>, h: HostId)
    requires Start(net) && Legal(net, es) && h < |net|
    ensures var mailed := Mailed(net, es, h);
      var s := After(net, es)[h];
      && |s.sent| == |mailed|
      && (forall i :: 0 <= i < |mailed| ==> s.sent[i] == mailed[i].m)
      && (forall i :: 0 <= i < |mailed| ==> (i in s.dropped <==> !mailed[i].arrives))
  {
    assert Fresh(net[h]);
    hide After, Legal, Mailed;
    RunPosts(net, es, h);
  }

  lemma StepFetches(net: Net, e: Event, h: HostId, box: nat)
    requires Enabled(net, e.host, e.action) && h < |net| && box < |net[h].got| == |net[h].boxes|
    ensures var s' := Next(net, e.host, e.action)[h];
      |s'.got| == |net[h].got| == |s'.boxes| && s'.got[box] == net[h].got[box] + FetchedBy(net, e, h, box)
  {
    hide Sendable, Unpacked, Received, HeaderAt, IsWire;
  }

  /** Over a run, a mailbox has given to its readers what was first in it at each of their turns. */
  lemma {:induction false} GotIsFetched(net: Net, es: seq<Event>, h: HostId, box: nat)
    requires Legal(net, es) && h < |net| && box < |net[h].got| == |net[h].boxes|
    ensures |After(net, es)[h].got| == |net[h].got|
    ensures After(net, es)[h].got[box] == net[h].got[box] + Fetched(net, es, h, box)
    decreases |es|
  {
    if es != [] {
      var net' := Next(net, es[0].host, es[0].action);
      StepFetches(net, es[0], h, box);
      hide Next, Enabled, FetchedBy;
      GotIsFetched(net', es[1..], h, box);
      Joined(net[h].got[box], FetchedBy(net, es[0], h, box), Fetched(net', es[1..], h, box));
    }
  }

  lemma Joined(a: seq<Letter>, b: seq<Letter>, c: seq<Letter>)
    ensures (a + b) + c == a + (b + c)
  {
  }

  /** Send from the lock's being taken to its release: one message more is sent, and the lock is free again. */
  lemma SendCompletes(net: Net, h: HostId, m: Message, wire: seq<Byte>, lost: bool)
    requires Inv(net) && Enabled(net, h, Acquire) && Sendable(h, m) && IsWire(m, wire)
    ensures Enabled(Next(net, h, Acquire), h, Transmit(m, wire, lost))
    ensures var net1 := Next(Next(net, h, Acquire), h, Transmit(m, wire, lost));
      && Enabled(net1, h, SendInterrupt) && !Enabled(net1, h, SentP)
      && var net2 := Next(net1, h, SendInterrupt);
      && Enabled(net2, h, SentP)
      && var net3 := Next(net2, h, SentP);
      && Enabled(net3, h, Release)
      && var net4 := Next(net3, h, Release);
      && Enabled(net4, h, Acquire) && net4[h].sent == net[h].sent + [m]
  {
    hide Sendable, IsWire, Letters, InOrder, BoxesRight, Genuine, FailureRight, NothingElseLost;
    assert HostInv(net, h);
  }
}
