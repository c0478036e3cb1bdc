/**
 The post office (network/post.cc) over the network device (machine/network.cc): any number of machines whose links may
 lose packets but not reorder them.

 An action runs with interrupts off or without a tick inside.  A P succeeds on a positive value and takes one, a lock has one
 owner, and a mailbox is a FIFO: that the threads of Send and PostalDelivery, with the locks and semaphores of modules Threads
 and Monitor, do nothing else is proved in module PostThreads, and what a mailbox's list does in SynchList.
 */
module PostOffice {
  import opened Common
  import opened Packets
  import opened Memory

  type HostId = nat

  /** A message under way: what its bytes spell, and which message of which machine it is. */
  datatype Letter = Letter(mail: Option<Message>, from: HostId, serial: nat)

  datatype Wire = Wire(bytes: seq<Byte>, from: HostId, serial: nat)

  datatype Buffered = Buffered(hdr: Header, data: seq<Byte>, from: HostId, serial: nat)

  /** The postal worker: before or in messageAvailable->P(); past it; or with a packet in hand. */
  datatype Worker = Waiting | Woken | Holding(packet: Buffered)

  /** Who has sendLock: nobody; a thread about to send; one in messageSent->P(); one about to release. */
  datatype Sender = Nobody | Ready | Sending | Sent

  /** `failed` says that an ASSERT has killed the machine. `sendInterrupts` counts the network-send interrupts still to come;
      `messageSent` and `messageAvailable` are the values of the semaphores. `sent`, `dropped`, `delivered` and `got` are
      history: the messages given to the network, those of them that the link lost or nobody was there to take, the letters
      put into mailboxes, and the letters taken from each mailbox. */
  datatype Host = Host(
    failed: bool,
    sender: Sender, sendInterrupts: nat, messageSent: nat, sent: seq<Message>, dropped: set<nat>,
    socket: seq<Wire>, inbox: Option<Buffered>, messageAvailable: nat, worker: Worker,
    delivered: seq<Letter>, boxes: seq<seq<Letter>>, got: seq<seq<Letter>>)

  type Net = seq<Host>

  datatype Action =
    | Acquire                                              // sendLock->Acquire()
    | Transmit(m: Message, wire: seq<Byte>, lost: bool)    // network->Send
    | SendInterrupt                                        // NetworkOutput::CallBack and messageSent->V()
    | SentP                                                // messageSent->P() succeeds
    | Release                                              // sendLock->Release()
    | Poll                                                 // NetworkInput::CallBack and messageAvailable->V()
    | WorkerP                                              // messageAvailable->P() succeeds
    | WorkerReceive                                        // network->Receive
    | WorkerPut                                            // boxes[mailHdr.to].Put
    | Get(box: nat)                                        // a reader's RemoveFront succeeds

  function Opened(w: Wire): Letter {
    Letter(if |w.bytes| == MAX_WIRE_SIZE then MailOnWire(w.bytes) else None, w.from, w.serial)
  }

  function Unpacked(b: Buffered): Letter {
    Letter(MailOf(b.hdr, b.data), b.from, b.serial)
  }

  /** What both Send functions demand.  That the destination has the mailbox is not part of it. */
  predicate Sendable(h: HostId, m: Message) {
    Proper(m) && m.pkt.from == h && m.mail.to < 0x8000_0000   // ASSERT(0 <= mailHdr.to)
  }

  predicate Enabled(net: Net, h: HostId, a: Action) {
    h < |net| && !net[h].failed &&
      var s := net[h];
      match a
      case Acquire => s.sender == Nobody
      case Transmit(m, wire, _) => s.sender == Ready && Sendable(h, m) && IsWire(m, wire)
      case SendInterrupt => s.sendInterrupts > 0
      case SentP => s.sender == Sending && s.messageSent > 0
      case Release => s.sender == Sent
      case Poll => true
      case WorkerP => s.worker == Waiting && s.messageAvailable > 0
      case WorkerReceive => s.worker == Woken
      case WorkerPut => s.worker.Holding?
      case Get(box) => box < |s.boxes| && s.boxes[box] != []
  }

  /** A letter for one of the machine's mailboxes. */
  predicate HasBox(s: Host, l: Letter) {
    l.mail.Some? && l.mail.value.mail.to < |s.boxes|
  }

  /** The ASSERTs of ReadFromSocket, NetworkInput::CallBack and PostalDelivery; Send's are in Sendable. */
  predicate Asserts(net: Net, h: HostId, a: Action)
    requires h < |net|
  {
    var s := net[h];
    match a
    case Poll => s.inbox == None && s.socket != [] ==>
      |s.socket[0].bytes| == MAX_WIRE_SIZE && Received(s.socket[0].bytes).Some? && HeaderAt(s.socket[0].bytes).to == h
    case WorkerPut => s.worker.Holding? ==> HasBox(s, Unpacked(s.worker.packet))
    case _ => true
  }

  /** The part of an action that concerns its own machine, when no ASSERT fails. */
  function Local(s: Host, a: Action): Host {
    match a
    case Acquire => s.(sender := Ready)
    case Transmit(m, wire, lost) => s.(sender := Sending, sendInterrupts := s.sendInterrupts + 1, sent := s.sent + [m])
    case SendInterrupt =>
      s.(sendInterrupts := if s.sendInterrupts > 0 then s.sendInterrupts - 1 else 0, messageSent := s.messageSent + 1)
    case SentP => s.(sender := Sent, messageSent := if s.messageSent > 0 then s.messageSent - 1 else 0)
    case Release => s.(sender := Nobody)
    case Poll =>
      if s.inbox.Some? || s.socket == [] then s else
        var w := s.socket[0];
        var packet := if |w.bytes| == MAX_WIRE_SIZE then Received(w.bytes) else None;
        if packet == None then s else
          s.(socket := s.socket[1..], inbox := Some(Buffered(packet.value.0, packet.value.1, w.from, w.serial)),
             messageAvailable := s.messageAvailable + 1)
    case WorkerP => s.(worker := Woken, messageAvailable := if s.messageAvailable > 0 then s.messageAvailable - 1 else 0)
    case WorkerReceive => if s.inbox == None then s else s.(worker := Holding(s.inbox.value), inbox := None)
    case WorkerPut =>
      if !s.worker.Holding? then s else
        var letter := Unpacked(s.worker.packet);
        if !HasBox(s, letter) then s else
          var box := letter.mail.value.mail.to;
          s.(worker := Waiting, delivered := s.delivered + [letter], boxes := s.boxes[box := s.boxes[box] + [letter]])
    case Get(box) =>
      if box >= |s.boxes| || box >= |s.got| || s.boxes[box] == [] then s else
        s.(boxes := s.boxes[box := s.boxes[box][1..]], got := s.got[box := s.got[box] + [s.boxes[box][0]]])
  }

  /** A packet that the link does not lose goes to the end of its destination's socket, unless there is no such machine or
      it has failed: SendToSocket gives up after ten tries.  An ASSERT that does not hold kills its machine. */
  function Next(net: Net, h: HostId, a: Action): (net': Net)
    requires h < |net|
    ensures |net'| == |net|
  {
    var net' := net[h := Local(net[h], a)];
    if !Asserts(net, h, a) then net[h := net[h].(failed := true)]
    else if a.Transmit? then
      var serial := |net[h].sent|;
      if a.lost || a.m.pkt.to >= |net| || net[a.m.pkt.to].failed then net'[h := net'[h].(dropped := net'[h].dropped + {serial})]
      else net'[a.m.pkt.to := net'[a.m.pkt.to].(socket := net'[a.m.pkt.to].socket + [Wire(a.wire, h, serial)])]
    else net'
  }

  // ---------------------------------------------------------------- invariant

  function SocketLetters(socket: seq<Wire>): (r: seq<Letter>)
    ensures |r| == |socket| && forall i :: 0 <= i < |r| ==> r[i] == Opened(socket[i])
  {
    seq(|socket|, i requires 0 <= i < |socket| => Opened(socket[i]))
  }

  function InboxLetters(inbox: Option<Buffered>): seq<Letter> {
    match inbox case None => [] case Some(b) => [Unpacked(b)]
  }

  function WorkerLetters(worker: Worker): seq<Letter> {
    if worker.Holding? then [Unpacked(worker.packet)] else []
  }

  /** All letters that ever reached the machine's socket, in the order in which they will be delivered. */
  function Letters(s: Host): seq<Letter> {
    s.delivered + (WorkerLetters(s.worker) + (InboxLetters(s.inbox) + SocketLetters(s.socket)))
  }

  /** The letter is the message with its serial number, which nobody dropped, for this machine, intact. */
  predicate Genuine(net: Net, h: HostId, l: Letter)
    requires h < |net|
  {
    && l.from < |net| && l.serial < |net[l.from].sent|
    && l.mail == Some(net[l.from].sent[l.serial])
    && l.mail.value.pkt.to == h && l.serial !in net[l.from].dropped
  }

  /** From each machine the letters come in the order of sending, none twice. */
  predicate InOrder(letters: seq<Letter>) {
    forall i, j :: 0 <= i < j < |letters| && letters[i].from == letters[j].from ==> letters[i].serial < letters[j].serial
  }

  function ForBox(letters: seq<Letter>, box: nat): seq<Letter> {
    if letters == [] then [] else
      var last := letters[|letters| - 1];
      ForBox(letters[..|letters| - 1], box) + if last.mail.Some? && last.mail.value.mail.to == box then [last] else []
  }

  /** A packet is buffered exactly if the worker has been told and has not fetched it yet. */
  predicate PacketAnnounced(s: Host) {
    s.messageAvailable + (if s.worker == Woken then 1 else 0) == if s.inbox.Some? then 1 else 0
  }

  /** One packet is under way exactly while a thread with sendLock waits for it. */
  predicate OneSend(s: Host) {
    s.sendInterrupts + s.messageSent == if s.sender == Sending then 1 else 0
  }

  predicate BoxesRight(s: Host) {
    |s.got| == |s.boxes| && forall b :: 0 <= b < |s.boxes| ==> s.got[b] + s.boxes[b] == ForBox(s.delivered, b)
  }

  /** Whatever is in a mailbox was for it; a failed machine died of a letter for a mailbox that it lacks. */
  predicate FailureRight(s: Host) {
    && (forall i :: 0 <= i < |s.delivered| ==> HasBox(s, s.delivered[i]))
    && (s.failed ==> s.worker.Holding? && !HasBox(s, Unpacked(s.worker.packet)))
  }

  predicate WiresWhole(s: Host) {
    forall i :: 0 <= i < |s.socket| ==> |s.socket[i].bytes| == MAX_WIRE_SIZE
  }

  ghost predicate HostInv(net: Net, h: HostId)
    requires h < |net|
  {
    && (forall i :: 0 <= i < |Letters(net[h])| ==> Genuine(net, h, Letters(net[h])[i]))
    && InOrder(Letters(net[h])) && WiresWhole(net[h])
    && PacketAnnounced(net[h]) && OneSend(net[h]) && BoxesRight(net[h]) && FailureRight(net[h]) && DropsSent(net[h])
  }

  predicate Arrives(letters: seq<Letter>, from: HostId, serial: nat) {
    exists i :: 0 <= i < |letters| && letters[i].from == from && letters[i].serial == serial
  }

  predicate DropsSent(s: Host) {
    forall serial :: serial in s.dropped ==> serial < |s.sent|
  }

  /** What the link does not lose is on its way. */
  ghost predicate NothingElseLost(net: Net, h: HostId)
    requires h < |net|
  {
    forall serial :: 0 <= serial < |net[h].sent| && serial !in net[h].dropped ==>
      net[h].sent[serial].pkt.to < |net| && Arrives(Letters(net[net[h].sent[serial].pkt.to]), h, serial)
  }

  ghost predicate Inv(net: Net) {
    forall h :: 0 <= h < |net| ==> HostInv(net, h) && NothingElseLost(net, h)
  }

  lemma GenuineOpens(net: Net, h: HostId, w: Wire)
    requires h < |net| && Genuine(net, h, Opened(w))
    ensures |w.bytes| == MAX_WIRE_SIZE && Received(w.bytes).Some? && HeaderAt(w.bytes).to == h
    ensures var p := Received(w.bytes).value; Unpacked(Buffered(p.0, p.1, w.from, w.serial)) == Opened(w)
  {
  }

  lemma SocketFront(net: Net, h: HostId)
    requires h < |net| && HostInv(net, h) && net[h].socket != []
    ensures Genuine(net, h, Opened(net[h].socket[0]))
  {
    hide Genuine, InOrder, BoxesRight, Opened;
    var s := net[h];
    var i := |s.delivered| + |WorkerLetters(s.worker)| + |InboxLetters(s.inbox)|;
    assert Letters(s)[i] == Opened(s.socket[0]);
  }

  lemma InHand(net: Net, h: HostId)
    requires h < |net| && HostInv(net, h) && net[h].worker.Holding?
    ensures Genuine(net, h, Unpacked(net[h].worker.packet))
  {
    hide Genuine, InOrder, BoxesRight, Unpacked;
    var s := net[h];
    assert Letters(s)[|s.delivered|] == Unpacked(s.worker.packet);
  }

  /** The worker's next ASSERT fails: it holds a letter for a mailbox that does not exist. */
  predicate Misaddressed(s: Host) {
    s.worker.Holding? && var mail := Unpacked(s.worker.packet).mail; mail.Some? && mail.value.mail.to >= |s.boxes|
  }

  /** Exactly one ASSERT can fail, for exactly one reason. */
  lemma AssertsFailExactly(net: Net, h: HostId, a: Action)
    requires Inv(net) && Enabled(net, h, a)
    ensures Asserts(net, h, a) <==> !(a == WorkerPut && Misaddressed(net[h]))
    ensures a == WorkerReceive ==> net[h].inbox.Some?
  {
    hide Letters, InOrder, BoxesRight, FailureRight, NothingElseLost, Unpacked;
    assert HostInv(net, h);
    var s := net[h];
    if a == Poll && s.socket != [] {
      SocketFront(net, h);
      GenuineOpens(net, h, s.socket[0]);
    } else if a == WorkerPut {
      InHand(net, h);
    }
  }

  // ---------------------------------------------------------------- actions that keep to their machine

  lemma PollMovesLetter(s: Host)
    requires s.inbox == None && s.socket != [] && |s.socket[0].bytes| == MAX_WIRE_SIZE && Received(s.socket[0].bytes).Some?
    requires var p := Received(s.socket[0].bytes).value;
      Unpacked(Buffered(p.0, p.1, s.socket[0].from, s.socket[0].serial)) == Opened(s.socket[0])
    ensures Letters(Local(s, Poll)) == Letters(s)
  {
    hide Opened, Unpacked;
    var s' := Local(s, Poll);
    assert SocketLetters(s.socket) == [Opened(s.socket[0])] + SocketLetters(s'.socket);
    assert InboxLetters(s'.inbox) == [Opened(s.socket[0])];
    assert InboxLetters(s.inbox) + SocketLetters(s.socket) == InboxLetters(s'.inbox) + SocketLetters(s'.socket);
  }

  lemma ReceiveMovesLetter(s: Host)
    requires s.worker == Woken && s.inbox.Some?
    ensures Letters(Local(s, WorkerReceive)) == Letters(s)
  {
    hide Unpacked;
    var s' := Local(s, WorkerReceive);
    assert WorkerLetters(s'.worker) == InboxLetters(s.inbox) && WorkerLetters(s.worker) == [] == InboxLetters(s'.inbox);
    assert InboxLetters(s.inbox) + SocketLetters(s.socket) == WorkerLetters(s'.worker) + (InboxLetters(s'.inbox) + SocketLetters(s'.socket));
  }

  lemma PutMovesLetter(s: Host)
    requires s.worker.Holding?
    requires HasBox(s, Unpacked(s.worker.packet))
    ensures Letters(Local(s, WorkerPut)) == Letters(s)
  {
    hide Unpacked;
    var s' := Local(s, WorkerPut);
    var rest := InboxLetters(s.inbox) + SocketLetters(s.socket);
    assert s'.delivered + ([] + rest) == s.delivered + ([Unpacked(s.worker.packet)] + rest);
  }

  lemma PutKeepsBoxes(s: Host)
    requires BoxesRight(s) && s.worker.Holding?
    requires HasBox(s, Unpacked(s.worker.packet))
    ensures BoxesRight(Local(s, WorkerPut))
  {
    hide Unpacked;
    var s' := Local(s, WorkerPut);
    assert s'.delivered[..|s'.delivered| - 1] == s.delivered;
    forall b | 0 <= b < |s'.boxes| ensures s'.got[b] + s'.boxes[b] == ForBox(s'.delivered, b) {
      assert s.got[b] + s.boxes[b] == ForBox(s.delivered, b);
    }
  }

  lemma GetKeepsBoxes(s: Host, box: nat)
    requires BoxesRight(s) && box < |s.boxes| && s.boxes[box] != []
    ensures BoxesRight(Local(s, Get(box)))
  {
    hide ForBox;
    var s' := Local(s, Get(box));
    forall b | 0 <= b < |s'.boxes| ensures s'.got[b] + s'.boxes[b] == ForBox(s'.delivered, b) {
      assert s.got[b] + s.boxes[b] == ForBox(s.delivered, b);
    }
  }

  /** A machine that changes without its letters, and without having sent more. */
  predicate SameMail(s: Host, s': Host) {
    Letters(s') == Letters(s) && s'.sent == s.sent && s'.dropped == s.dropped && |s'.boxes| == |s.boxes|
  }

  ghost predicate PartsKept(s: Host, s': Host) {
    SameMail(s, s') && WiresWhole(s') && PacketAnnounced(s') && OneSend(s') && BoxesRight(s') && FailureRight(s')
  }

  lemma LocalKept(net: Net, h: HostId, s': Host)
    requires Inv(net) && h < |net|
    requires PartsKept(net[h], s')
    ensures Inv(net[h := s'])
  {
    hide Letters, InOrder, WiresWhole, PacketAnnounced, OneSend, BoxesRight, FailureRight, Arrives;
    var net' := net[h := s'];
    forall g | 0 <= g < |net'| ensures HostInv(net', g) && NothingElseLost(net', g) {
      assert HostInv(net, g) && NothingElseLost(net, g);
      assert Letters(net'[g]) == Letters(net[g]);
      forall i | 0 <= i < |Letters(net'[g])| ensures Genuine(net', g, Letters(net'[g])[i]) {
        assert Genuine(net, g, Letters(net[g])[i]);
      }
      forall serial | 0 <= serial < |net'[g].sent| && serial !in net'[g].dropped
        ensures net'[g].sent[serial].pkt.to < |net'| && Arrives(Letters(net'[net'[g].sent[serial].pkt.to]), g, serial)
      {
      }
    }
  }

  lemma LocalActionKeeps(net: Net, h: HostId, a: Action)
    requires Inv(net) && Enabled(net, h, a) && !a.Transmit?
    ensures Inv(Next(net, h, a))
  {
    AssertsFailExactly(net, h, a);
    assert HostInv(net, h);
    var s := net[h];
    hide Inv, HostInv, Genuine, InOrder, Opened, Unpacked;
    if Asserts(net, h, a) {
      LocalPartsKept(net, h, a);
      LocalKept(net, h, Local(s, a));
    } else {
      FailureKeeps(net, h);
      LocalKept(net, h, s.(failed := true));
    }
  }

  lemma FailureKeeps(net: Net, h: HostId)
    requires h < |net| && HostInv(net, h) && Misaddressed(net[h])
    ensures PartsKept(net[h], net[h].(failed := true))
  {
    hide Unpacked, Genuine, InOrder;
  }

  lemma PollKeeps(net: Net, h: HostId)
    requires h < |net| && HostInv(net, h)
    ensures PartsKept(net[h], Local(net[h], Poll))
  {
    hide InOrder, Letters, Genuine, Opened, Unpacked;
    var s := net[h];
    if s.inbox == None && s.socket != [] {
      SocketFront(net, h);
      GenuineOpens(net, h, s.socket[0]);
      PollMovesLetter(s);
    }
  }

  lemma DeliveryKeeps(net: Net, h: HostId, a: Action)
    requires h < |net| && HostInv(net, h) && Enabled(net, h, a) && Asserts(net, h, a) && (a == WorkerReceive || a == WorkerPut)
    requires a == WorkerReceive ==> net[h].inbox.Some?
    ensures PartsKept(net[h], Local(net[h], a))
  {
    hide InOrder, Letters, Genuine, Unpacked;
    var s := net[h];
    if a == WorkerReceive {
      ReceiveMovesLetter(s);
    } else {
      PutMovesLetter(s);
      PutKeepsBoxes(s);
    }
  }

  lemma LocalPartsKept(net: Net, h: HostId, a: Action)
    requires h < |net| && HostInv(net, h) && Enabled(net, h, a) && Asserts(net, h, a) && !a.Transmit?
    requires a == WorkerReceive ==> net[h].inbox.Some?
    ensures PartsKept(net[h], Local(net[h], a))
  {
    var s := net[h];
    hide InOrder, Genuine;
    if a == Poll {
      PollKeeps(net, h);
    } else if a == WorkerReceive || a == WorkerPut {
      DeliveryKeeps(net, h, a);
    } else if a.Get? {
      GetKeepsBoxes(s, a.box);
    }
  }

  // ---------------------------------------------------------------- sending

  lemma GenuineAfterSend(net: Net, h: HostId, m: Message, net': Net, g: HostId, l: Letter)
    requires h < |net| == |net'| && g < |net| && Genuine(net, g, l) && MoreSent(net, net', h, m)
    ensures Genuine(net', g, l)
  {
  }

  /** Machine `h` has sent one more message and dropped no other. */
  predicate MoreSent(net: Net, net': Net, h: HostId, m: Message)
    requires h < |net|
  {
    && |net'| == |net|
    && (forall g :: 0 <= g < |net| ==> net'[g].sent == if g == h then net[g].sent + [m] else net[g].sent)
    && (forall g, serial :: 0 <= g < |net| && serial in net'[g].dropped ==> serial in net[g].dropped || serial == |net[g].sent|)
  }

  lemma ArrivesStill(letters: seq<Letter>, l: Letter, from: HostId, serial: nat)
    ensures Arrives(letters, from, serial) ==> Arrives(letters + [l], from, serial)
    ensures Arrives(letters + [l], l.from, l.serial)
  {
    assert (letters + [l])[|letters|] == l;
    if Arrives(letters, from, serial) {
      var i :| 0 <= i < |letters| && letters[i].from == from && letters[i].serial == serial;
      assert (letters + [l])[i] == letters[i];
    }
  }

  lemma SocketAppends(s: Host, w: Wire)
    ensures Letters(s.(socket := s.socket + [w])) == Letters(s) + [Opened(w)]
  {
    hide Opened, Unpacked;
    assert SocketLetters(s.socket + [w]) == SocketLetters(s.socket) + [Opened(w)];
    var a, b, c, d := s.delivered, WorkerLetters(s.worker), InboxLetters(s.inbox), SocketLetters(s.socket);
    assert a + (b + (c + (d + [Opened(w)]))) == (a + (b + (c + d))) + [Opened(w)];
  }

  /** The letters of each machine after a transmission. */
  lemma LettersAfterSend(net: Net, h: HostId, a: Action, g: HostId)
    requires h < |net| && a.Transmit? && g < |net|
    ensures Letters(Next(net, h, a)[g]) ==
      if !a.lost && g == a.m.pkt.to && !net[g].failed then Letters(net[g]) + [Opened(Wire(a.wire, h, |net[h].sent|))] else Letters(net[g])
    ensures MoreSent(net, Next(net, h, a), h, a.m)
  {
    SocketAppends(net[g], Wire(a.wire, h, |net[h].sent|));
    SocketAppends(Local(net[h], a), Wire(a.wire, h, |net[h].sent|));
    hide Opened, Unpacked, SocketLetters;
  }

  /** The new letter is genuine, and later than all before it from its machine. */
  lemma LettersGrow(net: Net, net': Net, h: HostId, m: Message, g: HostId, was: seq<Letter>, now: seq<Letter>)
    requires h < |net| && g < |net| && MoreSent(net, net', h, m)
    requires InOrder(was) && forall i :: 0 <= i < |was| ==> Genuine(net, g, was[i])
    requires now == was ||
      (now == was + [Letter(Some(m), h, |net[h].sent|)] && m.pkt.to == g && |net[h].sent| !in net'[h].dropped)
    ensures InOrder(now) && forall i :: 0 <= i < |now| ==> Genuine(net', g, now[i])
  {
    forall i | 0 <= i < |now| ensures Genuine(net', g, now[i]) {
      if i < |was| {
        assert Genuine(net, g, was[i]);
        GenuineAfterSend(net, h, m, net', g, was[i]);
      }
    }
    forall i, j | 0 <= i < j < |now| && now[i].from == now[j].from ensures now[i].serial < now[j].serial {
      assert Genuine(net, g, was[i]);
    }
  }

  lemma SendLetters(net: Net, h: HostId, a: Action, g: HostId)
    requires Inv(net) && Enabled(net, h, a) && a.Transmit? && g < |net|
    ensures var now := Letters(Next(net, h, a)[g]);
      InOrder(now) && forall i :: 0 <= i < |now| ==> Genuine(Next(net, h, a), g, now[i])
  {
    assert HostInv(net, g);
    LettersAfterSend(net, h, a, g);
    MailRoundTrip(a.m, a.wire);
    assert Opened(Wire(a.wire, h, |net[h].sent|)) == Letter(Some(a.m), h, |net[h].sent|);
    assert DropsSent(net[h]) && DropsSent(net[g]) by { assert HostInv(net, h); }
    hide Inv, HostInv, Letters, Opened, InOrder, Genuine, MoreSent, IsWire, Proper;
    LettersGrow(net, Next(net, h, a), h, a.m, g, Letters(net[g]), Letters(Next(net, h, a)[g]));
  }

  /** What a transmission does to a machine, its letters aside. */
  lemma TransmitTouches(net: Net, h: HostId, a: Action, g: HostId)
    requires Enabled(net, h, a) && a.Transmit? && g < |net|
    ensures var s, s' := net[g], Next(net, h, a)[g];
      && s'.failed == s.failed && s'.inbox == s.inbox && s'.messageAvailable == s.messageAvailable && s'.worker == s.worker
      && s'.delivered == s.delivered && s'.boxes == s.boxes && s'.got == s.got && s'.messageSent == s.messageSent
      && s'.sender == (if g == h then Sending else s.sender)
      && s'.sendInterrupts == s.sendInterrupts + (if g == h then 1 else 0)
      && (DropsSent(s) ==> DropsSent(s')) && (WiresWhole(s) ==> WiresWhole(s'))
  {
    hide Sendable;
  }

  lemma SendHostInv(net: Net, h: HostId, a: Action, g: HostId)
    requires Inv(net) && Enabled(net, h, a) && a.Transmit? && g < |net|
    ensures HostInv(Next(net, h, a), g)
  {
    SendLetters(net, h, a, g);
    TransmitTouches(net, h, a, g);
    assert HostInv(net, g) && HostInv(net, h);
    hide Inv, Letters, InOrder, Genuine, ForBox, Unpacked, Next, WiresWhole, DropsSent, HasBox, Sendable;
  }

  lemma SendLosesOnlyDropped(net: Net, h: HostId, a: Action, g: HostId)
    requires Inv(net) && Enabled(net, h, a) && a.Transmit? && g < |net|
    ensures NothingElseLost(Next(net, h, a), g)
  {
    assert NothingElseLost(net, g);
    var net' := Next(net, h, a);
    var l := Opened(Wire(a.wire, h, |net[h].sent|));
    forall serial | 0 <= serial < |net'[g].sent| && serial !in net'[g].dropped
      ensures net'[g].sent[serial].pkt.to < |net'| && Arrives(Letters(net'[net'[g].sent[serial].pkt.to]), g, serial)
    {
      LettersAfterSend(net, h, a, g);
      var to := net'[g].sent[serial].pkt.to;
      assert g == h && serial == |net[h].sent| ==> to == a.m.pkt.to && !a.lost && to < |net| && !net[to].failed;
      hide Inv, Letters, Arrives, Opened;
      LettersAfterSend(net, h, a, to);
      ArrivesStill(Letters(net[to]), l, g, serial);
    }
  }

  lemma StepKeeps(net: Net, h: HostId, a: Action)
    requires Inv(net) && Enabled(net, h, a)
    ensures Inv(Next(net, h, a))
  {
    hide HostInv, NothingElseLost;
    if a.Transmit? {
      var net' := Next(net, h, a);
      forall g | 0 <= g < |net'| ensures HostInv(net', g) && NothingElseLost(net', g) {
        SendHostInv(net, h, a, g);
        SendLosesOnlyDropped(net, h, a, g);
      }
    } else {
      LocalActionKeeps(net, h, a);
    }
  }

  // ---------------------------------------------------------------- whole runs

  datatype Event = Event(host: HostId, action: Action)

  predicate Legal(net: Net, es: seq<Event>)
    decreases |es|
  {
    es == [] || (Enabled(net, es[0].host, es[0].action) && Legal(Next(net, es[0].host, es[0].action), es[1..]))
  }

  function After(net: Net, es: seq<Event>): (net': Net)
    requires Legal(net, es)
    ensures |net'| == |net|
    decreases |es|
  {
    if es == [] then net else After(Next(net, es[0].host, es[0].action), es[1..])
  }

  predicate Fresh(s: Host) {
    && !s.failed && s.sender == Nobody && s.sendInterrupts == 0 && s.messageSent == 0 && s.sent == [] && s.dropped == {}
    && s.socket == [] && s.inbox == None && s.messageAvailable == 0 && s.worker == Waiting && s.delivered == []
    && |s.got| == |s.boxes| && forall b :: 0 <= b < |s.boxes| ==> s.boxes[b] == [] && s.got[b] == []
  }

  predicate Start(net: Net) {
    forall h :: 0 <= h < |net| ==> Fresh(net[h])
  }

  lemma StartsRight(net: Net)
    requires Start(net)
    ensures Inv(net)
  {
    forall h | 0 <= h < |net| ensures HostInv(net, h) && NothingElseLost(net, h) {
      assert Fresh(net[h]);
      assert Letters(net[h]) == [];
    }
  }

  lemma {:induction false} RunKeeps(net: Net, es: seq<Event>)
    requires Inv(net) && Legal(net, es)
    ensures Inv(After(net, es))
    decreases |es|
  {
    hide Inv, Next;
    if es != [] {
      StepKeeps(net, es[0].host, es[0].action);
      RunKeeps(Next(net, es[0].host, es[0].action), es[1..]);
    }
  }

  /** In every run an ASSERT fails exactly when the postal worker comes to a letter for a mailbox that its machine lacks; the
      worker never finds the inbox empty. */
  lemma FailsExactlyMisaddressed(net: Net, es: seq<Event>, h: HostId, a: Action)
    requires Start(net) && Legal(net, es) && Enabled(After(net, es), h, a)
    ensures Asserts(After(net, es), h, a) <==> !(a == WorkerPut && Misaddressed(After(net, es)[h]))
    ensures a == WorkerReceive ==> After(net, es)[h].inbox.Some?
  {
    hide Inv, After, Asserts, Enabled, Misaddressed;
    StartsRight(net);
    RunKeeps(net, es);
    AssertsFailExactly(After(net, es), h, a);
  }

  /** At every moment a packet is buffered exactly if the postal worker has been told and has not fetched it, and a packet
      is being sent exactly while its sender waits with the lock. */
  lemma OnePacketEachWay(net: Net, es: seq<Event>, h: HostId)
    requires Start(net) && Legal(net, es) && h < |After(net, es)|
    ensures PacketAnnounced(After(net, es)[h]) && OneSend(After(net, es)[h])
  {
    hide After;
    StartsRight(net);
    RunKeeps(net, es);
    assert HostInv(After(net, es), h);
  }

  lemma ForBoxIs(letters: seq<Letter>, box: nat)
    ensures forall i :: 0 <= i < |ForBox(letters, box)| ==>
      ForBox(letters, box)[i].mail.Some? && ForBox(letters, box)[i].mail.value.mail.to == box && ForBox(letters, box)[i] in letters
    ensures InOrder(letters) ==> InOrder(ForBox(letters, box))
  {
    if letters != [] {
      var front := letters[..|letters| - 1];
      ForBoxIs(front, box);
      assert forall i :: 0 <= i < |front| ==> front[i] == letters[i];
      var r := ForBox(letters, box);
      if InOrder(letters) {
        forall i, j | 0 <= i < j < |r| && r[i].from == r[j].from ensures r[i].serial < r[j].serial {
          if j == |ForBox(front, box)| {
            var k :| 0 <= k < |front| && front[k] == r[i];
          }
        }
      }
    }
  }

  /** What readers take from a mailbox, together with what is still in it, is from each machine a subsequence, in order and
      without repetition, of what that machine sent to the mailbox, headers and data intact. */
  lemma MailArrivesInOrder(net: Net, es: seq<Event>, h: HostId, box: nat, i: nat)
    requires Start(net) && Legal(net, es) && h < |After(net, es)| && box < |After(net, es)[h].boxes|
    requires box < |After(net, es)[h].got|
    requires i < |After(net, es)[h].got[box] + After(net, es)[h].boxes[box]|
    ensures var s := After(net, es);
      var letters := s[h].got[box] + s[h].boxes[box];
      var l := letters[i];
      && l.from < |s| && l.serial < |s[l.from].sent| && l.mail == Some(s[l.from].sent[l.serial])
      && s[l.from].sent[l.serial].pkt.to == h && s[l.from].sent[l.serial].mail.to == box
      && (forall j :: i < j < |letters| && letters[j].from == l.from ==> l.serial < letters[j].serial)
  {
    hide After;
    StartsRight(net);
    RunKeeps(net, es);
    MailboxGenuine(After(net, es), h, box, i);
  }

  lemma MailboxGenuine(s: Net, h: HostId, box: nat, i: nat)
    requires h < |s| && HostInv(s, h) && box < |s[h].boxes| && i < |s[h].got[box] + s[h].boxes[box]|
    ensures var letters := s[h].got[box] + s[h].boxes[box];
      && Genuine(s, h, letters[i]) && letters[i].mail.value.mail.to == box
      && (forall j :: i < j < |letters| && letters[j].from == letters[i].from ==> letters[i].serial < letters[j].serial)
  {
    hide Genuine;
    var delivered := s[h].delivered;
    DeliveredFirst(s[h]);
    assert s[h].got[box] + s[h].boxes[box] == ForBox(delivered, box);
    ForBoxIs(delivered, box);
    var l := ForBox(delivered, box)[i];
    var k :| 0 <= k < |delivered| && delivered[k] == l;
    assert Genuine(s, h, Letters(s[h])[k]);
    hide ForBox, Letters;
    assert InOrder(ForBox(delivered, box));
  }

  lemma DeliveredFirst(s: Host)
    ensures |s.delivered| <= |Letters(s)| && forall k :: 0 <= k < |s.delivered| ==> Letters(s)[k] == s.delivered[k]
    ensures InOrder(Letters(s)) ==> InOrder(s.delivered)
  {
    hide SocketLetters, InboxLetters, WorkerLetters;
  }

  /** Only the link loses mail: a message has been dropped, or it is, at the machine it is for, delivered or on its way. */
  lemma OnlyTheLinkLoses(net: Net, es: seq<Event>, h: HostId, serial: nat)
    requires Start(net) && Legal(net, es) && h < |After(net, es)| && serial < |After(net, es)[h].sent|
    ensures var s := After(net, es);
      var to := s[h].sent[serial].pkt.to;
      serial !in s[h].dropped <==> to < |s| && Arrives(Letters(s[to]), h, serial)
  {
    StartsRight(net);
    RunKeeps(net, es);
    var s := After(net, es);
    var to := s[h].sent[serial].pkt.to;
    hide After, Letters;
    assert HostInv(s, h) && NothingElseLost(s, h);
    if to < |s| && Arrives(Letters(s[to]), h, serial) {
      var i :| 0 <= i < |Letters(s[to])| && Letters(s[to])[i].from == h && Letters(s[to])[i].serial == serial;
      assert HostInv(s, to);
      assert Genuine(s, to, Letters(s[to])[i]);
    }
  }

  // ---------------------------------------------------------------- mailboxes that do not exist

  /** Message `serial` of machine `g` was not dropped on its way to `h`, which lacks the mailbox. */
  predicate Missent(net: Net, g: HostId, serial: nat, h: HostId) {
    && g < |net| && h < |net| && serial < |net[g].sent| && serial !in net[g].dropped
    && net[g].sent[serial].pkt.to == h && net[g].sent[serial].mail.to >= |net[h].boxes|
  }

  /** Every message that was not dropped names a mailbox that exists. */
  ghost predicate Safe(net: Net) {
    forall g: HostId, serial: nat, h: HostId :: !Missent(net, g, serial, h)
  }

  /** Nothing is left to do for the postal worker: all is delivered, or an ASSERT has failed. */
  predicate Drained(s: Host) {
    s.failed || (s.socket == [] && s.inbox == None && s.worker == Waiting)
  }

  predicate WithoutSends(es: seq<Event>) {
    forall i :: 0 <= i < |es| ==> !es[i].action.Transmit?
  }

  lemma FailedMissent(net: Net, h: HostId)
    requires Inv(net) && h < |net| && net[h].failed
    ensures exists g: HostId, serial: nat :: Missent(net, g, serial, h)
  {
    hide Letters, InOrder, BoxesRight, NothingElseLost, Unpacked;
    assert HostInv(net, h);
    InHand(net, h);
    var l := Unpacked(net[h].worker.packet);
    assert Missent(net, l.from, l.serial, h);
  }

  lemma DrainedHasBoxes(net: Net, h: HostId)
    requires h < |net| && HostInv(net, h) && Drained(net[h])
    ensures net[h].failed || forall i :: 0 <= i < |Letters(net[h])| ==> HasBox(net[h], Letters(net[h])[i])
  {
    hide Genuine, InOrder, BoxesRight, HasBox;
    assert !net[h].failed ==> Letters(net[h]) == net[h].delivered;
  }

  lemma MissentFails(net: Net, g: HostId, serial: nat, h: HostId)
    requires Inv(net) && Missent(net, g, serial, h) && Drained(net[h])
    ensures net[h].failed
  {
    assert NothingElseLost(net, g) && HostInv(net, h);
    hide InOrder, BoxesRight;
    var letters := Letters(net[h]);
    var i :| 0 <= i < |letters| && letters[i].from == g && letters[i].serial == serial;
    DrainedHasBoxes(net, h);
    hide Letters;
    assert Genuine(net, h, letters[i]) && !HasBox(net[h], letters[i]);
  }

  /** In a run at whose end the postal workers have nothing left to do, machine `h` has failed exactly if some message for a
      mailbox that it lacks was not dropped. */
  lemma FailedIffMissent(net: Net, es: seq<Event>, h: HostId)
    requires Start(net) && Legal(net, es) && h < |net| && Drained(After(net, es)[h])
    ensures var s := After(net, es); s[h].failed <==> exists g: HostId, serial: nat :: Missent(s, g, serial, h)
  {
    hide After;
    StartsRight(net);
    RunKeeps(net, es);
    var s := After(net, es);
    if s[h].failed {
      FailedMissent(s, h);
    }
    forall g: HostId, serial: nat | Missent(s, g, serial, h) ensures s[h].failed {
      MissentFails(s, g, serial, h);
    }
  }

  /** What a postal worker has left to do. */
  function Left(s: Host): nat {
    if s.failed then 0 else
      4 * |s.socket| + (if s.inbox == None then 0 else if s.worker == Woken then 2 else 3) + if s.worker.Holding? then 1 else 0
  }

  /** The next thing to do for the delivery of mail. */
  function NextDelivery(s: Host): Action {
    if s.worker.Holding? then WorkerPut else if s.worker == Woken then WorkerReceive
    else if s.messageAvailable > 0 then WorkerP else Poll
  }

  lemma DeliveryGoesOn(net: Net, h: HostId)
    requires Inv(net) && h < |net| && !Drained(net[h])
    ensures var a := NextDelivery(net[h]); Enabled(net, h, a) && Left(Next(net, h, a)[h]) < Left(net[h])
  {
    assert HostInv(net, h);
    hide Letters, InOrder, BoxesRight, FailureRight, Genuine, Unpacked, MailOnWire;
    AssertsFailExactly(net, h, NextDelivery(net[h]));
  }

  lemma {:induction false} RunsJoin(net: Net, a: seq<Event>, b: seq<Event>)
    requires Legal(net, a) && Legal(After(net, a), b)
    ensures Legal(net, a + b) && After(net, a + b) == After(After(net, a), b)
    decreases |a|
  {
    hide Next;
    if a == [] {
      assert a + b == b;
    } else {
      RunsJoin(Next(net, a[0].host, a[0].action), a[1..], b);
      assert (a + b)[1..] == a[1..] + b;
    }
  }

  /** The postal worker of a machine, left to itself with the network interrupts, comes to an end; nobody else notices. */
  lemma {:induction false} Drain(net: Net, h: HostId) returns (es: seq<Event>)
    requires Inv(net) && h < |net|
    ensures Legal(net, es) && WithoutSends(es)
    ensures Drained(After(net, es)[h]) && After(net, es) == net[h := After(net, es)[h]]
    decreases Left(net[h])
  {
    if Drained(net[h]) {
      es := [];
    } else {
      var a := NextDelivery(net[h]);
      DeliveryGoesOn(net, h);
      StepKeeps(net, h, a);
      var net' := Next(net, h, a);
      assert net' == net[h := net'[h]];
      var rest := Drain(net', h);
      hide Next, Enabled, Inv, Drained, Left, NextDelivery;
      es := [Event(h, a)] + rest;
      assert es[1..] == rest;
    }
  }

  /** From wherever a run has got to, the machines below `k` can finish their deliveries without another message being sent. */
  lemma {:induction false} DrainAll(net: Net, k: nat) returns (es: seq<Event>)
    requires Inv(net) && k <= |net|
    ensures Legal(net, es) && WithoutSends(es)
    ensures forall h :: 0 <= h < k ==> Drained(After(net, es)[h])
    decreases k
  {
    if k == 0 {
      es := [];
    } else {
      var before := DrainAll(net, k - 1);
      RunKeeps(net, before);
      var last := Drain(After(net, before), k - 1);
      hide Legal, After, Inv, Drained;
      RunsJoin(net, before, last);
      es := before + last;
    }
  }

  /** Nothing more has been sent or dropped. */
  predicate SameSent(net: Net, net': Net) {
    |net'| == |net| && forall h :: 0 <= h < |net| ==>
      net'[h].sent == net[h].sent && net'[h].dropped == net[h].dropped && |net'[h].boxes| == |net[h].boxes|
  }

  lemma {:induction false} SentStays(net: Net, es: seq<Event>)
    requires Legal(net, es) && WithoutSends(es)
    ensures SameSent(net, After(net, es))
    decreases |es|
  {
    if es != [] {
      var net' := Next(net, es[0].host, es[0].action);
      StepSendsNothing(net, es[0].host, es[0].action);
      hide Next, Enabled, WithoutSends;
      assert SameSent(net, net');
      SentStays(net', es[1..]);
      assert After(net, es) == After(net', es[1..]);
      assert SameSent(net', After(net', es[1..]));
      assert SameSent(net, After(net', es[1..]));
    } else {
      assert SameSent(net, net);
    }
  }

  lemma StepSendsNothing(net: Net, h: HostId, a: Action)
    requires h < |net| && !a.Transmit?
    ensures SameSent(net, Next(net, h, a))
  {
    hide Asserts, Unpacked, Received;
  }

  /** Some continuation in which no message is sent makes an ASSERT fail, or one has failed already. */
  ghost predicate CanFail(net: Net) {
    exists more, h: HostId :: h < |net| && Legal(net, more) && WithoutSends(more) && After(net, more)[h].failed
  }

  /** The exact condition under which no ASSERT fails, now or in what is still to be delivered: every message that was not
      dropped names a mailbox that its destination has. */
  lemma SafeIffMailboxesExist(net: Net, es: seq<Event>)
    requires Start(net) && Legal(net, es)
    ensures Safe(After(net, es)) <==> !CanFail(After(net, es))
  {
    StartsRight(net);
    RunKeeps(net, es);
    SafeOrCanFail(After(net, es));
  }

  lemma MissentStays(net: Net, net': Net, g: HostId, serial: nat, h: HostId)
    requires SameSent(net, net')
    ensures Missent(net, g, serial, h) <==> Missent(net', g, serial, h)
    ensures Missent(net, g, serial, h) ==> h < |net|
  {
  }

  lemma SafeOrCanFail(s: Net)
    requires Inv(s)
    ensures Safe(s) <==> !CanFail(s)
  {
    hide After, Legal, Inv, WithoutSends, Missent, SameSent, Drained;
    forall more, h: HostId | h < |s| && Legal(s, more) && WithoutSends(more) && After(s, more)[h].failed ensures !Safe(s) {
      RunKeeps(s, more);
      FailedMissent(After(s, more), h);
      SentStays(s, more);
      var g: HostId, serial: nat :| Missent(After(s, more), g, serial, h);
      MissentStays(s, After(s, more), g, serial, h);
    }
    if !Safe(s) {
      var g: HostId, serial: nat, h: HostId :| Missent(s, g, serial, h);
      var more := DrainAll(s, |s|);
      RunKeeps(s, more);
      SentStays(s, more);
      MissentStays(s, After(s, more), g, serial, h);
      MissentFails(After(s, more), g, serial, h);
    }
  }

  /** A failed machine does nothing more, and nothing reaches it. */
  lemma {:induction false} FailedForGood(net: Net, es: seq<Event>, h: HostId)
    requires Legal(net, es) && h < |net| && net[h].failed
    ensures After(net, es)[h] == net[h]
    decreases |es|
  {
    if es != [] {
      FailedForGood(Next(net, es[0].host, es[0].action), es[1..], h);
    }
  }

  /** The letters before the first one for a mailbox that the machine lacks. */
  function Deliverable(s: Host, letters: seq<Letter>): seq<Letter> {
    if letters == [] || !HasBox(s, letters[0]) then [] else [letters[0]] + Deliverable(s, letters[1..])
  }

  lemma {:induction false} DeliverableIs(s: Host, good: seq<Letter>, rest: seq<Letter>)
    requires forall i :: 0 <= i < |good| ==> HasBox(s, good[i])
    requires rest == [] || !HasBox(s, rest[0])
    ensures Deliverable(s, good + rest) == good
  {
    hide HasBox;
    if good == [] {
      assert good + rest == rest;
    } else {
      assert (good + rest)[1..] == good[1..] + rest;
      DeliverableIs(s, good[1..], rest);
    }
  }

  /** When the postal worker has nothing left to do, what its mailboxes have received is, box by box and in order, what
      reached the machine before the first letter for a mailbox that it lacks. */
  lemma MailboxesGetAll(net: Net, es: seq<Event>, h: HostId, box: nat)
    requires Start(net) && Legal(net, es) && h < |net| && Drained(After(net, es)[h]) && box < |After(net, es)[h].boxes|
    ensures var s := After(net, es)[h];
      |s.got| == |s.boxes| && s.got[box] + s.boxes[box] == ForBox(Deliverable(s, Letters(s)), box)
  {
    hide After;
    StartsRight(net);
    RunKeeps(net, es);
    var s := After(net, es)[h];
    assert HostInv(After(net, es), h);
    hide Genuine, InOrder, ForBox, HasBox;
    DeliverableIs(s, s.delivered, WorkerLetters(s.worker) + (InboxLetters(s.inbox) + SocketLetters(s.socket)));
  }

  // ---------------------------------------------------------------- a run that fails

  function NewHost(): Host {
    Host(false, Nobody, 0, 0, [], {}, [], None, 0, Waiting, [], [[]], [[]])
  }

  function SendingRun(m: Message, wire: seq<Byte>): seq<Event> {
    [Event(0, Acquire), Event(0, Transmit(m, wire, false))]
  }

  function DeliveringRun(): seq<Event> {
    [Event(1, Poll), Event(1, WorkerP), Event(1, WorkerReceive), Event(1, WorkerPut)]
  }

  function SendingHost(m: Message): Host {
    NewHost().(sender := Sending, sendInterrupts := 1, sent := [m])
  }

  function AddressedHost(wire: seq<Byte>): Host {
    NewHost().(socket := [Wire(wire, 0, 0)])
  }

  /** Accepted by Send on machine 0, for a mailbox that machine 1 with its single mailbox lacks. */
  predicate NoSuchBox(m: Message, wire: seq<Byte>) {
    Sendable(0, m) && IsWire(m, wire) && m.pkt.to == 1 && m.mail.to >= 1
  }

  lemma SentToOne(m: Message, wire: seq<Byte>)
    requires NoSuchBox(m, wire)
    ensures Legal([NewHost(), NewHost()], SendingRun(m, wire))
    ensures After([NewHost(), NewHost()], SendingRun(m, wire)) == [SendingHost(m), AddressedHost(wire)]
  {
    hide IsWire, Sendable;
    var net, es := [NewHost(), NewHost()], SendingRun(m, wire);
    var ready := [NewHost().(sender := Ready), NewHost()];
    var sent := [SendingHost(m), AddressedHost(wire)];
    assert Next(net, 0, Acquire) == ready;
    assert Next(ready, 0, es[1].action) == sent by {
      assert Local(ready[0], es[1].action) == SendingHost(m);
      assert [] + [Wire(wire, 0, 0)] == [Wire(wire, 0, 0)];
    }
    assert Enabled(net, 0, Acquire) && Enabled(ready, 0, es[1].action);
    hide Next, Enabled;
    assert es[1..] == [es[1]] && [es[1]][1..] == [];
    assert Legal(ready, [es[1]]) && After(ready, [es[1]]) == sent;
  }

  /** What machine 1 has buffered once it has polled. */
  function Packed(m: Message): Buffered {
    Buffered(m.pkt, Payload(m), 0, 0)
  }

  function PolledHost(m: Message): Host {
    NewHost().(inbox := Some(Packed(m)), messageAvailable := 1)
  }

  lemma PollsOne(m: Message, wire: seq<Byte>)
    requires |wire| == MAX_WIRE_SIZE && HeaderAt(wire).to == 1 && Received(wire) == Some((m.pkt, Payload(m)))
    ensures Local(AddressedHost(wire), Poll) == PolledHost(m)
    ensures Asserts([SendingHost(m), AddressedHost(wire)], 1, Poll)
  {
    hide Payload, HeaderAt, Received;
    assert AddressedHost(wire).socket[1..] == [];
  }

  lemma PolledByOne(m: Message, wire: seq<Byte>)
    requires |wire| == MAX_WIRE_SIZE && HeaderAt(wire).to == 1 && Received(wire) == Some((m.pkt, Payload(m)))
    ensures Next([SendingHost(m), AddressedHost(wire)], 1, Poll) == [SendingHost(m), PolledHost(m)]
  {
    PollsOne(m, wire);
    hide Local, Asserts, AddressedHost, SendingHost, PolledHost, NewHost;
  }

  lemma DiesInHand(m: Message)
    requires Unpacked(Packed(m)).mail == Some(m) && m.mail.to >= 1
    ensures var net := [SendingHost(m), PolledHost(m)];
      Legal(net, DeliveringRun()[1..]) && After(net, DeliveringRun()[1..])[1].failed
  {
    hide Unpacked, Packed, Received;
    var es := DeliveringRun();
    var told := [SendingHost(m), PolledHost(m)];
    var woken := [SendingHost(m), PolledHost(m).(worker := Woken, messageAvailable := 0)];
    var inHand := [SendingHost(m), NewHost().(worker := Holding(Packed(m)))];
    assert Next(told, 1, WorkerP) == woken;
    assert Next(woken, 1, WorkerReceive) == inHand;
    assert Next(inHand, 1, WorkerPut)[1].failed;
    assert es[1..][1..] == [es[2], es[3]] && es[1..][1..][1..] == [es[3]] && [es[3]][1..] == [];
    assert Enabled(told, 1, WorkerP) && Enabled(woken, 1, WorkerReceive) && Enabled(inHand, 1, WorkerPut);
    hide Next, Enabled;
    assert Legal(inHand, [es[3]]) && After(inHand, [es[3]])[1].failed;
  }

  lemma DiesAtOne(m: Message, wire: seq<Byte>)
    requires NoSuchBox(m, wire)
    ensures var net := [SendingHost(m), AddressedHost(wire)];
      Legal(net, DeliveringRun()) && After(net, DeliveringRun())[1].failed
  {
    MailRoundTrip(m, wire);
    assert Unpacked(Packed(m)).mail == Some(m);
    DiesInHand(m);
    PolledByOne(m, wire);
    var net := [SendingHost(m), AddressedHost(wire)];
    assert Enabled(net, 1, Poll);
    hide Next, Enabled, Payload, NoSuchBox, SendingHost, AddressedHost, PolledHost, Unpacked;
  }

  /** Two machines with one mailbox each: Send accepts the message, and it kills the machine that it is for. */
  lemma FailingExample()
    ensures var m := Message(Header(1, 0, 12), Header(1, 0, 0), []);
      var net, es := [NewHost(), NewHost()], SendingRun(m, Padded(m)) + DeliveringRun();
      Sendable(0, m) && Start(net) && Legal(net, es) && After(net, es)[1].failed
  {
    hide IsWire, Legal, After, DeliveringRun, SendingRun, Padded;
    var m := Message(Header(1, 0, 12), Header(1, 0, 0), []);
    var wire := Padded(m);
    SentToOne(m, wire);
    DiesAtOne(m, wire);
    RunsJoin([NewHost(), NewHost()], SendingRun(m, wire), DeliveringRun());
  }
}
