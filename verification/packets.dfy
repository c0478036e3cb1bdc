/** Packets and mail as bytes (machine/network.h, machine/network.cc, network/post.h, network/post.cc). */
module Packets {
  import opened Common
  import opened Bits
  import opened Memory

  const HEADER_SIZE := 12
  const MAX_WIRE_SIZE := 64
  const MAX_PACKET_SIZE := 52
  const MAX_MAIL_SIZE := 40

  /** PacketHeader and MailHeader are both three words. */
  datatype Header = Header(to: Word, from: Word, length: Word)

  /** A message with the headers of the network and of the post office. */
  datatype Message = Message(pkt: Header, mail: Header, data: seq<Byte>)

  function WordBytesOf(w: Word): (r: seq<Byte>)
    ensures |r| == 4
  {
    [ByteOf(w, 0), ByteOf(w, 1), ByteOf(w, 2), ByteOf(w, 3)]
  }

  function WordAt(b: seq<Byte>, i: nat): Word
    requires i + 4 <= |b|
  {
    WordOf(b[i], b[i + 1], b[i + 2], b[i + 3])
  }

  /** A header as it is cast to bytes. */
  function HeaderBytes(h: Header): (r: seq<Byte>)
    ensures |r| == HEADER_SIZE
  {
    WordBytesOf(h.to) + WordBytesOf(h.from) + WordBytesOf(h.length)
  }

  /** Bytes cast to a header. */
  function HeaderAt(b: seq<Byte>): Header
    requires |b| >= HEADER_SIZE
  {
    Header(WordAt(b, 0), WordAt(b, 4), WordAt(b, 8))
  }

  lemma HeaderRoundTrip(h: Header, rest: seq<Byte>)
    ensures HeaderAt(HeaderBytes(h) + rest) == h
  {
    hide ByteOf, WordOf;
    WordFromBytes(h.to);
    WordFromBytes(h.from);
    WordFromBytes(h.length);
    var b := HeaderBytes(h) + rest;
    assert b[0..4] == WordBytesOf(h.to) && b[4..8] == WordBytesOf(h.from) && b[8..12] == WordBytesOf(h.length);
  }

  /** What PostOfficeOutput::Send demands and makes of the headers. */
  predicate Proper(m: Message) {
    |m.data| == m.mail.length <= MAX_MAIL_SIZE && m.pkt.length == m.mail.length + HEADER_SIZE
  }

  /** The buffer that PostOfficeOutput::Send passes to the network. */
  function Payload(m: Message): seq<Byte> {
    HeaderBytes(m.mail) + m.data
  }

  /** The bytes on the wire, padded to the fixed size with whatever was in the buffer. */
  predicate IsWire(m: Message, wire: seq<Byte>) {
    |wire| == MAX_WIRE_SIZE && HeaderBytes(m.pkt) + Payload(m) <= wire
  }

  /** One of them: every message that Send accepts fits. */
  function Padded(m: Message): (wire: seq<Byte>)
    requires Proper(m)
    ensures IsWire(m, wire)
  {
    HeaderBytes(m.pkt) + Payload(m) + seq(MAX_WIRE_SIZE - 2 * HEADER_SIZE - |m.data|, i => 0)
  }

  /** NetworkInput::CallBack: the header, and as much of the rest as it says; nothing if the header is unacceptable. */
  function Received(wire: seq<Byte>): Option<(Header, seq<Byte>)>
    requires |wire| == MAX_WIRE_SIZE
  {
    var hdr := HeaderAt(wire);
    if hdr.length > MAX_PACKET_SIZE then None else Some((hdr, wire[HEADER_SIZE..HEADER_SIZE + hdr.length]))
  }

  /** PostalDelivery and Mail::Mail: the mail header off the front of the data, and the message behind it. */
  function MailOf(hdr: Header, buffer: seq<Byte>): Option<Message> {
    if |buffer| < HEADER_SIZE then None else
      var mail := HeaderAt(buffer);
      if mail.length > MAX_MAIL_SIZE || HEADER_SIZE + mail.length > |buffer| then None
      else Some(Message(hdr, mail, buffer[HEADER_SIZE..HEADER_SIZE + mail.length]))
  }

  function MailOnWire(wire: seq<Byte>): Option<Message>
    requires |wire| == MAX_WIRE_SIZE
  {
    match Received(wire)
    case None => None
    case Some(packet) => MailOf(packet.0, packet.1)
  }

  /** Whatever is sent comes off the wire with its headers and its data intact. */
  lemma MailRoundTrip(m: Message, wire: seq<Byte>)
    requires Proper(m) && IsWire(m, wire)
    ensures MailOnWire(wire) == Some(m)
    ensures Received(wire) == Some((m.pkt, Payload(m)))
  {
    hide HeaderBytes, HeaderAt;
    var sent := HeaderBytes(m.pkt) + Payload(m);
    assert wire == sent + wire[|sent|..] == HeaderBytes(m.pkt) + (Payload(m) + wire[|sent|..]);
    HeaderRoundTrip(m.pkt, Payload(m) + wire[|sent|..]);
    assert wire[HEADER_SIZE..HEADER_SIZE + m.pkt.length] == Payload(m);
    HeaderRoundTrip(m.mail, m.data);
    assert Payload(m)[HEADER_SIZE..HEADER_SIZE + m.mail.length] == m.data;
  }

  /** The four bytes from `i` on spell the word, the least significant first. */
  predicate Spells(b: seq<Byte>, i: nat, w: Word) {
    i + 4 <= |b| && w == (b[i] as int) + 256 * (b[i + 1] as int) + 65536 * (b[i + 2] as int) + 16777216 * (b[i + 3] as int)
  }

  lemma WordSpelled(w: Word)
    ensures Spells(WordBytesOf(w), 0, w)
  {
    WordFromBytes(w);
  }

  lemma HeaderLayout(h: Header)
    ensures var b := HeaderBytes(h); Spells(b, 0, h.to) && Spells(b, 4, h.from) && Spells(b, 8, h.length)
  {
    hide WordBytesOf;
    WordSpelled(h.to);
    WordSpelled(h.from);
    WordSpelled(h.length);
    var t, f, l := WordBytesOf(h.to), WordBytesOf(h.from), WordBytesOf(h.length);
    var b := HeaderBytes(h);
    assert forall k :: 0 <= k < 4 ==> b[k] == t[k] && b[4 + k] == f[k] && b[8 + k] == l[k];
  }

  /** Where everything is on the wire: machine to and from, packet length, mailbox to and from, message length, message. */
  lemma WireLayout(m: Message, wire: seq<Byte>)
    requires Proper(m) && IsWire(m, wire)
    ensures |wire| == 64
    ensures Spells(wire, 0, m.pkt.to) && Spells(wire, 4, m.pkt.from) && Spells(wire, 8, |m.data| + 12)
    ensures Spells(wire, 12, m.mail.to) && Spells(wire, 16, m.mail.from) && Spells(wire, 20, |m.data|)
    ensures wire[24..24 + |m.data|] == m.data
  {
    hide HeaderBytes;
    HeaderLayout(m.pkt);
    HeaderLayout(m.mail);
    var p, q := HeaderBytes(m.pkt), HeaderBytes(m.mail);
    assert p + (q + m.data) <= wire;
    assert forall k :: 0 <= k < 12 ==> wire[k] == p[k];
    assert forall k :: 0 <= k < 12 ==> wire[12 + k] == q[k];
  }

  // ---------------------------------------------------------------- the buffers in place

  /** PostOfficeOutput::Send: concatenate mail header and data. */
  method Concatenate(mail: Header, data: array<Byte>) returns (buffer: array<Byte>)
    requires mail.length <= MAX_MAIL_SIZE && mail.length <= data.Length
    ensures fresh(buffer) && buffer.Length == MAX_PACKET_SIZE
    ensures HeaderBytes(mail) + data[..mail.length] <= buffer[..]
  {
    var h := HeaderBytes(mail);
    buffer := new Byte[MAX_PACKET_SIZE];
    forall i | 0 <= i < HEADER_SIZE {
      buffer[i] := h[i];
    }
    forall i | 0 <= i < mail.length {
      buffer[HEADER_SIZE + i] := data[i];
    }
    assert buffer[..][..HEADER_SIZE + mail.length] == h + data[..mail.length];
  }

  /** NetworkOutput::Send: header and data in a buffer of the wire's size. */
  method Packet(hdr: Header, data: array<Byte>) returns (wire: array<Byte>)
    requires hdr.length <= MAX_PACKET_SIZE && hdr.length <= data.Length
    ensures fresh(wire) && wire.Length == MAX_WIRE_SIZE
    ensures HeaderBytes(hdr) + data[..hdr.length] <= wire[..]
  {
    var h := HeaderBytes(hdr);
    wire := new Byte[MAX_WIRE_SIZE];
    forall i | 0 <= i < HEADER_SIZE {
      wire[i] := h[i];
    }
    forall i | 0 <= i < hdr.length {
      wire[HEADER_SIZE + i] := data[i];
    }
    assert wire[..][..HEADER_SIZE + hdr.length] == h + data[..hdr.length];
  }

  /** The bytes that PostOfficeOutput::Send puts on the wire. */
  method Send(to: Word, host: Word, mailTo: Word, mailFrom: Word, length: Word, data: array<Byte>)
      returns (wire: array<Byte>, ghost sent: Message)
    requires length <= MAX_MAIL_SIZE && length <= data.Length
    ensures wire.Length == MAX_WIRE_SIZE && Proper(sent) && IsWire(sent, wire[..])
    ensures sent == Message(Header(to, host, length + HEADER_SIZE), Header(mailTo, mailFrom, length), data[..length])
  {
    var mail := Header(mailTo, mailFrom, length);
    var pkt := Header(to, host, length + HEADER_SIZE);
    sent := Message(pkt, mail, data[..length]);
    var buffer := Concatenate(mail, data);
    assert buffer[..pkt.length] == Payload(sent);
    wire := Packet(pkt, buffer);
  }

  /** The network's receiving side: one packet at a time. */
  class NetworkInput {
    var inHdr: Header
    const inbox: array<Byte>
    const host: Word

    constructor (host: Word)
      ensures Valid() && Buffered() == None && this.host == host
    {
      this.host := host;
      inHdr := Header(0, 0, 0);
      inbox := new Byte[MAX_PACKET_SIZE];
    }

    ghost predicate Valid()
      reads this
    {
      inbox.Length == MAX_PACKET_SIZE && inHdr.length <= MAX_PACKET_SIZE
    }

    ghost function Buffered(): Option<(Header, seq<Byte>)>
      requires Valid()
      reads this, inbox
    {
      if inHdr.length == 0 then None else Some((inHdr, inbox[..inHdr.length]))
    }

    /** Takes a packet off the socket unless one is buffered; `available` is the call of the post office. */
    method CallBack(socket: seq<seq<Byte>>) returns (rest: seq<seq<Byte>>, available: bool)
      requires Valid() && forall i :: 0 <= i < |socket| ==> |socket[i]| == MAX_WIRE_SIZE
      requires socket != [] ==>   // ASSERT, and the sender's ASSERT(hdr.length > 0)
        && Received(socket[0]).Some? && Received(socket[0]).value.0.to == host && Received(socket[0]).value.0.length > 0
      modifies this, inbox
      ensures Valid()
      ensures available <==> old(Buffered()) == None && socket != []
      ensures if available then Buffered() == Received(socket[0]) && rest == socket[1..]
        else Buffered() == old(Buffered()) && rest == socket
    {
      if inHdr.length != 0 || socket == [] {
        return socket, false;
      }
      var buffer := socket[0];
      inHdr := HeaderAt(buffer);
      forall i | 0 <= i < inHdr.length {
        inbox[i] := buffer[HEADER_SIZE + i];
      }
      assert inbox[..inHdr.length] == buffer[HEADER_SIZE..HEADER_SIZE + inHdr.length];
      return socket[1..], true;
    }

    /** The packet, which is no longer buffered; a header of length 0 if there was none. */
    method Receive(data: array<Byte>) returns (hdr: Header)
      requires Valid() && data.Length >= MAX_PACKET_SIZE && data != inbox
      modifies this, data
      ensures Valid() && Buffered() == None && hdr == old(inHdr)
      ensures old(Buffered()).Some? ==> old(Buffered()) == Some((hdr, data[..hdr.length]))
      ensures old(Buffered()) == None ==> hdr.length == 0
    {
      hdr := inHdr;
      inHdr := inHdr.(length := 0);
      if hdr.length != 0 {
        forall i | 0 <= i < hdr.length {
          data[i] := inbox[i];
        }
        assert data[..hdr.length] == old(inbox[..inHdr.length]);
      }
    }
  }
}
