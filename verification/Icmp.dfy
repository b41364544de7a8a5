/** IP headers and ICMP echo messages: how they are built, and the checks a receiver makes.

    A packet here starts with its IP header; the link-layer header is left out. */
module Icmp {
  import opened Bits
  import opened Checksum

  const HEADER: nat := 20
  const ICMP_HEADER: nat := 8
  const PROTO_ICMP: Byte := 1
  const ECHO_REQUEST: Byte := 8
  const ECHO_REPLY: Byte := 0
  const MAX_MESSAGE: nat := 1500

  function HeaderLength(packet: seq<Byte>): nat
    requires |packet| > 0
  {
    packet[0] % 16 * 4
  }

  /** What the IP layer asks of a packet before it looks any further. */
  predicate HeaderChecksOut(packet: seq<Byte>) {
    && |packet| >= HEADER && packet[0] / 16 == 4 && HEADER <= HeaderLength(packet) <= WordAt(packet, 2) <= |packet|
    && ChecksumOf(packet[..HeaderLength(packet)]) == 0
  }

  function Message(packet: seq<Byte>): seq<Byte>
    requires HeaderChecksOut(packet)
  {
    packet[HeaderLength(packet)..WordAt(packet, 2)]
  }

  /** What the ICMP layer asks on top of that. */
  predicate MessageChecksOut(packet: seq<Byte>) {
    HeaderChecksOut(packet) && |Message(packet)| >= ICMP_HEADER && ChecksumOf(Message(packet)) == 0
  }

  predicate IsEchoRequest(packet: seq<Byte>) {
    MessageChecksOut(packet) && Message(packet)[0] == ECHO_REQUEST && Message(packet)[1] == 0
  }

  /** The tests of the IP layer after the header: for this address, not a fragment, and for the ICMP layer. */
  predicate ReachesIcmp(packet: seq<Byte>, address: seq<Byte>) {
    && HeaderChecksOut(packet) && packet[16..20] == address && packet[9] == PROTO_ICMP
    && WordAt(packet, 6) / 0x2000 % 2 == 0 && WordAt(packet, 6) % 0x2000 == 0
  }

  // ---- Building ----

  function Word(w: nat): seq<Byte>
    requires w <= ONES
  {
    [w / 256, w % 256]
  }

  /** A header without options, not to be fragmented, ready but for its checksum. */
  function PlainHeader(total: nat, protocol: Byte, source: seq<Byte>, destination: seq<Byte>): (h: seq<Byte>)
    requires total <= ONES && |source| == |destination| == 4
    ensures |h| == HEADER
  {
    [0x45, 0] + Word(total) + [0, 0, 0x40, 0, 64, protocol, 0, 0] + source + destination
  }

  /** The length field keeps 16 bits of the length. */
  function Packet(protocol: Byte, source: seq<Byte>, destination: seq<Byte>, payload: seq<Byte>): seq<Byte>
    requires |source| == |destination| == 4
  {
    Sealed(PlainHeader((HEADER + |payload|) % 0x1_0000, protocol, source, destination), 10) + payload
  }

  function EchoMessage(id: nat, sequence: nat, payload: seq<Byte>): (m: seq<Byte>)
    requires id <= ONES && sequence <= ONES
    ensures |m| == ICMP_HEADER + |payload|
  {
    Sealed([ECHO_REQUEST, 0, 0, 0] + Word(id) + Word(sequence) + payload, 2)
  }

  lemma SealedOnlyTouches(data: seq<Byte>, k: nat, i: nat)
    requires k + 2 <= |data| && i < |data| && i != k && i != k + 1
    ensures Sealed(data, k)[i] == data[i]
  {
  }

  /** Every packet the stack builds has a sound header checksum; it passes the receiver's check with its payload
      exactly when its length fits the length field. */
  lemma PacketChecksOut(protocol: Byte, source: seq<Byte>, destination: seq<Byte>, payload: seq<Byte>)
    requires |source| == |destination| == 4
    ensures var p := Packet(protocol, source, destination, payload);
            && |p| == HEADER + |payload| && HeaderLength(p) == HEADER && ChecksumOf(p[..HEADER]) == 0
            && (HeaderChecksOut(p) && Message(p) == payload <==> HEADER + |payload| <= ONES)
  {
    hide ChecksumOf, Sealed, PlainHeader;
    var total := (HEADER + |payload|) % 0x1_0000;
    var h := PlainHeader(total, protocol, source, destination);
    var s := Sealed(h, 10);
    SealedChecksOut(h, 10);
    HeaderStart(total, protocol, source, destination);
    SealedOnlyTouches(h, 10, 0);
    SealedOnlyTouches(h, 10, 2);
    SealedOnlyTouches(h, 10, 3);
    var p := s + payload;
    assert p[..HEADER] == s;
    assert WordAt(p, 2) == total;
  }

  lemma HeaderStart(total: nat, protocol: Byte, source: seq<Byte>, destination: seq<Byte>)
    requires total <= ONES && |source| == |destination| == 4
    ensures var h := PlainHeader(total, protocol, source, destination); h[0] == 0x45 && WordAt(h, 2) == total
  {
  }

  /** Every echo request the stack sends is one its own receive path accepts. */
  lemma EchoAccepted(id: nat, sequence: nat, payload: seq<Byte>, source: seq<Byte>, destination: seq<Byte>)
    requires id <= ONES && sequence <= ONES && |source| == |destination| == 4
    requires HEADER + ICMP_HEADER + |payload| <= ONES
    ensures var p := Packet(PROTO_ICMP, source, destination, EchoMessage(id, sequence, payload));
            ReachesIcmp(p, destination) && IsEchoRequest(p)
  {
    hide ChecksumOf, Sealed, Packet, HeaderChecksOut, EchoMessage;
    PacketReaches(source, destination, EchoMessage(id, sequence, payload));
    EchoChecksOut(id, sequence, payload);
    PacketChecksOut(PROTO_ICMP, source, destination, EchoMessage(id, sequence, payload));
  }

  lemma PacketReaches(source: seq<Byte>, destination: seq<Byte>, payload: seq<Byte>)
    requires |source| == |destination| == 4 && HEADER + |payload| <= ONES
    ensures ReachesIcmp(Packet(PROTO_ICMP, source, destination, payload), destination)
  {
    hide ChecksumOf, Sealed, HeaderChecksOut, PlainHeader;
    PacketChecksOut(PROTO_ICMP, source, destination, payload);
    var total := (HEADER + |payload|) % 0x1_0000;
    var h := PlainHeader(total, PROTO_ICMP, source, destination);
    HeaderRest(total, source, destination);
    forall i | 6 <= i < 20 && i != 10 && i != 11
      ensures Sealed(h, 10)[i] == h[i]
    {
      SealedOnlyTouches(h, 10, i);
    }
    var p := Packet(PROTO_ICMP, source, destination, payload);
    assert p[16..20] == destination;
    assert WordAt(p, 6) == 0x4000;
  }

  lemma HeaderRest(total: nat, source: seq<Byte>, destination: seq<Byte>)
    requires total <= ONES && |source| == |destination| == 4
    ensures var h := PlainHeader(total, PROTO_ICMP, source, destination);
            h[6] == 0x40 && h[7] == 0 && h[9] == PROTO_ICMP && h[16..20] == destination
  {
  }

  lemma EchoChecksOut(id: nat, sequence: nat, payload: seq<Byte>)
    requires id <= ONES && sequence <= ONES
    ensures var m := EchoMessage(id, sequence, payload); ChecksumOf(m) == 0 && m[0] == ECHO_REQUEST && m[1] == 0
  {
    hide ChecksumOf, Sealed;
    var d := [ECHO_REQUEST, 0, 0, 0] + Word(id) + Word(sequence) + payload;
    SealedChecksOut(d, 2);
    SealedOnlyTouches(d, 2, 0);
    SealedOnlyTouches(d, 2, 1);
  }

  // ---- Replying ----

  /** The header of the reply: addresses exchanged, time to live renewed. */
  function ReplyHeader(h: seq<Byte>): (r: seq<Byte>)
    requires |h| >= HEADER
    ensures |r| == |h|
  {
    Sealed(h[..8] + [64] + h[9..12] + h[16..20] + h[12..16] + h[20..], 10)
  }

  function ReplyMessage(m: seq<Byte>): (r: seq<Byte>)
    requires |m| >= ICMP_HEADER
    ensures |r| == |m|
  {
    Sealed([ECHO_REPLY, 0] + m[2..], 2)
  }

  function Reply(packet: seq<Byte>): seq<Byte>
    requires MessageChecksOut(packet)
  {
    ReplyHeader(packet[..HeaderLength(packet)]) + ReplyMessage(Message(packet))
  }

  lemma ReplyHeaderOk(h: seq<Byte>)
    requires |h| >= HEADER
    ensures var r := ReplyHeader(h);
            && ChecksumOf(r) == 0 && r[0] == h[0] && WordAt(r, 2) == WordAt(h, 2)
            && r[12..16] == h[16..20] && r[16..20] == h[12..16]
  {
    hide ChecksumOf, Sealed, WordAt;
    var d := h[..8] + [64] + h[9..12] + h[16..20] + h[12..16] + h[20..];
    SealedChecksOut(d, 10);
    forall i | 0 <= i < 8 || 12 <= i < 20
      ensures Sealed(d, 10)[i] == d[i]
    {
      SealedOnlyTouches(d, 10, i);
    }
    WordSame(h, ReplyHeader(h));
  }

  lemma WordSame(a: seq<Byte>, b: seq<Byte>)
    requires |a| >= 4 && |b| >= 4 && a[2] == b[2] && a[3] == b[3]
    ensures WordAt(a, 2) == WordAt(b, 2)
  {
  }

  lemma ReplyMessageOk(m: seq<Byte>)
    requires |m| >= ICMP_HEADER
    ensures var r := ReplyMessage(m);
            ChecksumOf(r) == 0 && r[0] == ECHO_REPLY && r[1] == 0 && r[4..] == m[4..]
  {
    hide ChecksumOf, Sealed;
    var d := [ECHO_REPLY, 0] + m[2..];
    SealedChecksOut(d, 2);
    forall i | 0 <= i < 2 || 4 <= i < |m|
      ensures Sealed(d, 2)[i] == d[i]
    {
      SealedOnlyTouches(d, 2, i);
    }
  }

  lemma SliceOfFront(p: seq<Byte>, n: nat, i: nat)
    requires i + 4 <= n <= |p|
    ensures p[i..i + 4] == p[..n][i..i + 4]
  {
  }

  /** A reply passes both checks of the receiver, carries the request's identifier, sequence number
      and data unchanged, goes back where the request came from, and is not itself a request. */
  lemma ReplyAccepted(packet: seq<Byte>)
    requires MessageChecksOut(packet)
    ensures var r := Reply(packet);
            && MessageChecksOut(r) && !IsEchoRequest(r)
            && Message(r)[4..] == Message(packet)[4..] && |Message(r)| == |Message(packet)|
            && r[12..16] == packet[16..20] && r[16..20] == packet[12..16]
            && (ReachesIcmp(packet, packet[16..20]) ==> ReachesIcmp(r, packet[12..16]))
  {
    hide ChecksumOf, ReplyHeader, ReplyMessage, WordAt, ReachesIcmp;
    var n := HeaderLength(packet);
    var h, m := packet[..n], Message(packet);
    ReplyHeaderOk(h);
    ReplyMessageOk(m);
    var r := Reply(packet);
    WordSame(packet, h);
    WordSame(r, ReplyHeader(h));
    assert HeaderLength(r) == n && r[..n] == ReplyHeader(h);
    assert Message(r) == ReplyMessage(m);
    SliceOfFront(r, n, 12);
    SliceOfFront(r, n, 16);
    SliceOfFront(packet, n, 12);
    SliceOfFront(packet, n, 16);
    ReplyReaches(packet);
  }

  lemma ReplyReaches(packet: seq<Byte>)
    requires MessageChecksOut(packet) && HeaderChecksOut(Reply(packet))
    requires Reply(packet)[16..20] == packet[12..16]
    ensures ReachesIcmp(packet, packet[16..20]) ==> ReachesIcmp(Reply(packet), packet[12..16])
  {
    hide ChecksumOf, ReplyMessage, Sealed;
    var h := packet[..HeaderLength(packet)];
    var d := h[..8] + [64] + h[9..12] + h[16..20] + h[12..16] + h[20..];
    SealedOnlyTouches(d, 10, 6);
    SealedOnlyTouches(d, 10, 7);
    SealedOnlyTouches(d, 10, 9);
    var r := Reply(packet);
    assert r[6] == packet[6] && r[7] == packet[7] && r[9] == packet[9];
  }

  // ---- The in-place builders ----

  /** Clears the field at k of buffer[from..to], then stores the checksum of that stretch. */
  method Seal(buffer: array<Byte>, from: nat, to: nat, k: nat)
    requires from <= to <= buffer.Length && from + k + 2 <= to
    modifies buffer
    ensures buffer[from..to] == Sealed(old(buffer[from..to]), k)
    ensures buffer[..from] == old(buffer[..from]) && buffer[to..] == old(buffer[to..])
  {
    hide ChecksumOf;
    buffer[from + k] := 0;
    buffer[from + k + 1] := 0;
    assert buffer[from..to] == PutWord(old(buffer[from..to]), k, 0);
    var c := ComputeChecksum(buffer[from..to]);
    buffer[from + k] := c / 256;
    buffer[from + k + 1] := c % 256;
  }

  /** Answers an echo request in a copy of its packet. */
  method SendReply(packet: seq<Byte>) returns (reply: array<Byte>)
    requires MessageChecksOut(packet)
    ensures fresh(reply) && reply[..] == Reply(packet)
  {
    hide ChecksumOf, ReplyHeader, ReplyMessage;
    var n, total := HeaderLength(packet), WordAt(packet, 2);
    reply := new Byte[total](i requires 0 <= i < total => packet[i]);
    assert reply[..n] == packet[..n] && reply[n..] == Message(packet);
    RewriteHeader(reply, n);
    RewriteMessage(reply, n);
    assert reply[..] == reply[..n] + reply[n..];
  }

  lemma SwappedAt(h: seq<Byte>, j: nat)
    requires HEADER <= |h| && j < |h|
    ensures (h[..8] + [64] + h[9..12] + h[16..20] + h[12..16] + h[20..])[j]
         == if j == 8 then 64 else if 12 <= j < 16 then h[j + 4] else if 16 <= j < 20 then h[j - 4] else h[j]
  {
  }

  method RewriteHeader(reply: array<Byte>, n: nat)
    requires HEADER <= n <= reply.Length
    modifies reply
    ensures reply[..n] == ReplyHeader(old(reply[..n])) && reply[n..] == old(reply[n..])
  {
    hide ChecksumOf, Sealed;
    ghost var h := reply[..n];
    SwapAddresses(reply);
    reply[8] := 64;
    ghost var want := h[..8] + [64] + h[9..12] + h[16..20] + h[12..16] + h[20..];
    forall j | 0 <= j < n
      ensures reply[j] == want[j]
    {
      SwappedAt(h, j);
    }
    assert reply[0..n] == want;
    Seal(reply, 0, n, 10);
    assert reply[0..n] == reply[..n];
  }

  method RewriteMessage(reply: array<Byte>, n: nat)
    requires n + ICMP_HEADER <= reply.Length
    modifies reply
    ensures reply[n..] == ReplyMessage(old(reply[n..])) && reply[..n] == old(reply[..n])
  {
    hide ChecksumOf, Sealed;
    ghost var m := reply[n..];
    reply[n] := ECHO_REPLY;
    reply[n + 1] := 0;
    assert reply[n..reply.Length] == [ECHO_REPLY, 0] + m[2..];
    Seal(reply, n, reply.Length, 2);
    assert reply[n..reply.Length] == reply[n..];
  }

  /** Exchanges source and destination address. */
  method SwapAddresses(reply: array<Byte>)
    requires reply.Length >= HEADER
    modifies reply
    ensures forall j :: 0 <= j < reply.Length ==>
                          reply[j] == old(reply[if 12 <= j < 16 then j + 4 else if 16 <= j < 20 then j - 4 else j])
  {
    var i := 12;
    while i < 16
      invariant 12 <= i <= 16
      invariant forall j :: 0 <= j < reply.Length ==>
                              reply[j] == if 12 <= j < i then old(reply[j + 4])
                                          else if 16 <= j < i + 4 then old(reply[j - 4]) else old(reply[j])
    {
      reply[i], reply[i + 4] := reply[i + 4], reply[i];
      i := i + 1;
    }
  }

  method CopyAfterHeader(message: array<Byte>, payload: seq<Byte>)
    requires message.Length == ICMP_HEADER + |payload|
    modifies message
    ensures message[..8] == old(message[..8]) && message[8..] == payload
  {
    for i := 0 to |payload|
      invariant message[..8] == old(message[..8])
      invariant forall j :: 0 <= j < i ==> message[8 + j] == payload[j]
    {
      message[8 + i] := payload[i];
    }
  }

  /** Builds an echo request; fails if it does not fit the message buffer. The length is tested after it has been
      reduced to 32 bits: a payload so long that it wraps passes the test and overruns the buffer, and nothing is
      promised then. */
  method SendEcho(id: nat, sequence: nat, payload: seq<Byte>)
    returns (ok: bool, overrun: bool, message: array<Byte>)
    requires id <= ONES && sequence <= ONES && |payload| < TWO_32
    ensures overrun <==> ICMP_HEADER + |payload| >= TWO_32
    ensures ok <==> ICMP_HEADER + |payload| <= MAX_MESSAGE
    ensures fresh(message) && (ok ==> message[..] == EchoMessage(id, sequence, payload))
  {
    hide ChecksumOf, Sealed;
    overrun := false;
    var length := (ICMP_HEADER + |payload|) % TWO_32;
    if length > MAX_MESSAGE {
      message := new Byte[0];
      return false, false, message;
    }
    if length < |payload| {
      message := new Byte[0];
      return false, true, message;
    }
    message := new Byte[length](_ => 0);
    message[0] := ECHO_REQUEST;
    message[1] := 0;
    message[4], message[5] := id / 256, id % 256;
    message[6], message[7] := sequence / 256, sequence % 256;
    assert message[..8] == [ECHO_REQUEST, 0, 0, 0] + Word(id) + Word(sequence);
    CopyAfterHeader(message, payload);
    assert message[0..length] == message[..8] + message[8..];
    Seal(message, 0, length, 2);
    assert message[0..length] == message[..];
    ok := true;
  }
}
