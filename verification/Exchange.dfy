/** Two devices side by side: what one composes, the other hands to its receiver callback. */
module Exchange {
  import opened Words
  import opened Packets
  import opened PacketCodec
  import opened PacketTools
  import opened Reception
  import opened Pjon
  import opened Protocol

  function Buffers(d: PJON): set<object> {
    {d.data as object, d.packets as object, d.recentPacketIds as object}
  }

  /** The device is addressed by the packet composed for `info`, listens to its port and has no record of
      it. */
  predicate Awaits(dev: Device, recent: seq<Record>, info: Info, h: byte) {
    && Addressed(dev, info, h)
    && (dev.port == NO_PORT || dev.port == Received(info, h).port)
    && (HasId(h) && !dev.router ==>
          forall i :: 0 <= i < |recent| ==> RecordKey(recent[i]) != KeyOf(Received(info, h)))
  }

  predicate Fits(info: Info, length: nat, max: nat) {
    PacketLength(info, length) < max && !Latched(info, length)
  }

  lemma FitsMeans(info: Info, length: nat, max: nat)
    requires Fits(info, length, max)
    ensures PacketLength(info, length) < max && !Latched(info, length) && PacketLength(info, length) >= length + 5
  {
    PacketIsLonger(info, length);
  }

  lemma NewPacketDelivered(
    dev: Device, recent: seq<Record>, info: Info, h: byte, parsed: Info, payload: seq<byte>, responded: bool
  )
    requires recent != [] && Carries(info, h, parsed) && Awaits(dev, recent, info, h)
    ensures var o := Conclude(dev, recent, responded, parsed, payload);
            o.code == ACK && o.responded == responded && o.info == Some(parsed) && o.payload == Some(payload)
  {
    SameKey(info, h, parsed);
    hide HasId, Addressed, KeyOf, RecordKey, Carries, Received;
  }

  /** A packet awaited is read completely and delivered, over whatever the buffer held. */
  lemma AwaitedDelivered(dev: Device, recent: seq<Record>, info: Info, payload: seq<byte>, stale: seq<byte>)
    requires |payload| >= 1 && Sized(info, |payload|) && Fits(info, |payload|, |stale|)
    requires |stale| >= 35 && recent != [] && Awaits(dev, recent, info, FinalHeader(info, |payload|))
    ensures var h := FinalHeader(info, |payload|);
            var o := Reaction(dev, recent, Packet(info, payload), stale);
            && o.code == ACK && o.responded == (AckRequested(h) && dev.halfDuplex && !dev.router)
            && o.payload == Some(payload) && o.info.Some? && Carries(info, h, o.info.value)
  {
    hide FinalHeader, PacketLength, Packet, Latched, Passes, Judge, Conclude, Parsed, Carries, AckRequested, Read;
    hide Received;
    var h, frame := FinalHeader(info, |payload|), Packet(info, payload);
    assert frame <= frame;
    ComposedLength(info, payload);
    ComposedRead(dev, info, payload, frame, |stale|);
    FilledFront(frame, stale);
    var buffer := Filled(frame, stale, |frame|);
    ComposedJudged(dev, recent, info, payload, buffer);
    NewPacketDelivered(dev, recent, info, h, Parsed(buffer), payload,
                       AckRequested(h) && dev.halfDuplex && !dev.router);
  }

  // ---------------------------------------------------------------- packets not awaited

  /** The record of a packet with this id, from this sender; in shared mode from this bus. */
  predicate SamePacket(r: Record, info: Info, h: byte) {
    && r.id == info.id && r.sender == (if HasTx(h) then info.tx.id else NOT_ASSIGNED)
    && (Shared(r.header) <==> Shared(h))
    && (Shared(h) ==> r.senderBus == if HasTx(h) then info.tx.busId else LOCALHOST)
  }

  /** The device has to keep apart what it gets, and has seen this packet before. */
  predicate Seen(dev: Device, recent: seq<Record>, info: Info, h: byte) {
    !dev.router && HasId(h) && exists i :: 0 <= i < |recent| && SamePacket(recent[i], info, h)
  }

  /** The record made of it, in front of the others, of which the last goes. */
  function Remembered(dev: Device, recent: seq<Record>, info: Info, h: byte): seq<Record>
    requires recent != []
  {
    if dev.router || !HasId(h) || Seen(dev, recent, info, h) then recent
    else
      [Record(h, if HasTx(h) then info.tx.id else NOT_ASSIGNED,
              if Shared(h) && HasTx(h) then info.tx.busId else LOCALHOST, info.id)]
      + recent[..|recent| - 1]
  }

  /** The port a packet is for, if its header tells. */
  predicate Listens(dev: Device, info: Info, h: byte) {
    dev.port == NO_PORT || (HasPort(h) && info.port == dev.port)
  }

  /** What a device makes of a packet addressed to it: a duplicate and a packet for another port are not
      handed over, the latter with the result BUSY and recorded all the same; acknowledged is either. */
  predicate TakenAs(o: Outcome, dev: Device, recent: seq<Record>, info: Info, h: byte, payload: seq<byte>)
    requires recent != []
  {
    var seen := Seen(dev, recent, info, h);
    && o.responded == (AckRequested(h) && dev.halfDuplex && !dev.router)
    && o.payload == (if Listens(dev, info, h) && !seen then Some(payload) else None)
    && o.code == (if Listens(dev, info, h) || seen then ACK else BUSY)
    && o.recent == Remembered(dev, recent, info, h)
    && o.info.Some? && Carries(info, h, o.info.value)
  }

  lemma SamePacketKey(r: Record, info: Info, h: byte, parsed: Info)
    requires Carries(info, h, parsed) && HasId(h)
    ensures SamePacket(r, info, h) <==> RecordKey(r) == KeyOf(parsed)
  {
    hide Shared, HasTx, HasMac, HasId, HasPort;
  }

  lemma SeenIsKnown(dev: Device, recent: seq<Record>, info: Info, h: byte, parsed: Info)
    requires Carries(info, h, parsed) && HasId(h) && !dev.router
    ensures Seen(dev, recent, info, h) <==> Known(recent, parsed)
  {
    hide Carries, SamePacket, RecordKey, KeyOf, HasId;
    forall i | 0 <= i < |recent| ensures SamePacket(recent[i], info, h) <==> RecordKey(recent[i]) == KeyOf(parsed) {
      SamePacketKey(recent[i], info, h, parsed);
    }
  }

  lemma ConcludesAs(
    dev: Device, recent: seq<Record>, info: Info, h: byte, parsed: Info, payload: seq<byte>, responded: bool
  )
    requires recent != [] && Carries(info, h, parsed) && (HasPort(h) ==> info.port != NO_PORT)
    requires responded == (AckRequested(h) && dev.halfDuplex && !dev.router)
    ensures TakenAs(Conclude(dev, recent, responded, parsed, payload), dev, recent, info, h, payload)
  {
    if HasId(h) && !dev.router { SeenIsKnown(dev, recent, info, h, parsed); }
    hide Shared, HasTx, HasMac, HasId, HasPort, AckRequested, Known, KeyOf, SamePacket;
  }

  /** Whatever comes behind it on the wire and whatever the buffer held, a packet addressed to a device
      comes to exactly that. */
  lemma AddressedTaken(
    dev: Device, recent: seq<Record>, info: Info, payload: seq<byte>, rest: seq<byte>, stale: seq<byte>
  )
    requires |payload| >= 1 && Sized(info, |payload|) && Fits(info, |payload|, |stale|)
    requires |stale| >= 35 && recent != [] && Addressed(dev, info, FinalHeader(info, |payload|))
    ensures TakenAs(Reaction(dev, recent, Packet(info, payload) + rest, stale), dev, recent, info,
                    FinalHeader(info, |payload|), payload)
  {
    var h, p := FinalHeader(info, |payload|), Packet(info, payload);
    var s := p + rest;
    var buffer := if |p| <= |stale| then Filled(s, stale, |p|) else stale;
    FinalHeaderBits(info, |payload|);
    hide *;
    FitsMeans(info, |payload|, |stale|);
    ComposedLength(info, payload);
    FilledPrefix(p, rest, stale);
    ComposedRead(dev, info, payload, s, |stale|);
    AddressedPasses(dev, info, h);
    ComposedJudged(dev, recent, info, payload, buffer);
    ConcludesAs(dev, recent, info, h, Parsed(buffer), payload, AckRequested(h) && dev.halfDuplex && !dev.router);
    ReactionJudges(dev, recent, s, stale, |p|);
  }

  lemma FilledPrefix(p: seq<byte>, rest: seq<byte>, stale: seq<byte>)
    requires |p| <= |stale|
    ensures p <= p + rest && p <= Filled(p + rest, stale, |p|)
  {
    assert (p + rest)[..|p|] == p;
  }

  lemma ReactionJudges(dev: Device, recent: seq<Record>, s: seq<byte>, stale: seq<byte>, n: nat)
    requires |stale| >= 35 && recent != [] && Read(dev, s, |stale|) == Frame(n)
    ensures n <= |s| && 5 <= n <= |stale| && Overhead(Filled(s, stale, n)[1]) <= n
    ensures Reaction(dev, recent, s, stale) == Judge(dev, recent, Filled(s, stale, n), n)
  {
    FrameRead(dev, s, |stale|);
    hide Read, Judge, Overhead, StoredLength, HeaderRejected;
  }

  /** A packet addressed to somebody else comes to BUSY and leaves no trace. */
  lemma StrangerIgnored(
    dev: Device, recent: seq<Record>, info: Info, payload: seq<byte>, rest: seq<byte>, stale: seq<byte>
  )
    requires |payload| >= 1 && Sized(info, |payload|) && Fits(info, |payload|, |stale|)
    requires |stale| >= 35 && recent != [] && !Addressed(dev, info, FinalHeader(info, |payload|))
    ensures Reaction(dev, recent, Packet(info, payload) + rest, stale) == Outcome(BUSY, false, None, None, recent)
  {
    var h, p := FinalHeader(info, |payload|), Packet(info, payload);
    var s := p + rest;
    var buffer := if |p| <= |stale| then Filled(s, stale, |p|) else stale;
    hide *;
    FitsMeans(info, |payload|, |stale|);
    ComposedLength(info, payload);
    FilledPrefix(p, rest, stale);
    ComposedRead(dev, info, payload, s, |stale|);
    if Passes(dev, info, h) {
      ComposedOtherMac(dev, recent, info, payload, buffer);
      ReactionJudges(dev, recent, s, stale, |p|);
    } else {
      GaveUpReaction(dev, recent, s, stale);
    }
  }

  lemma GaveUpReaction(dev: Device, recent: seq<Record>, s: seq<byte>, stale: seq<byte>)
    requires |stale| >= 35 && recent != [] && Read(dev, s, |stale|) in {GaveUp, Starved}
    ensures Reaction(dev, recent, s, stale)
            == Outcome(if Read(dev, s, |stale|) == GaveUp then BUSY else FAIL, false, None, None, recent)
  {
    hide Read;
  }

  /** A packet of which the end is missing comes to FAIL and leaves no trace. */
  lemma CutFails(dev: Device, recent: seq<Record>, info: Info, payload: seq<byte>, k: nat, stale: seq<byte>)
    requires |payload| >= 1 && Sized(info, |payload|) && Fits(info, |payload|, |stale|)
    requires |stale| >= 35 && recent != [] && Passes(dev, info, FinalHeader(info, |payload|))
    requires k < |Packet(info, payload)|
    ensures Reaction(dev, recent, Packet(info, payload)[..k], stale) == Outcome(FAIL, false, None, None, recent)
  {
    var p := Packet(info, payload);
    assert p <= p;
    hide *;
    FitsMeans(info, |payload|, |stale|);
    ComposedLength(info, payload);
    ComposedFront(info, payload, p);
    ComposedRead(dev, info, payload, p, |stale|);
    CutStarves(dev, p, k, |stale|);
    GaveUpReaction(dev, recent, p[..k], stale);
  }

  lemma CutStarves(dev: Device, p: seq<byte>, k: nat, max: nat)
    requires Read(dev, p, max) == Frame(|p|) && k < |p| && |p| >= 5 && StoredLength(p) == |p|
    ensures Read(dev, p[..k], max) == Starved
  {
    var q := p[..k];
    forall i | 0 <= i < k ensures !GivesUp(dev, q, i, max) {
      assert !GivesUp(dev, p, i, max);
      SameGivesUp(dev, p, k, i, max);
    }
    hide GivesUp, Extended;
  }

  /** A byte is judged by those before it. */
  lemma SameGivesUp(dev: Device, p: seq<byte>, k: nat, i: nat, max: nat)
    requires i < k <= |p|
    ensures GivesUp(dev, p[..k], i, max) == GivesUp(dev, p, i, max)
  {
    hide HeaderRejected, LengthRejected, BusRejected, Extended, ByteToInt;
  }

  lemma ComposedStream(content: seq<byte>, before: seq<byte>, info: Info, payload: seq<byte>)
    requires Sized(info, |payload|) && !Latched(info, |payload|) && ComposedInto(content, before, info, payload)
    ensures var n := PacketLength(info, |payload|); n <= |content| && content[..n] == Packet(info, payload)
  {
    hide *;
    ComposedIntoPrefix(content, before, info, payload);
    ComposedLength(info, payload);
    PrefixIs(Packet(info, payload), content);
  }

  /** The bytes a device composes and hands to its strategy. */
  method ComposeStream(a: PJON, info: Info, payload: seq<byte>) returns (stream: seq<byte>)
    requires a.Valid() && |payload| >= 1
    requires var p := Prepared(info, a.config, a.tx, a.port, a.packetIdSeed);
             Sized(p, |payload|) && Fits(p, |payload|, a.data.Length)
    modifies a.data, a`packetIdSeed, a`errors
    ensures a.Valid() && a.packetIdSeed == SeedLeft(info, a.config, old(a.packetIdSeed))
    ensures stream == Packet(old(Prepared(info, a.config, a.tx, a.port, a.packetIdSeed)), payload)
  {
    hide *;
    ghost var p, before := Prepared(info, a.config, a.tx, a.port, a.packetIdSeed), a.data[..];
    FitsMeans(p, |payload|, a.data.Length);
    var length := ComposeInPlace(a, info, payload);
    stream := Front(a.data, length, before, p, payload);
  }

  method ComposeInPlace(a: PJON, info: Info, payload: seq<byte>) returns (length: nat)
    requires a.Valid()
    requires var p := Prepared(info, a.config, a.tx, a.port, a.packetIdSeed);
             Sized(p, |payload|) && PacketLength(p, |payload|) < a.data.Length
    modifies a.data, a`packetIdSeed, a`errors
    ensures a.Valid() && a.packetIdSeed == SeedLeft(info, a.config, old(a.packetIdSeed))
    ensures var p := old(Prepared(info, a.config, a.tx, a.port, a.packetIdSeed));
            length == PacketLength(p, |payload|) && ComposedInto(a.data[..], old(a.data[..]), p, payload)
  {
    hide Prepared, Sized, PacketLength, ComposedInto, SeedLeft;
    length := a.Compose(info, a.data, payload);
  }

  /** The packet at the front of a buffer it was composed into. */
  method Front(data: array<byte>, length: nat, ghost before: seq<byte>, ghost p: Info, ghost payload: seq<byte>)
    returns (stream: seq<byte>)
    requires Sized(p, |payload|) && !Latched(p, |payload|) && ComposedInto(data[..], before, p, payload)
    requires length == PacketLength(p, |payload|)
    ensures stream == Packet(p, payload)
  {
    hide *;
    ComposedStream(data[..], before, p, payload);
    stream := data[..length];
    assert stream == data[..][..length];
  }

  /** A device receives a packet it awaits, in batches of any size. */
  method ReceiveStream(b: PJON, stream: seq<byte>, cuts: nat -> nat, ghost info: Info, ghost payload: seq<byte>)
    returns (code: int)
    requires b.Valid() && |payload| >= 1 && Sized(info, |payload|) && Fits(info, |payload|, b.data.Length)
    requires stream == Packet(info, payload)
    requires Awaits(b.Dev(), b.recentPacketIds[..], info, FinalHeader(info, |payload|))
    modifies b.data, b.recentPacketIds, b`responses, b`lastPacketInfo, b`received
    ensures b.Valid() && code == ACK
    ensures b.received == old(b.received) + [(payload, b.lastPacketInfo)]
    ensures var h := FinalHeader(info, |payload|);
            && Carries(info, h, b.lastPacketInfo)
            && b.responses == old(b.responses) + if AckRequested(h) && b.halfDuplex && !b.router then 1 else 0
  {
    ghost var dev, recent := b.Dev(), b.recentPacketIds[..];
    hide FinalHeader, Packet, Carries, AckRequested, Fits, Awaits, Reaction, Sized;
    code := b.Receive(stream, cuts);
    AwaitedDelivered(dev, recent, info, payload, b.data[..]);
  }

  /** A device receives any packet addressed to it, in batches of any size. Nothing reaches the callback
      if the packet is for another port, or on record; its id goes on record unless it is there, the
      acknowledgement is as asked, and the result is BUSY for a new packet for another port. */
  method ReceiveAddressed(b: PJON, stream: seq<byte>, cuts: nat -> nat, ghost info: Info, ghost payload: seq<byte>)
    returns (code: int)
    requires b.Valid() && |payload| >= 1 && Sized(info, |payload|) && Fits(info, |payload|, b.data.Length)
    requires Packet(info, payload) <= stream && Addressed(b.Dev(), info, FinalHeader(info, |payload|))
    modifies b.data, b.recentPacketIds, b`responses, b`lastPacketInfo, b`received
    ensures b.Valid() && b.Dev() == old(b.Dev())
    ensures var h, dev, recent := FinalHeader(info, |payload|), b.Dev(), old(b.recentPacketIds[..]);
            var seen := Seen(dev, recent, info, h);
            && b.received == old(b.received)
                             + (if Listens(dev, info, h) && !seen then [(payload, b.lastPacketInfo)] else [])
            && code == (if Listens(dev, info, h) || seen then ACK else BUSY)
            && b.responses == old(b.responses) + (if AckRequested(h) && b.halfDuplex && !b.router then 1 else 0)
            && b.recentPacketIds[..] == Remembered(dev, recent, info, h)
            && Carries(info, h, b.lastPacketInfo)
  {
    ghost var dev, recent, p := b.Dev(), b.recentPacketIds[..], Packet(info, payload);
    assert stream == p + stream[|p|..];
    hide FinalHeader, Packet, Carries, AckRequested, Fits, Reaction, Sized, Seen, Remembered, Listens, Addressed, HasId;
    code := b.Receive(stream, cuts);
    AddressedTaken(dev, recent, info, payload, stream[|p|..], b.data[..]);
  }

  /** Device `a` composes a packet; its bytes reach device `b`, which awaits it, in batches of any size.
      The callback of `b` is called once, with the payload and the fields composed, and an
      acknowledgement goes out if and only if it was requested. */
  method Transmit(a: PJON, b: PJON, info: Info, payload: seq<byte>, cuts: nat -> nat) returns (code: int)
    requires a.Valid() && b.Valid() && a != b && Buffers(a) !! Buffers(b)
    requires |payload| >= 1 && b.halfDuplex && !b.router
    requires var p := Prepared(info, a.config, a.tx, a.port, a.packetIdSeed);
             && Sized(p, |payload|) && Fits(p, |payload|, a.data.Length) && Fits(p, |payload|, b.data.Length)
             && Awaits(b.Dev(), b.recentPacketIds[..], p, FinalHeader(p, |payload|))
    modifies a.data, a`packetIdSeed, a`errors, b.data, b.recentPacketIds, b`responses, b`lastPacketInfo, b`received
    ensures var p := old(Prepared(info, a.config, a.tx, a.port, a.packetIdSeed));
            var h := FinalHeader(p, |payload|);
            && code == ACK
            && b.received == old(b.received) + [(payload, b.lastPacketInfo)]
            && Carries(p, h, b.lastPacketInfo)
            && b.responses == old(b.responses) + if AckRequested(h) then 1 else 0
  {
    hide FinalHeader, Packet, Carries, AckRequested, Fits, Awaits, Prepared, Sized;
    ghost var p := Prepared(info, a.config, a.tx, a.port, a.packetIdSeed);
    var stream := ComposeStream(a, info, payload);
    code := ReceiveStream(b, stream, cuts, p, payload);
  }
}
