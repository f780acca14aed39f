/** What a PJON device does with incoming bytes, as plain values: when it gives up while reading,
    and how it judges a complete frame. */
module Reception {
  import opened Words
  import opened Packets
  import opened PacketCodec
  import Crc8

  const NAK := 21
  const BUSY := 666

  /** The settings of a device that reception depends on. */
  datatype Device = Device(tx: Endpoint, config: byte, port: uint16, router: bool, halfDuplex: bool)

  // ---------------------------------------------------------------- reading

  /** 1 if the length takes two bytes. */
  function LengthExtra(s: seq<byte>): nat
    requires |s| >= 2
  {
    if Extended(s[1]) then 1 else 0
  }

  /** The length a frame announces. */
  function StoredLength(s: seq<byte>): nat
    requires |s| >= 3 && (Extended(s[1]) ==> |s| >= 4)
  {
    if Extended(s[1]) then Word(s[2], s[3]) else ByteToInt(s[2])
  }

  predicate HeaderRejected(dev: Device, id: byte, h: byte) {
    || (!dev.router && Shared(dev.config) && !Shared(h))
    || (id == BROADCAST && AckRequested(h))
    || (Extended(h) && !HasCrc32(h))
    || (HasMac(h) && !HasCrc32(h))
    || (id != dev.tx.id && id != BROADCAST && !dev.router && !HasMac(h))
  }

  predicate LengthRejected(h: byte, length: nat, max: nat) {
    length < Overhead(h) + 1 || length >= max || (length > 15 && !HasCrc32(h))
  }

  /** The bus id a device that is not a router expects in shared packets. */
  function Home(dev: Device): BusId {
    if Shared(dev.config) then dev.tx.busId else LOCALHOST
  }

  predicate BusRejected(dev: Device, h: byte, b: byte, at: nat)
    requires at < 4
  {
    Shared(h) && !dev.router && !HasMac(h) && b != Home(dev)[at]
  }

  /** Reading byte i makes the device give up on the frame. */
  predicate GivesUp(dev: Device, s: seq<byte>, i: nat, max: nat)
    requires i < |s|
  {
    || (i == 1 && HeaderRejected(dev, s[0], s[1]))
    || (i >= 2 && i == 2 + LengthExtra(s) && LengthRejected(s[1], StoredLength(s), max))
    || (i >= 2 && 4 + LengthExtra(s) <= i < 8 + LengthExtra(s) && BusRejected(dev, s[1], s[i], i - 4 - LengthExtra(s)))
  }

  datatype Reading = GaveUp | Starved | Frame(length: nat)

  /** What reading a stream comes to: the device gives up at some byte, the stream ends early, or a
      frame of the announced length is in the buffer. */
  ghost function Read(dev: Device, s: seq<byte>, max: nat): Reading {
    if exists i :: 0 <= i < |s| && GivesUp(dev, s, i, max) then GaveUp
    else if |s| < 2 || |s| < 3 + LengthExtra(s) || |s| < StoredLength(s) then Starved
    else Frame(StoredLength(s))
  }

  // ---------------------------------------------------------------- recently seen packets

  /** What identifies a packet exchange: packet id, sender id, and the sender's bus in shared mode. */
  datatype Key = Key(id: uint16, sender: byte, bus: Option<BusId>)

  datatype Record = Record(header: byte, sender: byte, senderBus: BusId, id: uint16)

  function KeyOf(info: Info): Key {
    Key(info.id, info.tx.id, if Shared(info.header) then Some(info.tx.busId) else None)
  }

  function RecordKey(r: Record): Key {
    Key(r.id, r.sender, if Shared(r.header) then Some(r.senderBus) else None)
  }

  function RecordOf(info: Info): Record {
    Record(info.header, info.tx.id, info.tx.busId, info.id)
  }

  ghost predicate Known(recent: seq<Record>, info: Info) {
    exists i :: 0 <= i < |recent| && RecordKey(recent[i]) == KeyOf(info)
  }

  /** The newest record goes to the front, the oldest one is dropped. */
  function Save(recent: seq<Record>, info: Info): seq<Record>
    requires recent != []
  {
    [RecordOf(info)] + recent[..|recent| - 1]
  }

  // ---------------------------------------------------------------- judging

  /** What receiving a frame comes to: the result code, whether an acknowledgement went out, the info
      parsed, the payload handed to the callback, and the records afterwards. */
  datatype Outcome = Outcome(
    code: int, responded: bool, info: Option<Info>, payload: Option<seq<byte>>, recent: seq<Record>)

  predicate HeaderCrcOk(buffer: seq<byte>)
    requires |buffer| >= 5
  {
    Crc8.Of(buffer[..3 + LengthExtra(buffer)]) == buffer[3 + LengthExtra(buffer)]
  }

  predicate TrailerOk(buffer: seq<byte>, length: nat)
    requires |buffer| >= 5 && 5 <= length <= |buffer|
  {
    buffer[length - CrcOverhead(buffer[1])..length]
    == Trailer(buffer[1], buffer[..length - CrcOverhead(buffer[1])])
  }

  predicate MacOk(dev: Device, buffer: seq<byte>, length: nat)
    requires |buffer| >= 31
  {
    var h := buffer[1];
    HasMac(h) && length > 15 && !dev.router ==>
      Overhead(h) >= 16 && buffer[Overhead(h) - 16..Overhead(h) - 10] in {dev.tx.mac, NO_MAC}
  }

  ghost function Judge(dev: Device, recent: seq<Record>, buffer: seq<byte>, length: nat): Outcome
    requires |buffer| >= 35 && 5 <= length <= |buffer| && recent != []
    requires length >= Overhead(buffer[1])
  {
    if !HeaderCrcOk(buffer) || !TrailerOk(buffer, length) then Outcome(NAK, false, None, None, recent)
    else if !MacOk(dev, buffer, length) then Outcome(BUSY, false, None, None, recent)
    else
      var h := buffer[1];
      var responded := AckRequested(h) && buffer[0] != BROADCAST && dev.halfDuplex && !dev.router;
      var start := Overhead(h) - CrcOverhead(h);
      Conclude(dev, recent, responded, Parsed(buffer), buffer[start..][..length - Overhead(h)])
  }

  /** The part after the acknowledgement: duplicates and other ports are filtered out. */
  ghost function Conclude(dev: Device, recent: seq<Record>, responded: bool, info: Info, payload: seq<byte>): Outcome
    requires recent != []
  {
    var filtered := !dev.router && HasId(info.header);
    if filtered && Known(recent, info) then Outcome(ACK, responded, Some(info), None, recent)
    else
      var recent' := if filtered then Save(recent, info) else recent;
      if dev.port != NO_PORT && dev.port != info.port then Outcome(BUSY, responded, Some(info), None, recent')
      else Outcome(ACK, responded, Some(info), Some(payload), recent')
  }

  lemma LengthRoom(h: byte, length: nat, max: nat)
    requires !LengthRejected(h, length, max)
    ensures 6 <= length < max && Overhead(h) < length
  {
    hide Overhead, HasCrc32;
  }

  lemma FrameRead(dev: Device, s: seq<byte>, max: nat)
    requires Read(dev, s, max).Frame?
    ensures var n := Read(dev, s, max).length;
            && 6 <= n < max && n <= |s| && Overhead(s[1]) < n && n == StoredLength(s)
            && !HeaderRejected(dev, s[0], s[1])
  {
    hide Overhead, HasCrc32, Extended, StoredLength, HeaderRejected, BusRejected, LengthRejected;
    assert !GivesUp(dev, s, 1, max) && !GivesUp(dev, s, 2 + LengthExtra(s), max);
    LengthRoom(s[1], StoredLength(s), max);
  }

  /** What the buffer holds when a frame of n bytes was read over older contents. */
  function Filled(stream: seq<byte>, stale: seq<byte>, n: nat): (buffer: seq<byte>)
    requires n <= |stream| && n <= |stale|
    ensures |buffer| == |stale|
  {
    stream[..n] + stale[n..]
  }

  /** What a device makes of a stream of bytes: reading it into its buffer, over the older contents
      `stale`, and judging the frame. */
  ghost function Reaction(dev: Device, recent: seq<Record>, stream: seq<byte>, stale: seq<byte>): Outcome
    requires |stale| >= 35 && recent != []
  {
    match Read(dev, stream, |stale|)
    case GaveUp => Outcome(BUSY, false, None, None, recent)
    case Starved => Outcome(FAIL, false, None, None, recent)
    case Frame(n) =>
      FrameRead(dev, stream, |stale|);
      Judge(dev, recent, Filled(stream, stale, n), n)
  }

  /** The info of a stream a device accepts. */
  ghost function Accepted(dev: Device, stream: seq<byte>, stale: seq<byte>): Option<Info>
    requires |stale| >= 35
  {
    match Read(dev, stream, |stale|)
    case GaveUp => None
    case Starved => None
    case Frame(n) =>
      FrameRead(dev, stream, |stale|);
      var buffer := Filled(stream, stale, n);
      if HeaderCrcOk(buffer) && TrailerOk(buffer, n) && MacOk(dev, buffer, n) then Some(Parsed(buffer)) else None
  }

  /** What is not accepted leaves no trace; what is accepted is concluded by its info. */
  lemma ReactionIs(dev: Device, recent: seq<Record>, stream: seq<byte>, stale: seq<byte>)
    returns (responded: bool, payload: seq<byte>)
    requires |stale| >= 35 && recent != []
    ensures var o, info := Reaction(dev, recent, stream, stale), Accepted(dev, stream, stale);
            if info.Some? then o == Conclude(dev, recent, responded, info.value, payload) && o.responded == responded
            else !o.responded && o.info == None && o.payload == None && o.recent == recent
  {
    responded, payload := false, [];
    hide Read, Conclude, HeaderCrcOk, TrailerOk, MacOk, Parsed, Overhead, CrcOverhead, AckRequested, StoredLength;
    hide HeaderRejected;
    if Accepted(dev, stream, stale).Some? {
      FrameRead(dev, stream, |stale|);
      var n := Read(dev, stream, |stale|).length;
      var buffer := Filled(stream, stale, n);
      var h := buffer[1];
      responded := AckRequested(h) && buffer[0] != BROADCAST && dev.halfDuplex && !dev.router;
      payload := buffer[Overhead(h) - CrcOverhead(h)..][..n - Overhead(h)];
      ConcludeResponds(dev, recent, responded, Parsed(buffer), payload);
    }
  }

  lemma ConcludeResponds(dev: Device, recent: seq<Record>, responded: bool, info: Info, payload: seq<byte>)
    requires recent != []
    ensures Conclude(dev, recent, responded, info, payload).responded == responded
    ensures Conclude(dev, recent, responded, info, payload).info == Some(info)
  {
  }

  // ---------------------------------------------------------------- composed packets

  /** Who lets a composed packet through while reading it. */
  predicate Passes(dev: Device, info: Info, h: byte) {
    && (dev.router || info.rx.id == dev.tx.id || info.rx.id == BROADCAST || HasMac(h))
    && (dev.router || !Shared(dev.config) || Shared(h))
    && (Extended(h) ==> HasCrc32(h))
    && (Shared(h) && !dev.router && !HasMac(h) ==> info.rx.busId == Home(dev))
  }

  lemma ComposedHeader(info: Info, length: nat)
    requires length > 0
    ensures var h := FinalHeader(info, length);
            && (HasMac(h) ==> HasCrc32(h))
            && !(info.rx.id == BROADCAST && AckRequested(h))
            && (PacketLength(info, length) > 15 ==> HasCrc32(h))
  {
    FinalHeaderBits(info, length);
    hide FinalHeader, AckRequested;
  }

  lemma ComposedLength(info: Info, payload: seq<byte>)
    requires Sized(info, |payload|) && !Latched(info, |payload|)
    ensures |Packet(info, payload)| == PacketLength(info, |payload|)
  {
    PacketLengthExact(info, |payload|);
    hide FinalHeader, Head, Overhead, CrcOverhead, Latched;
  }

  lemma PrefixSplits(p: seq<byte>, s: seq<byte>)
    requires p <= s
    ensures s == p + s[|p|..]
  {
  }

  /** The front of a composed packet in a stream. */
  lemma ComposedFront(info: Info, payload: seq<byte>, s: seq<byte>)
    requires Sized(info, |payload|) && !Latched(info, |payload|) && Packet(info, payload) <= s
    ensures |s| >= 5 && s[0] == info.rx.id && s[1] == FinalHeader(info, |payload|)
    ensures StoredLength(s) == PacketLength(info, |payload|)
    ensures HeaderCrcOk(s)
  {
    var h := FinalHeader(info, |payload|);
    var n := PacketLength(info, |payload|);
    var extended := Extended(Requested(info, |payload|));
    var beyond := s[|Packet(info, payload)|..];
    var tail := AfterFields(info, payload, beyond);
    hide Packet, FinalHeader, Fields, Front, Head, Trailer, Extended, Requested, PacketLength, Word, Hi, Lo, ByteToInt;
    hide AfterFields, Latched;
    PrefixSplits(Packet(info, payload), s);
    PacketSplits(info, payload, beyond);
    FrontReads(info.rx.id, h, n, extended, s, Fields(info, h) + tail);
    ExtendedAgrees(info, |payload|);
    ComposedLength(info, payload);
    FinalHeaderBits(info, |payload|);
    RequestedBits(info, |payload|);
    WordRoundTrip(n);
    ShortLength(n);
  }

  /** A length of one byte is stored as that byte. */
  lemma ShortLength(n: uint16)
    ensures n <= 255 ==> ByteToInt(Lo(n)) == n
  {
    if n <= 255 { ByteRoundTrip(n); }
  }

  lemma ComposedBus(info: Info, payload: seq<byte>, s: seq<byte>)
    requires Sized(info, |payload|) && !Latched(info, |payload|) && Packet(info, payload) <= s
    ensures var h := FinalHeader(info, |payload|);
            RxBusAt(h) + |RxBus(info, h)| <= |s|
            && s[RxBusAt(h)..RxBusAt(h) + |RxBus(info, h)|] == RxBus(info, h)
  {
    var h := FinalHeader(info, |payload|);
    var beyond := s[|Packet(info, payload)|..];
    hide *;
    PrefixSplits(Packet(info, payload), s);
    FieldsAt(info, payload, beyond);
    FirstFieldLies(s, info, h, AfterFields(info, payload, beyond));
  }

  lemma FirstFieldLies(s: seq<byte>, info: Info, h: byte, rest: seq<byte>)
    requires RxBusAt(h) <= |s| && s[RxBusAt(h)..] == Fields(info, h) + rest
    ensures RxBusAt(h) + |RxBus(info, h)| <= |s|
    ensures s[RxBusAt(h)..RxBusAt(h) + |RxBus(info, h)|] == RxBus(info, h)
  {
    hide RxBusAt, RxBus, TxBus, Hops, TxId, PacketId, Port, Macs;
    var at, first := RxBusAt(h), RxBus(info, h);
    assert first <= s[at..];
    assert s[at..at + |first|] == s[at..][..|first|];
  }

  /** The k-th byte of the receiver's bus id is not the one the device expects. */
  predicate BusMismatch(dev: Device, s: seq<byte>, k: nat)
    requires |s| >= 2
  {
    k < 4 && 4 + LengthExtra(s) + k < |s| && BusRejected(dev, s[1], s[4 + LengthExtra(s) + k], k)
  }

  lemma BusRejectedSomewhere(dev: Device, s: seq<byte>, bus: BusId)
    requires |s| >= 8 && |s| >= 8 + LengthExtra(s) && s[4 + LengthExtra(s)..8 + LengthExtra(s)] == bus && Shared(s[1])
    ensures (exists k: nat :: BusMismatch(dev, s, k)) <==> !dev.router && !HasMac(s[1]) && bus != Home(dev)
  {
    var at := 4 + LengthExtra(s);
    hide Shared, HasMac, Home, LengthExtra, Extended;
    forall k | 0 <= k < 4 ensures s[at + k] == bus[k] { assert s[at..at + 4][k] == s[at + k]; }
    if !dev.router && !HasMac(s[1]) && bus != Home(dev) {
      var home := Home(dev);
      assert bus[0] != home[0] || bus[1] != home[1] || bus[2] != home[2] || bus[3] != home[3];
      var k :| 0 <= k < 4 && bus[k] != home[k];
      assert BusMismatch(dev, s, k);
    }
  }

  /** The three reasons to give up on a composed packet come down to one. */
  lemma ComposedGivesUp(dev: Device, info: Info, payload: seq<byte>, s: seq<byte>, max: nat)
    requires 1 <= |payload| && Sized(info, |payload|) && !Latched(info, |payload|) && Packet(info, payload) <= s
    requires PacketLength(info, |payload|) < max
    ensures (exists i :: 0 <= i < |s| && GivesUp(dev, s, i, max))
            <==> !Passes(dev, info, FinalHeader(info, |payload|))
  {
    var h := FinalHeader(info, |payload|);
    var at := RxBusAt(h);
    ComposedFront(info, payload, s);
    ComposedHeader(info, |payload|);
    ComposedBus(info, payload, s);
    assert at == 4 + LengthExtra(s);
    assert !LengthRejected(h, StoredLength(s), max);
    if Shared(h) { BusRejectedSomewhere(dev, s, info.rx.busId); }
    hide FinalHeader, PacketLength, Packet, RxBusAt, StoredLength, LengthRejected, Home, LengthExtra;
    hide Shared, HasTx, HasPort, HasCrc32, HasMac, HasId, AckRequested, Extended;
    GivesUpCases(dev, s, max);
  }

  lemma GivesUpCases(dev: Device, s: seq<byte>, max: nat)
    requires |s| >= 5 && !LengthRejected(s[1], StoredLength(s), max)
    ensures (exists i :: 0 <= i < |s| && GivesUp(dev, s, i, max)) <==>
            HeaderRejected(dev, s[0], s[1]) || exists k: nat :: BusMismatch(dev, s, k)
  {
    hide HeaderRejected, LengthRejected, StoredLength, Extended, BusRejected;
    if HeaderRejected(dev, s[0], s[1]) { assert GivesUp(dev, s, 1, max); }
    if exists k: nat :: BusMismatch(dev, s, k) {
      var k: nat :| BusMismatch(dev, s, k);
      assert GivesUp(dev, s, 4 + LengthExtra(s) + k, max);
    }
    if exists i :: 0 <= i < |s| && GivesUp(dev, s, i, max) {
      var i :| 0 <= i < |s| && GivesUp(dev, s, i, max);
      if !HeaderRejected(dev, s[0], s[1]) { assert BusMismatch(dev, s, i - 4 - LengthExtra(s)); }
    }
  }

  /** Reading any stream that begins with a composed packet comes to the packet or to giving up, and
      which of the two is decided by the addressing alone. */
  lemma ComposedRead(dev: Device, info: Info, payload: seq<byte>, s: seq<byte>, max: nat)
    requires 1 <= |payload| && Sized(info, |payload|) && !Latched(info, |payload|) && Packet(info, payload) <= s
    requires PacketLength(info, |payload|) < max
    ensures Read(dev, s, max)
            == if Passes(dev, info, FinalHeader(info, |payload|)) then Frame(|Packet(info, payload)|) else GaveUp
  {
    ComposedFront(info, payload, s);
    ComposedLength(info, payload);
    ComposedGivesUp(dev, info, payload, s, max);
    hide FinalHeader, PacketLength, Packet, StoredLength, Passes, GivesUp, Latched;
  }

  // ---------------------------------------------------------------- judging composed packets

  lemma ComposedTrailer(info: Info, payload: seq<byte>, buffer: seq<byte>)
    requires Sized(info, |payload|) && !Latched(info, |payload|) && Packet(info, payload) <= buffer
    requires |buffer| >= 5 && 5 <= |Packet(info, payload)|
    ensures TrailerOk(buffer, |Packet(info, payload)|)
  {
    var h, body := FinalHeader(info, |payload|), Head(info, |payload|) + payload + [];
    assert Packet(info, payload) == body + Trailer(h, body);
    hide FinalHeader, Packet, Head, Trailer, TrailerOk, Latched, CrcOverhead, StoredLength, HeaderCrcOk;
    ComposedFront(info, payload, buffer);
    TrailerPlaced(buffer, h, body);
  }

  lemma TrailerPlaced(buffer: seq<byte>, h: byte, body: seq<byte>)
    requires |buffer| >= 5 && buffer[1] == h && body + Trailer(h, body) <= buffer
    requires |body| + CrcOverhead(h) >= 5
    ensures TrailerOk(buffer, |body| + CrcOverhead(h))
  {
    hide Trailer, CrcOverhead;
    var n := |body| + CrcOverhead(h);
    assert buffer[..n] == body + Trailer(h, body);
    assert buffer[..|body|] == buffer[..n][..|body|];
    assert buffer[|body|..n] == buffer[..n][|body|..];
  }

  lemma ComposedMac(dev: Device, info: Info, payload: seq<byte>, buffer: seq<byte>)
    requires 1 <= |payload| && Sized(info, |payload|) && !Latched(info, |payload|) && Packet(info, payload) <= buffer
    requires |buffer| >= 35
    ensures MacOk(dev, buffer, |Packet(info, payload)|)
            <==> (HasMac(FinalHeader(info, |payload|)) && !dev.router ==> info.rx.mac in {dev.tx.mac, NO_MAC})
  {
    var h := FinalHeader(info, |payload|);
    hide *;
    ComposedFront(info, payload, buffer);
    ComposedLength(info, payload);
    if HasMac(h) { ComposedMacLies(info, payload, buffer); }
    LengthOver(info, |payload|);
    MacOkMeans(dev, buffer, |Packet(info, payload)|, info.rx.mac);
  }

  lemma LengthOver(info: Info, length: nat)
    ensures PacketLength(info, length) == length + Overhead(FinalHeader(info, length))
  {
  }

  lemma ComposedMacLies(info: Info, payload: seq<byte>, buffer: seq<byte>)
    requires 1 <= |payload| && Sized(info, |payload|) && !Latched(info, |payload|) && Packet(info, payload) <= buffer
    requires |buffer| >= 35 && buffer[1] == FinalHeader(info, |payload|) && HasMac(buffer[1])
    ensures var o := Overhead(buffer[1]); o >= 16 && buffer[o - 16..o - 10] == info.rx.mac
  {
    var h := FinalHeader(info, |payload|);
    hide FinalHeader, Packet, Latched, MacsAt, HasMac, HasCrc32, Overhead, Parsed, Sized;
    PrefixSplits(Packet(info, payload), buffer);
    ComposedHeader(info, |payload|);
    MacPosition(h);
    ParseInvertsCompose(info, payload, buffer[|Packet(info, payload)|..]);
    ParsedMac(buffer);
  }

  lemma MacOkMeans(dev: Device, buffer: seq<byte>, length: nat, mac: Mac)
    requires |buffer| >= 35
    requires var o := Overhead(buffer[1]);
             HasMac(buffer[1]) ==> o >= 16 && length > 15 && buffer[o - 16..o - 10] == mac
    ensures MacOk(dev, buffer, length) <==> (HasMac(buffer[1]) && !dev.router ==> mac in {dev.tx.mac, NO_MAC})
  {
    hide HasMac, Overhead;
  }

  lemma ParsedMac(buffer: seq<byte>)
    requires |buffer| >= 31
    ensures Parsed(buffer).rx.mac == buffer[MacsAt(buffer[1])..MacsAt(buffer[1]) + 6]
  {
  }

  lemma MacPosition(h: byte)
    ensures HasMac(h) && HasCrc32(h) ==> Overhead(h) >= 16 && MacsAt(h) == Overhead(h) - 16
    ensures HasMac(h) && HasCrc32(h) ==> Overhead(h) > 15
  {
    hide Shared, HasTx, HasPort, HasCrc32, HasMac, HasId, AckRequested, Extended;
  }

  /** Who gets a composed packet, in terms of its fields: the addressing rules passed while reading,
      and the receiver's MAC address where one is included. */
  predicate Addressed(dev: Device, info: Info, h: byte) {
    Passes(dev, info, h) && (HasMac(h) && !dev.router ==> info.rx.mac in {dev.tx.mac, NO_MAC})
  }

  /** An addressed composed packet passes all three checks of a received frame. */
  lemma ComposedAccepted(dev: Device, info: Info, payload: seq<byte>, buffer: seq<byte>)
    requires 1 <= |payload| && Sized(info, |payload|) && !Latched(info, |payload|) && Packet(info, payload) <= buffer
    requires |buffer| >= 35 && Addressed(dev, info, FinalHeader(info, |payload|))
    ensures buffer[0] == info.rx.id && buffer[1] == FinalHeader(info, |payload|)
    ensures |Packet(info, payload)| == Overhead(buffer[1]) + |payload|
    ensures HeaderCrcOk(buffer) && TrailerOk(buffer, |Packet(info, payload)|)
    ensures MacOk(dev, buffer, |Packet(info, payload)|)
  {
    hide FinalHeader, Packet, Latched, HasMac, Overhead, Passes, StoredLength, HeaderCrcOk, TrailerOk, MacOk;
    ComposedFront(info, payload, buffer);
    ComposedLength(info, payload);
    ComposedTrailer(info, payload, buffer);
    ComposedMac(dev, info, payload, buffer);
  }

  lemma ComposedReads(info: Info, payload: seq<byte>, buffer: seq<byte>)
    requires Sized(info, |payload|) && !Latched(info, |payload|) && Packet(info, payload) <= buffer
    requires |buffer| >= 31 && buffer[1] == FinalHeader(info, |payload|)
    ensures var h := buffer[1];
            && Carries(info, h, Parsed(buffer))
            && Overhead(h) - CrcOverhead(h) + |payload| <= |buffer|
            && buffer[Overhead(h) - CrcOverhead(h)..][..|payload|] == payload
  {
    hide FinalHeader, Packet, Latched, Overhead, CrcOverhead, Carries, Parsed;
    var beyond := buffer[|Packet(info, payload)|..];
    assert buffer == Packet(info, payload) + beyond;
    ParseInvertsCompose(info, payload, beyond);
  }

  /** The whole path from composing to the callback. A device that reads a composed packet into its
      buffer acknowledges it exactly when asked to, and hands over exactly the payload and the fields
      composed; only a packet seen before or for another port is held back. */
  lemma ComposedJudged(dev: Device, recent: seq<Record>, info: Info, payload: seq<byte>, buffer: seq<byte>)
    requires 1 <= |payload| && Sized(info, |payload|) && !Latched(info, |payload|) && Packet(info, payload) <= buffer
    requires |buffer| >= 35 && recent != []
    requires Addressed(dev, info, FinalHeader(info, |payload|))
    ensures |Packet(info, payload)| >= Overhead(buffer[1])
    ensures var h := FinalHeader(info, |payload|);
            var responded := AckRequested(h) && dev.halfDuplex && !dev.router;
            && Judge(dev, recent, buffer, |Packet(info, payload)|)
               == Conclude(dev, recent, responded, Parsed(buffer), payload)
            && Carries(info, h, Parsed(buffer))
  {
    hide FinalHeader, Packet, Latched, Overhead, CrcOverhead, Carries, Parsed, Addressed, AckRequested, HasCrc32;
    hide Judge, Conclude, HeaderCrcOk, TrailerOk, MacOk, PacketLength, HasMac;
    ComposedAccepted(dev, info, payload, buffer);
    ComposedReads(info, payload, buffer);
    ComposedHeader(info, |payload|);
    JudgeAccepts(dev, recent, buffer, |Packet(info, payload)|, payload);
  }

  lemma JudgeAccepts(dev: Device, recent: seq<Record>, buffer: seq<byte>, length: nat, payload: seq<byte>)
    requires |buffer| >= 35 && 5 <= length <= |buffer| && recent != [] && length == Overhead(buffer[1]) + |payload|
    requires HeaderCrcOk(buffer) && TrailerOk(buffer, length) && MacOk(dev, buffer, length)
    requires buffer[Overhead(buffer[1]) - CrcOverhead(buffer[1])..][..|payload|] == payload
    ensures var responded := AckRequested(buffer[1]) && buffer[0] != BROADCAST && dev.halfDuplex && !dev.router;
            Judge(dev, recent, buffer, length) == Conclude(dev, recent, responded, Parsed(buffer), payload)
  {
    hide Parsed, Overhead, CrcOverhead, HeaderCrcOk, TrailerOk, MacOk, Conclude, AckRequested;
  }

  /** A composed packet that passes the addressing rules but is meant for another MAC address is
      dropped without an acknowledgement. */
  lemma ComposedOtherMac(dev: Device, recent: seq<Record>, info: Info, payload: seq<byte>, buffer: seq<byte>)
    requires 1 <= |payload| && Sized(info, |payload|) && !Latched(info, |payload|) && Packet(info, payload) <= buffer
    requires |buffer| >= 35 && recent != []
    requires var h := FinalHeader(info, |payload|); Passes(dev, info, h) && !Addressed(dev, info, h)
    ensures |Packet(info, payload)| >= 5 && |Packet(info, payload)| >= Overhead(buffer[1])
    ensures Judge(dev, recent, buffer, |Packet(info, payload)|) == Outcome(BUSY, false, None, None, recent)
  {
    ComposedFront(info, payload, buffer);
    ComposedLength(info, payload);
    ComposedTrailer(info, payload, buffer);
    ComposedMac(dev, info, payload, buffer);
    hide FinalHeader, Packet, Latched, HasMac, Overhead, Passes, HeaderCrcOk, TrailerOk, MacOk;
  }
}
