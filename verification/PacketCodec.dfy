/** Composing and parsing packets: the bytes composed for an Info and a payload, what parsing reads
    back, and that one inverts the other. */
module PacketCodec {
  import opened Words
  import opened Packets
  import Crc8
  import Crc32

  // ---------------------------------------------------------------- the composed bytes

  function LengthBytes(n: uint16, extended: bool): seq<byte> {
    if extended then [Hi(n), Lo(n)] else [Lo(n)]
  }

  /** Receiver id, header, length, and the CRC8 over them. */
  function Front(id: byte, h: byte, n: uint16, extended: bool): (s: seq<byte>)
    ensures |s| == if extended then 5 else 4
  {
    var f := [id, h] + LengthBytes(n, extended);
    f + [Crc8.Of(f)]
  }

  function RxBus(info: Info, h: byte): seq<byte> { if Shared(h) then info.rx.busId else [] }
  function TxBus(info: Info, h: byte): seq<byte> { if Shared(h) && HasTx(h) then info.tx.busId else [] }
  function Hops(info: Info, h: byte): seq<byte> { if Shared(h) then [info.hops] else [] }
  function TxId(info: Info, h: byte): seq<byte> { if HasTx(h) then [info.tx.id] else [] }
  function PacketId(info: Info, h: byte): seq<byte> { if HasId(h) then [Hi(info.id), Lo(info.id)] else [] }
  function Port(info: Info, h: byte): seq<byte> { if HasPort(h) then [Hi(info.port), Lo(info.port)] else [] }
  function Macs(info: Info, h: byte): seq<byte> { if HasMac(h) then info.rx.mac + info.tx.mac else [] }

  /** The optional fields the header announces, in the order of the protocol. */
  function Fields(info: Info, h: byte): seq<byte> {
    RxBus(info, h) + (TxBus(info, h) + (Hops(info, h) + (TxId(info, h) +
      (PacketId(info, h) + (Port(info, h) + Macs(info, h))))))
  }

  /** Everything before the payload. */
  function Head(info: Info, length: nat): seq<byte>
    requires Sized(info, length)
  {
    var h := FinalHeader(info, length);
    Front(info.rx.id, h, PacketLength(info, length), Extended(Requested(info, length))) + Fields(info, h)
  }

  function Trailer(h: byte, body: seq<byte>): (s: seq<byte>)
    ensures |s| == CrcOverhead(h)
  {
    if HasCrc32(h) then Crc32.BigEndian(Crc32.Of(body)) else [Crc8.Of(body)]
  }

  /** The bytes of a packet. `stale` stands for bytes of the destination left between the payload and
      the CRC, of which there are none unless the length bytes were latched. */
  function Packet(info: Info, payload: seq<byte>, stale: seq<byte> := []): seq<byte>
    requires Sized(info, |payload|)
  {
    var body := Head(info, |payload|) + payload + stale;
    body + Trailer(FinalHeader(info, |payload|), body)
  }

  lemma FieldsLength(info: Info, h: byte)
    ensures |Fields(info, h)| + (if Extended(h) then 5 else 4) == Overhead(h) - CrcOverhead(h)
  {
    hide Shared, HasTx, HasMac, HasPort, HasCrc32, Extended, HasId;
  }

  /** The fields, payload and CRC add up to the stored length, and the payload starts where the
      receiver looks for it, unless the length bytes were latched: then one byte is missing. */
  lemma PacketLengthExact(info: Info, length: nat)
    requires Sized(info, length)
    ensures var h := FinalHeader(info, length);
            |Head(info, length)| == Overhead(h) - CrcOverhead(h) - (if Latched(info, length) then 1 else 0)
  {
    hide Fields, FinalHeader, Requested, Overhead, CrcOverhead, Extended;
    FieldsLength(info, FinalHeader(info, length));
    FinalHeaderBits(info, length);
    RequestedBits(info, length);
  }

  // ---------------------------------------------------------------- parsing

  /** Where each field lies, by the header alone. */
  function RxBusAt(h: byte): nat { if Extended(h) then 5 else 4 }
  function TxBusAt(h: byte): nat { RxBusAt(h) + if Shared(h) then 4 else 0 }
  function HopsAt(h: byte): nat { TxBusAt(h) + if Shared(h) && HasTx(h) then 4 else 0 }
  function TxIdAt(h: byte): nat { HopsAt(h) + if Shared(h) then 1 else 0 }
  function PacketIdAt(h: byte): nat { TxIdAt(h) + if HasTx(h) then 1 else 0 }
  function PortAt(h: byte): nat { PacketIdAt(h) + if HasId(h) then 2 else 0 }
  function MacsAt(h: byte): (n: nat)
    ensures n <= 19
  {
    PortAt(h) + if HasPort(h) then 2 else 0
  }

  /** What parsing a receive buffer yields. The two MAC addresses are read whether the header
      announces them or not. */
  function Parsed(p: seq<byte>): Info
    requires |p| >= 31
  {
    var h := p[1];
    var rxBus := if Shared(h) then p[RxBusAt(h)..RxBusAt(h) + 4] else LOCALHOST;
    var txBus := if Shared(h) && HasTx(h) then p[TxBusAt(h)..TxBusAt(h) + 4] else LOCALHOST;
    var txId := if HasTx(h) then p[TxIdAt(h)] else NOT_ASSIGNED;
    var macs := MacsAt(h);
    var rxMac, txMac := p[macs..macs + 6], p[macs + 6..macs + 12];
    assert |rxMac| == 6 && |txMac| == 6;
    Info(
      Endpoint(txId, txBus, txMac),
      Endpoint(p[0], rxBus, rxMac),
      h,
      if Shared(h) then p[HopsAt(h)] else 0,
      if HasId(h) then Word(p[PacketIdAt(h)], p[PacketIdAt(h) + 1]) else 0,
      if HasPort(h) then Word(p[PortAt(h)], p[PortAt(h) + 1]) else NO_PORT)
  }

  /** `parsed` carries every field of `info` that the header h includes, and the defaults for the
      others; the MAC addresses mean something only under the MAC bit. */
  predicate Carries(info: Info, h: byte, parsed: Info) {
    && parsed.header == h
    && parsed.rx.id == info.rx.id
    && parsed.rx.busId == (if Shared(h) then info.rx.busId else LOCALHOST)
    && parsed.tx.busId == (if Shared(h) && HasTx(h) then info.tx.busId else LOCALHOST)
    && parsed.hops == (if Shared(h) then info.hops else 0)
    && parsed.tx.id == (if HasTx(h) then info.tx.id else NOT_ASSIGNED)
    && parsed.id == (if HasId(h) then info.id else 0)
    && parsed.port == (if HasPort(h) then info.port else NO_PORT)
    && (HasMac(h) ==> parsed.rx.mac == info.rx.mac && parsed.tx.mac == info.tx.mac)
  }

  lemma PeelField(p: seq<byte>, at: nat, a: seq<byte>, b: seq<byte>, rest: seq<byte>)
    requires at <= |p| && p[at..] == (a + b) + rest
    ensures at + |a| <= |p| && p[at..at + |a|] == a && p[at + |a|..] == b + rest
  {
    assert (a + b) + rest == a + (b + rest);
    assert p[at..][..|a|] == a;
    assert p[at..][|a|..] == b + rest;
  }

  lemma LastField(p: seq<byte>, at: nat, a: seq<byte>, rest: seq<byte>)
    requires at <= |p| && p[at..] == a + rest
    ensures at + |a| <= |p| && p[at..at + |a|] == a
  {
    assert p[at..][..|a|] == a;
  }

  lemma FieldLengths(info: Info, h: byte)
    ensures RxBusAt(h) + |RxBus(info, h)| == TxBusAt(h) && TxBusAt(h) + |TxBus(info, h)| == HopsAt(h)
    ensures HopsAt(h) + |Hops(info, h)| == TxIdAt(h) && TxIdAt(h) + |TxId(info, h)| == PacketIdAt(h)
    ensures PacketIdAt(h) + |PacketId(info, h)| == PortAt(h) && PortAt(h) + |Port(info, h)| == MacsAt(h)
  {
    hide Shared, HasTx, HasMac, HasPort, HasCrc32, Extended, HasId;
  }

  /** All fields of a packet lie where the header says. */
  lemma FieldsLie(p: seq<byte>, info: Info, h: byte, rest: seq<byte>)
    requires RxBusAt(h) <= |p| && p[RxBusAt(h)..] == Fields(info, h) + rest
    ensures p[RxBusAt(h)..TxBusAt(h)] == RxBus(info, h)
    ensures p[TxBusAt(h)..HopsAt(h)] == TxBus(info, h)
    ensures p[HopsAt(h)..TxIdAt(h)] == Hops(info, h)
    ensures p[TxIdAt(h)..PacketIdAt(h)] == TxId(info, h)
    ensures p[PacketIdAt(h)..PortAt(h)] == PacketId(info, h)
    ensures p[PortAt(h)..MacsAt(h)] == Port(info, h)
    ensures MacsAt(h) + |Macs(info, h)| <= |p| && p[MacsAt(h)..MacsAt(h) + |Macs(info, h)|] == Macs(info, h)
  {
    FieldsSplit(info, h);
    hide *;
    FrontFieldsLie(p, info, h, rest);
    BackFieldsLie(p, info, h, rest);
  }

  function BackFields(info: Info, h: byte): seq<byte> {
    TxId(info, h) + (PacketId(info, h) + (Port(info, h) + Macs(info, h)))
  }

  lemma FieldsSplit(info: Info, h: byte)
    ensures Fields(info, h) == RxBus(info, h) + (TxBus(info, h) + (Hops(info, h) + BackFields(info, h)))
  {
    hide RxBus, TxBus, Hops, TxId, PacketId, Port, Macs;
  }

  lemma FrontFieldsLie(p: seq<byte>, info: Info, h: byte, rest: seq<byte>)
    requires RxBusAt(h) <= |p|
    requires p[RxBusAt(h)..] == RxBus(info, h) + (TxBus(info, h) + (Hops(info, h) + BackFields(info, h))) + rest
    ensures p[RxBusAt(h)..TxBusAt(h)] == RxBus(info, h)
    ensures p[TxBusAt(h)..HopsAt(h)] == TxBus(info, h)
    ensures p[HopsAt(h)..TxIdAt(h)] == Hops(info, h)
    ensures TxIdAt(h) <= |p| && p[TxIdAt(h)..] == BackFields(info, h) + rest
  {
    FieldLengths(info, h);
    hide *;
    var f4 := Hops(info, h) + BackFields(info, h);
    PeelField(p, RxBusAt(h), RxBus(info, h), TxBus(info, h) + f4, rest);
    PeelField(p, TxBusAt(h), TxBus(info, h), f4, rest);
    PeelField(p, HopsAt(h), Hops(info, h), BackFields(info, h), rest);
  }

  lemma BackFieldsLie(p: seq<byte>, info: Info, h: byte, rest: seq<byte>)
    requires TxIdAt(h) <= |p| && p[TxIdAt(h)..] == BackFields(info, h) + rest
    ensures p[TxIdAt(h)..PacketIdAt(h)] == TxId(info, h)
    ensures p[PacketIdAt(h)..PortAt(h)] == PacketId(info, h)
    ensures p[PortAt(h)..MacsAt(h)] == Port(info, h)
    ensures MacsAt(h) + |Macs(info, h)| <= |p| && p[MacsAt(h)..MacsAt(h) + |Macs(info, h)|] == Macs(info, h)
  {
    FieldLengths(info, h);
    assert BackFields(info, h) == TxId(info, h) + (PacketId(info, h) + (Port(info, h) + Macs(info, h)));
    hide *;
    var f0 := Macs(info, h);
    var f1 := Port(info, h) + f0;
    PeelField(p, TxIdAt(h), TxId(info, h), PacketId(info, h) + f1, rest);
    PeelField(p, PacketIdAt(h), PacketId(info, h), f1, rest);
    PeelField(p, PortAt(h), Port(info, h), f0, rest);
    LastField(p, MacsAt(h), f0, rest);
  }

  /** A slice of one or two known bytes gives those bytes. */
  lemma SliceBytes(p: seq<byte>, at: nat, s: seq<byte>)
    requires at + |s| <= |p| && p[at..at + |s|] == s
    ensures forall i :: 0 <= i < |s| ==> p[at + i] == s[i]
  {
    forall i | 0 <= i < |s| ensures p[at + i] == s[i] { assert p[at..at + |s|][i] == p[at + i]; }
  }

  lemma EndpointsParse(p: seq<byte>, info: Info, h: byte, rest: seq<byte>)
    requires |p| >= 31 && p[1] == h && p[RxBusAt(h)..] == Fields(info, h) + rest
    ensures var q := Parsed(p);
            && q.rx.busId == (if Shared(h) then info.rx.busId else LOCALHOST)
            && q.tx.busId == (if Shared(h) && HasTx(h) then info.tx.busId else LOCALHOST)
            && (HasMac(h) ==> q.rx.mac == info.rx.mac && q.tx.mac == info.tx.mac)
  {
    FieldsLie(p, info, h, rest);
    hide Fields, HasPort, HasCrc32, Extended, HasId, Word;
    if HasMac(h) { HalvesOf(p, MacsAt(h), info.rx.mac, info.tx.mac); }
  }

  lemma HalvesOf(p: seq<byte>, at: nat, a: Mac, b: Mac)
    requires at + 12 <= |p| && p[at..at + 12] == a + b
    ensures p[at..at + 6] == a && p[at + 6..at + 12] == b
  {
    assert p[at..at + 12][..6] == a && p[at..at + 12][6..] == b;
  }

  lemma BytesParse(p: seq<byte>, info: Info, h: byte, rest: seq<byte>)
    requires |p| >= 31 && p[1] == h && p[RxBusAt(h)..] == Fields(info, h) + rest
    ensures Parsed(p).hops == (if Shared(h) then info.hops else 0)
    ensures Parsed(p).tx.id == (if HasTx(h) then info.tx.id else NOT_ASSIGNED)
  {
    FieldsLie(p, info, h, rest);
    FieldLengths(info, h);
    SliceBytes(p, HopsAt(h), Hops(info, h));
    SliceBytes(p, TxIdAt(h), TxId(info, h));
    hide Fields, RxBusAt, TxBusAt, HopsAt, TxIdAt, PacketIdAt, PortAt, MacsAt, RxBus, TxBus, Macs, PacketId, Port;
    hide Shared, HasTx, HasMac, HasPort, HasCrc32, Extended, HasId, Word;
  }

  lemma WordAt(p: seq<byte>, at: nat, w: uint16)
    requires at + 2 <= |p| && p[at..at + 2] == [Hi(w), Lo(w)]
    ensures Word(p[at], p[at + 1]) == w
  {
    WordRoundTrip(w);
    SliceBytes(p, at, [Hi(w), Lo(w)]);
    hide Hi, Lo, Word;
  }

  lemma WordsParse(p: seq<byte>, info: Info, h: byte, rest: seq<byte>)
    requires |p| >= 31 && p[1] == h && p[RxBusAt(h)..] == Fields(info, h) + rest
    ensures Parsed(p).id == (if HasId(h) then info.id else 0)
    ensures Parsed(p).port == (if HasPort(h) then info.port else NO_PORT)
  {
    assert RxBusAt(h) <= 5;
    hide *;
    FieldsLie(p, info, h, rest);
    ParsedWords(p);
    if HasId(h) { IdAt(p, info, h); }
    if HasPort(h) { PortLies(p, info, h); }
  }

  lemma IdAt(p: seq<byte>, info: Info, h: byte)
    requires |p| >= 31 && HasId(h) && p[PacketIdAt(h)..PortAt(h)] == PacketId(info, h)
    ensures Word(p[PacketIdAt(h)], p[PacketIdAt(h) + 1]) == info.id
  {
    hide HasId, Word, Hi, Lo;
    WordAt(p, PacketIdAt(h), info.id);
  }

  lemma PortLies(p: seq<byte>, info: Info, h: byte)
    requires |p| >= 31 && HasPort(h) && p[PortAt(h)..MacsAt(h)] == Port(info, h)
    ensures Word(p[PortAt(h)], p[PortAt(h) + 1]) == info.port
  {
    hide PacketIdAt, HasPort, Word, Hi, Lo;
    WordAt(p, PortAt(h), info.port);
  }

  lemma ParsedWords(p: seq<byte>)
    requires |p| >= 31
    ensures var h := p[1];
            && PacketIdAt(h) + 1 < |p| && PortAt(h) + 1 < |p|
            && Parsed(p).id == (if HasId(h) then Word(p[PacketIdAt(h)], p[PacketIdAt(h) + 1]) else 0)
            && Parsed(p).port == (if HasPort(h) then Word(p[PortAt(h)], p[PortAt(h) + 1]) else NO_PORT)
  {
    hide Word, HasTx, HasMac, HasCrc32, Shared;
  }

  lemma FieldsParse(p: seq<byte>, info: Info, h: byte, rest: seq<byte>)
    requires |p| >= 31 && p[0] == info.rx.id && p[1] == h && p[RxBusAt(h)..] == Fields(info, h) + rest
    ensures Carries(info, h, Parsed(p))
  {
    EndpointsParse(p, info, h, rest);
    BytesParse(p, info, h, rest);
    WordsParse(p, info, h, rest);
    hide Fields, RxBusAt, TxBusAt, HopsAt, TxIdAt, PacketIdAt, PortAt, MacsAt;
    hide Shared, HasTx, HasMac, HasPort, HasCrc32, Extended, HasId, Word, Hi, Lo;
  }

  /** The front of a packet, whatever follows it. */
  lemma FrontReads(id: byte, h: byte, n: uint16, extended: bool, p: seq<byte>, rest: seq<byte>)
    requires p == Front(id, h, n, extended) + rest
    ensures |p| >= 4 && p[0] == id && p[1] == h
    ensures var k := if extended then 5 else 4; |p| >= k && p[k..] == rest
    ensures if extended then p[2] == Hi(n) && p[3] == Lo(n) && Crc8.Of(p[..4]) == p[4]
            else p[2] == Lo(n) && Crc8.Of(p[..3]) == p[3]
  {
    hide Hi, Lo;
    var f := [id, h] + LengthBytes(n, extended);
    assert p[..|f|] == f;
  }

  /** What follows the fields of a packet in a buffer. */
  function AfterFields(info: Info, payload: seq<byte>, beyond: seq<byte>): seq<byte>
    requires Sized(info, |payload|)
  {
    payload + (Trailer(FinalHeader(info, |payload|), Head(info, |payload|) + payload + []) + beyond)
  }

  /** Parsing a receive buffer that begins with a composed packet gives back every field its header
      includes, and the payload lies where the receiver looks for it. */
  lemma ParseInvertsCompose(info: Info, payload: seq<byte>, beyond: seq<byte>)
    requires Sized(info, |payload|) && !Latched(info, |payload|)
    requires |Packet(info, payload) + beyond| >= 31
    ensures var h := FinalHeader(info, |payload|);
            var p := Packet(info, payload) + beyond;
            && Carries(info, h, Parsed(p))
            && Overhead(h) - CrcOverhead(h) + |payload| <= |p|
            && p[Overhead(h) - CrcOverhead(h)..][..|payload|] == payload
  {
    var h := FinalHeader(info, |payload|);
    var tail := AfterFields(info, payload, beyond);
    var p := Packet(info, payload) + beyond;
    FieldsAt(info, payload, beyond);
    FieldsLength(info, h);
    hide Packet, FinalHeader, Fields, Parsed, Overhead, CrcOverhead, Trailer, Carries;
    FieldsParse(p, info, h, tail);
    PayloadFollows(p, RxBusAt(h), Fields(info, h), payload, tail[|payload|..]);
  }

  lemma PayloadFollows(p: seq<byte>, at: nat, fields: seq<byte>, payload: seq<byte>, rest: seq<byte>)
    requires at <= |p| && p[at..] == fields + (payload + rest)
    ensures at + |fields| + |payload| <= |p| && p[at + |fields|..][..|payload|] == payload
  {
    assert p[at..][|fields|..] == payload + rest;
  }

  /** Where the final header says the fields begin, they do. */
  lemma FieldsAt(info: Info, payload: seq<byte>, beyond: seq<byte>)
    requires Sized(info, |payload|) && !Latched(info, |payload|)
    ensures var h := FinalHeader(info, |payload|);
            var tail := AfterFields(info, payload, beyond);
            var p := Packet(info, payload) + beyond;
            && RxBusAt(h) <= |p| && p[0] == info.rx.id && p[1] == h
            && p[RxBusAt(h)..] == Fields(info, h) + tail
  {
    var h := FinalHeader(info, |payload|);
    var extended := Extended(Requested(info, |payload|));
    var tail := AfterFields(info, payload, beyond);
    PacketSplits(info, payload, beyond);
    FrontReads(info.rx.id, h, PacketLength(info, |payload|), extended, Packet(info, payload) + beyond,
               Fields(info, h) + tail);
    ExtendedAgrees(info, |payload|);
    hide Packet, FinalHeader, Fields, Front, Head, Trailer, Extended, Requested, PacketLength, AfterFields;
  }

  /** Unless the latch slipped, the length bytes are as many as the header says. */
  lemma ExtendedAgrees(info: Info, length: nat)
    ensures Latched(info, length) <==>
            Extended(FinalHeader(info, length)) != Extended(Requested(info, length))
  {
    FinalHeaderBits(info, length);
    RequestedBits(info, length);
    hide Requested, FinalHeader, Extended;
  }

  lemma PacketSplits(info: Info, payload: seq<byte>, beyond: seq<byte>)
    requires Sized(info, |payload|)
    ensures var h := FinalHeader(info, |payload|);
            var front := Front(info.rx.id, h, PacketLength(info, |payload|), Extended(Requested(info, |payload|)));
            var tail := AfterFields(info, payload, beyond);
            Packet(info, payload) + beyond == front + (Fields(info, h) + tail)
  {
    hide Trailer, Fields, Front;
    var head := Head(info, |payload|);
    assert head + payload + [] == head + payload;
  }
}
