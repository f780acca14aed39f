/** The bytes of a composed packet one by one: what section "Header configuration" of PJON v4.0 and those
    after it lay down, by header masks and positions alone. */
module Layout {
  import opened Words
  import opened Packets
  import opened PacketCodec
  import opened Reception

  /** Mode, sender information, acknowledgement, MAC, port, CRC, extended length and packet id, from the
      lowest bit up. */
  lemma HeaderMasks(h: byte)
    ensures (Shared(h) <==> h & 0x01 != 0) && (HasTx(h) <==> h & 0x02 != 0)
    ensures (AckRequested(h) <==> h & 0x04 != 0) && (HasMac(h) <==> h & 0x08 != 0)
    ensures (HasPort(h) <==> h & 0x10 != 0) && (HasCrc32(h) <==> h & 0x20 != 0)
    ensures (Extended(h) <==> h & 0x40 != 0) && (HasId(h) <==> h & 0x80 != 0)
  {
  }

  /** Where the optional fields begin, and where the packet id, the port, the MAC addresses and the payload
      are. */
  function Start(h: byte): nat { if h & 0x40 != 0 then 5 else 4 }

  function IdPlace(h: byte): nat {
    Start(h) + if h & 0x01 != 0 then if h & 0x02 != 0 then 10 else 5 else if h & 0x02 != 0 then 1 else 0
  }

  function PortPlace(h: byte): nat { IdPlace(h) + if h & 0x80 != 0 then 2 else 0 }
  function MacPlace(h: byte): nat { PortPlace(h) + if h & 0x10 != 0 then 2 else 0 }
  function DataPlace(h: byte): nat { MacPlace(h) + if h & 0x08 != 0 then 12 else 0 }

  /** Two bytes as a number, the high one first. */
  function Number(s: seq<byte>, i: nat): nat
    requires i + 2 <= |s|
  {
    256 * ByteToInt(s[i]) + ByteToInt(s[i + 1])
  }

  /** Receiver, header and length. */
  predicate FrontWire(s: seq<byte>, info: Info, h: byte, n: nat) {
    && |s| >= 5 && s[0] == info.rx.id && s[1] == h
    && (if h & 0x40 != 0 then Number(s, 2) == n else ByteToInt(s[2]) == n)
  }

  /** Bus ids, hops and sender id. */
  predicate AddressWire(s: seq<byte>, info: Info, h: byte) {
    var k := Start(h);
    && |s| >= IdPlace(h)
    && (h & 0x01 != 0 ==> s[k..k + 4] == info.rx.busId)
    && (h & 0x01 != 0 && h & 0x02 != 0 ==> s[k + 4..k + 8] == info.tx.busId && s[k + 8] == info.hops)
    && (h & 0x01 != 0 && h & 0x02 == 0 ==> s[k + 4] == info.hops)
    && (h & 0x02 != 0 ==> s[IdPlace(h) - 1] == info.tx.id)
  }

  /** Packet id, port and MAC addresses. */
  predicate OptionWire(s: seq<byte>, info: Info, h: byte) {
    && |s| >= DataPlace(h)
    && (h & 0x80 != 0 ==> Number(s, IdPlace(h)) == info.id)
    && (h & 0x10 != 0 ==> Number(s, PortPlace(h)) == info.port)
    && (h & 0x08 != 0 ==>
          s[MacPlace(h)..MacPlace(h) + 6] == info.rx.mac && s[MacPlace(h) + 6..MacPlace(h) + 12] == info.tx.mac)
  }

  predicate Wire(s: seq<byte>, info: Info, h: byte, payload: seq<byte>, n: nat) {
    && FrontWire(s, info, h, n) && AddressWire(s, info, h) && OptionWire(s, info, h)
    && DataPlace(h) + |payload| <= |s| && s[DataPlace(h)..DataPlace(h) + |payload|] == payload
  }

  lemma Places(h: byte)
    ensures Start(h) == RxBusAt(h) && IdPlace(h) == PacketIdAt(h) && PortPlace(h) == PortAt(h)
    ensures MacPlace(h) == MacsAt(h)
  {
    HeaderMasks(h);
    hide Shared, HasTx, HasMac, HasPort, HasId, Extended;
  }

  /** Every composed packet, whatever follows it, is laid out so. */
  lemma ComposedWire(info: Info, payload: seq<byte>, s: seq<byte>)
    requires Sized(info, |payload|) && !Latched(info, |payload|) && Packet(info, payload) <= s
    ensures Wire(s, info, FinalHeader(info, |payload|), payload, PacketLength(info, |payload|))
  {
    var h, beyond := FinalHeader(info, |payload|), s[|Packet(info, payload)|..];
    var rest := AfterFields(info, payload, beyond);
    hide *;
    PrefixSplits(Packet(info, payload), s);
    ComposedFront(info, payload, s);
    FieldsAt(info, payload, beyond);
    FrontWired(s, info, PacketLength(info, |payload|));
    FieldsLie(s, info, h, rest);
    AddressWired(s, info, h);
    OptionWired(s, info, h);
    DataWired(s, info, h, payload, beyond);
    WireIs(s, info, h, payload, PacketLength(info, |payload|));
  }

  lemma WireIs(s: seq<byte>, info: Info, h: byte, payload: seq<byte>, n: nat)
    requires FrontWire(s, info, h, n) && AddressWire(s, info, h) && OptionWire(s, info, h)
    requires DataPlace(h) + |payload| <= |s| && s[DataPlace(h)..DataPlace(h) + |payload|] == payload
    ensures Wire(s, info, h, payload, n)
  {
    hide FrontWire, AddressWire, OptionWire, DataPlace;
  }

  lemma FrontWired(s: seq<byte>, info: Info, n: nat)
    requires |s| >= 5 && s[0] == info.rx.id && StoredLength(s) == n
    ensures FrontWire(s, info, s[1], n)
  {
    HeaderMasks(s[1]);
    hide Extended, ByteToInt;
  }

  lemma AddressWired(s: seq<byte>, info: Info, h: byte)
    requires MacsAt(h) <= |s|
    requires s[RxBusAt(h)..TxBusAt(h)] == RxBus(info, h) && s[TxBusAt(h)..HopsAt(h)] == TxBus(info, h)
    requires s[HopsAt(h)..TxIdAt(h)] == Hops(info, h) && s[TxIdAt(h)..PacketIdAt(h)] == TxId(info, h)
    ensures AddressWire(s, info, h)
  {
    HeaderMasks(h);
    hide Shared, HasTx, HasMac, HasPort, HasId, Extended;
    var hops, id := s[HopsAt(h)..TxIdAt(h)], s[TxIdAt(h)..PacketIdAt(h)];
    if Shared(h) { assert hops[0] == s[HopsAt(h)]; }
    if HasTx(h) { assert id[0] == s[TxIdAt(h)]; }
  }

  lemma OptionWired(s: seq<byte>, info: Info, h: byte)
    requires MacsAt(h) + |Macs(info, h)| <= |s|
    requires s[PacketIdAt(h)..PortAt(h)] == PacketId(info, h) && s[PortAt(h)..MacsAt(h)] == Port(info, h)
    requires s[MacsAt(h)..MacsAt(h) + |Macs(info, h)|] == Macs(info, h)
    ensures OptionWire(s, info, h)
  {
    HeaderMasks(h);
    Places(h);
    hide Shared, HasTx, HasMac, HasPort, HasId, Extended, Word, Hi, Lo, IdPlace, ByteToInt;
    if HasId(h) { NumberAt(s, PacketIdAt(h), info.id); }
    if HasPort(h) { NumberAt(s, PortAt(h), info.port); }
    if HasMac(h) { HalvesOf(s, MacsAt(h), info.rx.mac, info.tx.mac); }
  }

  lemma NumberAt(s: seq<byte>, at: nat, w: uint16)
    requires at + 2 <= |s| && s[at..at + 2] == [Hi(w), Lo(w)]
    ensures Number(s, at) == w
  {
    WordAt(s, at, w);
    hide Hi, Lo, ByteToInt;
  }

  lemma DataWired(s: seq<byte>, info: Info, h: byte, payload: seq<byte>, beyond: seq<byte>)
    requires Sized(info, |payload|) && h == FinalHeader(info, |payload|) && RxBusAt(h) <= |s|
    requires s[RxBusAt(h)..] == Fields(info, h) + AfterFields(info, payload, beyond)
    ensures DataPlace(h) + |payload| <= |s| && s[DataPlace(h)..DataPlace(h) + |payload|] == payload
  {
    hide *;
    PayloadFirst(info, payload, beyond);
    FieldsEnd(info, h);
    var rest, at := AfterFields(info, payload, beyond)[|payload|..], DataPlace(h);
    PayloadFollows(s, RxBusAt(h), Fields(info, h), payload, rest);
    assert s[at..][..|payload|] == s[at..at + |payload|];
  }

  lemma PayloadFirst(info: Info, payload: seq<byte>, beyond: seq<byte>)
    requires Sized(info, |payload|)
    ensures var after := AfterFields(info, payload, beyond);
            |after| >= |payload| && after == payload + after[|payload|..]
  {
    hide Trailer, FinalHeader, Head;
  }

  lemma FieldsEnd(info: Info, h: byte)
    ensures RxBusAt(h) + |Fields(info, h)| == DataPlace(h)
  {
    HeaderMasks(h);
    Places(h);
    hide Shared, HasTx, HasMac, HasPort, HasId, Extended, IdPlace;
  }
}
