/** The PJON packet layout: the header bitmap, the overhead it implies, and the bytes of a packet, as
    plain values. */
module Packets {
  import opened Words

  type BusId = s: seq<byte> | |s| == 4 witness [0, 0, 0, 0]
  type Mac = s: seq<byte> | |s| == 6 witness [0, 0, 0, 0, 0, 0]

  const BROADCAST: byte := 0
  const NOT_ASSIGNED: byte := 255
  const NO_PORT: uint16 := 0
  const LOCALHOST: BusId := [0, 0, 0, 0]
  const NO_MAC: Mac := [0, 0, 0, 0, 0, 0]

  datatype Endpoint = Endpoint(id: byte, busId: BusId, mac: Mac)

  const UNSET := Endpoint(NOT_ASSIGNED, LOCALHOST, NO_MAC)

  datatype Info = Info(tx: Endpoint, rx: Endpoint, header: byte, hops: byte, id: uint16, port: uint16)

  const MAX_HOPS: byte := 15

  /** A forwarded packet is one hop further; the count wraps like any byte. */
  function Hopped(info: Info): Info {
    info.(hops := info.hops + 1)
  }

  /** Over the hop limit. */
  predicate Dropped(info: Info) {
    Hopped(info).hops > MAX_HOPS
  }

  // ---------------------------------------------------------------- header bits

  const MODE_BIT: byte := 0x01
  const TX_INFO_BIT: byte := 0x02
  const ACK_REQ_BIT: byte := 0x04
  const MAC_BIT: byte := 0x08
  const PORT_BIT: byte := 0x10
  const CRC_BIT: byte := 0x20
  const EXT_LEN_BIT: byte := 0x40
  const PACKET_ID_BIT: byte := 0x80

  predicate Shared(h: byte) { h & MODE_BIT != 0 }
  predicate HasTx(h: byte) { h & TX_INFO_BIT != 0 }
  predicate AckRequested(h: byte) { h & ACK_REQ_BIT != 0 }
  predicate HasMac(h: byte) { h & MAC_BIT != 0 }
  predicate HasPort(h: byte) { h & PORT_BIT != 0 }
  predicate HasCrc32(h: byte) { h & CRC_BIT != 0 }
  predicate Extended(h: byte) { h & EXT_LEN_BIT != 0 }
  predicate HasId(h: byte) { h & PACKET_ID_BIT != 0 }

  /** The two headers agree on everything that is not edited while composing. */
  predicate SameOptions(h: byte, h': byte) {
    && Shared(h) == Shared(h') && HasTx(h) == HasTx(h') && HasMac(h) == HasMac(h') && HasId(h) == HasId(h')
  }

  function AddExtended(h: byte): byte { h | EXT_LEN_BIT }
  function AddCrc32(h: byte): byte { h | CRC_BIT }
  function AddPort(h: byte): byte { h | PORT_BIT }
  function DropPort(h: byte): byte { h & !PORT_BIT }
  function DropAck(h: byte): byte { h & !ACK_REQ_BIT }

  lemma AddExtendedBits(h: byte)
    ensures SameOptions(h, AddExtended(h))
    ensures Extended(AddExtended(h)) && HasCrc32(AddExtended(h)) == HasCrc32(h)
    ensures AckRequested(AddExtended(h)) == AckRequested(h) && HasPort(AddExtended(h)) == HasPort(h)
  {
  }

  lemma AddCrc32Bits(h: byte)
    ensures SameOptions(h, AddCrc32(h))
    ensures HasCrc32(AddCrc32(h)) && Extended(AddCrc32(h)) == Extended(h)
    ensures AckRequested(AddCrc32(h)) == AckRequested(h) && HasPort(AddCrc32(h)) == HasPort(h)
  {
  }

  lemma AddPortBits(h: byte)
    ensures SameOptions(h, AddPort(h))
    ensures HasPort(AddPort(h)) && AckRequested(AddPort(h)) == AckRequested(h)
    ensures HasCrc32(AddPort(h)) == HasCrc32(h) && Extended(AddPort(h)) == Extended(h)
  {
  }

  lemma DropPortBits(h: byte)
    ensures SameOptions(h, DropPort(h))
    ensures !HasPort(DropPort(h)) && AckRequested(DropPort(h)) == AckRequested(h)
    ensures HasCrc32(DropPort(h)) == HasCrc32(h) && Extended(DropPort(h)) == Extended(h)
  {
  }

  lemma DropAckBits(h: byte)
    ensures SameOptions(h, DropAck(h))
    ensures !AckRequested(DropAck(h)) && HasPort(DropAck(h)) == HasPort(h)
    ensures HasCrc32(DropAck(h)) == HasCrc32(h) && Extended(DropAck(h)) == Extended(h)
  {
  }

  // ---------------------------------------------------------------- lengths

  function Overhead(h: byte): (n: nat)
    ensures 5 <= n <= 35
  {
    (if Shared(h) then if HasTx(h) then 11 else 6 else if HasTx(h) then 2 else 1)
    + (if Extended(h) then 2 else 1)
    + (if HasCrc32(h) then 4 else 1)
    + (if HasPort(h) then 2 else 0)
    + (if HasId(h) then 2 else 0)
    + (if HasMac(h) then 12 else 0)
    + 2
  }

  function CrcOverhead(h: byte): (n: nat)
    ensures 1 <= n <= 4
  {
    if HasCrc32(h) then 4 else 1
  }

  /** The header with the extended length and port bits the packet needs, and no acknowledgement
      requested from a broadcast. */
  function Requested(info: Info, length: nat): byte {
    var h := if length > 255 then AddExtended(info.header) else info.header;
    var h' := if info.port != NO_PORT then AddPort(h) else if HasPort(h) then DropPort(h) else h;
    if info.rx.id == BROADCAST then DropAck(h') else h'
  }

  function WithCrc(h: byte, length: nat): byte {
    if length + Overhead(h) > 15 && !HasCrc32(h) then AddCrc32(h) else h
  }

  function WithExtended(h: byte, length: nat): byte {
    if length + Overhead(h) > 255 && !Extended(h) then AddExtended(h) else h
  }

  /** The header on the wire. */
  function FinalHeader(info: Info, length: nat): byte {
    WithExtended(WithCrc(Requested(info, length), length), length)
  }

  function PacketLength(info: Info, length: nat): nat {
    length + Overhead(FinalHeader(info, length))
  }

  /** The length of the packet does not wrap the 16-bit word it is computed in. */
  predicate Sized(info: Info, length: nat) {
    PacketLength(info, length) <= 0xFFFF
  }

  lemma PacketIsLonger(info: Info, length: nat)
    ensures PacketLength(info, length) >= length + 5
  {
    hide FinalHeader;
  }

  /** The number of length bytes is fixed before the extended length bit may be added: a payload of at
      most 255 bytes whose packet is longer is written with one length byte under a header that
      announces two. */
  predicate Latched(info: Info, length: nat) {
    Extended(FinalHeader(info, length)) && !Extended(Requested(info, length))
  }

  /** What composing guarantees about the final header. */
  lemma FinalHeaderBits(info: Info, length: nat)
    ensures var h := FinalHeader(info, length);
            && SameOptions(info.header, h)
            && (HasCrc32(h) <==> HasCrc32(info.header) || PacketLength(info, length) > 15)
            && (HasCrc32(h) && !HasCrc32(info.header) ==> PacketLength(info, length) > 18)
            && (Extended(h) && !Extended(info.header) ==> PacketLength(info, length) > 256)
            && (AckRequested(h) <==> AckRequested(info.header) && info.rx.id != BROADCAST)
            && (HasPort(h) <==> info.port != NO_PORT)
            && (Extended(h) <==> Extended(info.header) || PacketLength(info, length) > 255)
  {
    hide Shared, HasTx, AckRequested, HasMac, HasPort, HasCrc32, Extended, HasId;
    hide AddExtended, AddCrc32, AddPort, DropPort, DropAck;
    RequestedBits(info, length);
    var h := Requested(info, length);
    AddCrc32Bits(h);
    AddExtendedBits(WithCrc(h, length));
  }

  lemma RequestedBits(info: Info, length: nat)
    ensures var h := Requested(info, length);
            && SameOptions(info.header, h)
            && HasCrc32(h) == HasCrc32(info.header)
            && (AckRequested(h) <==> AckRequested(info.header) && info.rx.id != BROADCAST)
            && (HasPort(h) <==> info.port != NO_PORT)
            && (Extended(h) <==> Extended(info.header) || length > 255)
  {
    hide Shared, HasTx, AckRequested, HasMac, HasPort, HasCrc32, Extended, HasId;
    hide AddExtended, AddCrc32, AddPort, DropPort, DropAck;
    var h := if length > 255 then AddExtended(info.header) else info.header;
    AddExtendedBits(info.header);
    AddPortBits(h);
    DropPortBits(h);
    DropAckBits(if info.port != NO_PORT then AddPort(h) else if HasPort(h) then DropPort(h) else h);
  }

  /** A payload of 250 bytes under the default header is composed with one length byte and a header that
      announces two. */
  lemma LatchedInput()
    ensures Latched(Info(UNSET, Endpoint(5, LOCALHOST, NO_MAC), TX_INFO_BIT | ACK_REQ_BIT, 0, 0, NO_PORT), 250)
  {
  }

  /** The latch slips exactly for payloads of at most 255 bytes, without an extended length requested,
      whose packet exceeds 255 bytes; so never where packets are limited to 256 bytes. */
  lemma LatchedExactly(info: Info, length: nat)
    ensures Latched(info, length) <==>
            length <= 255 && !Extended(info.header) && PacketLength(info, length) > 255
    ensures PacketLength(info, length) <= 255 ==> !Latched(info, length)
  {
    hide Shared, HasTx, AckRequested, HasMac, HasPort, HasCrc32, Extended, HasId;
    hide AddExtended, AddCrc32, AddPort, DropPort, DropAck;
    FinalHeaderBits(info, length);
    RequestedBits(info, length);
    var h := Requested(info, length);
    AddCrc32Bits(h);
  }
}
