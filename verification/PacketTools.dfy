/** The general purpose packet operations, writing and reading byte buffers in place. */
module PacketTools {
  import opened Words
  import opened Packets
  import opened PacketCodec
  import Crc8
  import Crc32

  // ---------------------------------------------------------------- packet ids

  /** The next automatic packet id: one more than the seed on a circle of the 65535 ids other than 0. */
  function NewPacketId(seed: uint16): (id: uint16)
    ensures id != 0 && id % 65535 == (seed + 1) % 65535
  {
    if seed == 0xFFFF then 1 else seed + 1
  }

  /** Two seeds give the same id exactly when they are equal or are the two around the wrap. */
  lemma PacketIdsDistinct(s: uint16, t: uint16)
    ensures NewPacketId(s) == NewPacketId(t) <==> s == t || (s in {0, 0xFFFF} && t in {0, 0xFFFF})
  {
  }

  /** `seed++` */
  function NextSeed(seed: uint16): uint16 {
    if seed == 0xFFFF then 0 else seed + 1
  }

  function SeedAfter(seed: uint16, n: nat): uint16 {
    if n == 0 then seed else NextSeed(SeedAfter(seed, n - 1))
  }

  /** The id of the n-th packet, from 0 on, of those that a device numbers itself. */
  function AutomaticId(seed: uint16, n: nat): uint16 {
    NewPacketId(SeedAfter(seed, n))
  }

  lemma {:induction false} SeedCounts(seed: uint16, n: nat)
    ensures seed + n <= 0xFFFF ==> SeedAfter(seed, n) == seed + n
    ensures seed + n == 0x10000 ==> SeedAfter(seed, n) == 0
  {
    if n > 0 { SeedCounts(seed, n - 1); }
  }

  /** The first n automatic ids are distinct if and only if the seed does not wrap on the way, and does not
      get from 0 to 65535 either: at the wrap two packets in a row get the id 1. */
  lemma AutomaticIdsDistinct(seed: uint16, n: nat)
    ensures (forall i, j :: 0 <= i < j < n ==> AutomaticId(seed, i) != AutomaticId(seed, j))
            <==> seed + n <= 0x10000 && n <= 0xFFFF
  {
    hide SeedAfter;
    if seed + n <= 0x10000 && n <= 0xFFFF {
      forall i, j | 0 <= i < j < n ensures AutomaticId(seed, i) != AutomaticId(seed, j) {
        SeedCounts(seed, i);
        SeedCounts(seed, j);
        PacketIdsDistinct(SeedAfter(seed, i), SeedAfter(seed, j));
      }
    } else {
      var i, j := if seed == 0 then 0 else 0xFFFF - seed, if seed == 0 then 0xFFFF else 0x10000 - seed;
      SeedCounts(seed, i);
      SeedCounts(seed, j);
      assert AutomaticId(seed, i) == AutomaticId(seed, j) == 1;
    }
  }

  // ---------------------------------------------------------------- ids

  method IdEquality(one: seq<byte>, two: seq<byte>, length: nat) returns (equal: bool)
    requires length <= |one| && length <= |two|
    ensures equal <==> one[..length] == two[..length]
  {
    for i := 0 to length
      invariant one[..i] == two[..i]
    {
      if one[i] != two[i] {
        assert one[..length][i] != two[..length][i];
        return false;
      }
    }
    return true;
  }

  // ---------------------------------------------------------------- writing in place

  function Overwrite(d: seq<byte>, at: nat, s: seq<byte>): (r: seq<byte>)
    requires at + |s| <= |d|
    ensures |r| == |d|
  {
    d[..at] + s + d[at + |s|..]
  }

  lemma OverwriteTwice(d: seq<byte>, at: nat, s: seq<byte>, t: seq<byte>)
    requires at + |s| + |t| <= |d|
    ensures Overwrite(Overwrite(d, at, s), at + |s|, t) == Overwrite(d, at, s + t)
  {
  }

  /** memcpy to `destination + index`, and `destination[index++] = b` for a single byte. */
  method Put(destination: array<byte>, index: nat, s: seq<byte>) returns (next: nat)
    requires index + |s| <= destination.Length
    modifies destination
    ensures next == index + |s|
    ensures destination[..] == Overwrite(old(destination[..]), index, s)
  {
    for i := 0 to |s|
      invariant forall k :: 0 <= k < i ==> destination[index + k] == s[k]
      invariant forall k :: 0 <= k < destination.Length && !(index <= k < index + i) ==>
                  destination[k] == old(destination[k])
    {
      destination[index + i] := s[i];
    }
    next := index + |s|;
    assert forall k {:trigger destination[..][k]} :: index <= k < next ==> destination[..][k] == s[k - index] by {
      forall k | index <= k < next ensures destination[..][k] == s[k - index] {
        assert destination[index + (k - index)] == s[k - index];
      }
    }
  }

  // ---------------------------------------------------------------- composing

  /** Appends to what was already written from `start` on. */
  method Append(
    destination: array<byte>, index: nat, field: seq<byte>, ghost d: seq<byte>, ghost start: nat, ghost s: seq<byte>
  ) returns (next: nat)
    requires start + |s| == index && index + |field| <= destination.Length == |d|
    requires destination[..] == Overwrite(d, start, s)
    modifies destination
    ensures next == start + |s + field|
    ensures destination[..] == Overwrite(d, start, s + field)
  {
    OverwriteTwice(d, start, s, field);
    next := Put(destination, index, field);
  }

  /** The bus ids and the hop count of a shared packet. */
  function SharedFields(info: Info, h: byte): seq<byte> {
    RxBus(info, h) + TxBus(info, h) + Hops(info, h)
  }

  lemma FieldsInOrder(info: Info, h: byte)
    ensures Fields(info, h)
            == SharedFields(info, h) + TxId(info, h) + PacketId(info, h) + Port(info, h) + Macs(info, h)
  {
    hide RxBus, TxBus, Hops, TxId, PacketId, Port, Macs;
  }

  method PutSharedFields(info: Info, h: byte, destination: array<byte>, start: nat) returns (index: nat)
    requires start + |SharedFields(info, h)| <= destination.Length
    modifies destination
    ensures index == start + |SharedFields(info, h)|
    ensures destination[..] == Overwrite(old(destination[..]), start, SharedFields(info, h))
  {
    index := start;
    ghost var d := destination[..];
    assert Overwrite(d, start, []) == d;
    if Shared(h) {
      index := Append(destination, index, info.rx.busId, d, start, []);
      assert [] + info.rx.busId == RxBus(info, h);
      if HasTx(h) {
        index := Append(destination, index, info.tx.busId, d, start, RxBus(info, h));
      }
      assert RxBus(info, h) + [] == RxBus(info, h);
      index := Append(destination, index, [info.hops], d, start, RxBus(info, h) + TxBus(info, h));
    }
  }

  method PutFields(info: Info, h: byte, destination: array<byte>, start: nat) returns (index: nat)
    requires start + |Fields(info, h)| <= destination.Length
    requires HasPort(h) ==> info.port != NO_PORT
    modifies destination
    ensures index == start + |Fields(info, h)|
    ensures destination[..] == Overwrite(old(destination[..]), start, Fields(info, h))
  {
    FieldsInOrder(info, h);
    hide Fields, SharedFields, Overwrite, Hi, Lo;
    ghost var d := destination[..];
    index := PutSharedFields(info, h, destination, start);
    ghost var s := SharedFields(info, h);
    if HasTx(h) { index := Append(destination, index, [info.tx.id], d, start, s); }
    else { assert s + TxId(info, h) == s; }
    s := s + TxId(info, h);
    if HasId(h) { index := Append(destination, index, [Hi(info.id), Lo(info.id)], d, start, s); }
    else { assert s + PacketId(info, h) == s; }
    s := s + PacketId(info, h);
    if HasPort(h) {
      if info.port != NO_PORT {
        index := Append(destination, index, [Hi(info.port), Lo(info.port)], d, start, s);
      }
    } else {
      assert s + Port(info, h) == s;
    }
    s := s + Port(info, h);
    if HasMac(h) { index := Append(destination, index, info.rx.mac + info.tx.mac, d, start, s); }
    else { assert s + Macs(info, h) == s; }
  }

  method RequestHeader(info: Info, length: nat) returns (h: byte)
    ensures h == Requested(info, length)
  {
    h := info.header;
    if length > 255 { h := AddExtended(h); }
    AddPortBits(h);
    hide HasPort, AddExtended, AddPort, DropPort, DropAck;
    if info.port != NO_PORT { h := AddPort(h); }
    if HasPort(h) && info.port == NO_PORT { h := DropPort(h); }
    if info.rx.id == BROADCAST { h := DropAck(h); }
  }

  /** The header and length decisions that come before anything is written. */
  method SettleHeader(info: Info, length: nat) returns (h: byte, newLength: nat, extendedLength: bool)
    ensures h == FinalHeader(info, length) && newLength == PacketLength(info, length)
    ensures extendedLength == Extended(Requested(info, length))
  {
    h := RequestHeader(info, length);
    AddCrc32Bits(h);
    hide Overhead, HasCrc32, Extended, AddExtended, AddCrc32, Requested;
    newLength := length + Overhead(h);
    extendedLength := Extended(h);
    if newLength > 15 && !HasCrc32(h) {
      h := AddCrc32(h);
      newLength := length + Overhead(h);
    }
    if newLength > 255 && !extendedLength {
      h := AddExtended(h);
      newLength := length + Overhead(h);
    }
  }

  method PutFront(id: byte, h: byte, newLength: uint16, extendedLength: bool, destination: array<byte>)
    returns (index: nat)
    requires |Front(id, h, newLength, extendedLength)| <= destination.Length
    modifies destination
    ensures index == |Front(id, h, newLength, extendedLength)|
    ensures destination[..] == Overwrite(old(destination[..]), 0, Front(id, h, newLength, extendedLength))
  {
    hide Hi, Lo;
    ghost var d := destination[..];
    ghost var f := [id, h] + LengthBytes(newLength, extendedLength);
    destination[0] := id;
    destination[1] := h;
    if extendedLength {
      destination[2] := Hi(newLength);
      destination[3] := Lo(newLength);
      index := 4;
    } else {
      destination[2] := Lo(newLength);
      index := 3;
    }
    assert destination[..index] == f;
    var crc := Crc8.Compute(destination, index);
    destination[index] := crc;
    index := index + 1;
    assert destination[..index] == f + [crc];
    assert destination[index..] == d[index..];
  }

  method PutTrailer(h: byte, destination: array<byte>, newLength: nat)
    requires CrcOverhead(h) <= newLength <= destination.Length
    modifies destination
    ensures var body := old(destination[..newLength - CrcOverhead(h)]);
            destination[..] == Overwrite(old(destination[..]), |body|, Trailer(h, body))
  {
    var k := 0;
    if HasCrc32(h) {
      var computed := Crc32.Compute(destination, newLength - 4);
      k := Put(destination, newLength - 4, Crc32.BigEndian(computed));
    } else {
      var computed := Crc8.Compute(destination, newLength - 1);
      k := Put(destination, newLength - 1, [computed]);
    }
  }

  method PutHead(info: Info, length: nat, h: byte, newLength: uint16, extendedLength: bool, destination: array<byte>)
    returns (index: nat)
    requires Sized(info, length) && h == FinalHeader(info, length) && newLength == PacketLength(info, length)
    requires extendedLength == Extended(Requested(info, length)) && |Head(info, length)| <= destination.Length
    modifies destination
    ensures index == |Head(info, length)|
    ensures destination[..] == Overwrite(old(destination[..]), 0, Head(info, length))
  {
    FinalHeaderBits(info, length);
    hide FinalHeader, Requested, PacketLength, Extended, HasPort, Front, Fields, Overwrite;
    ghost var front := Front(info.rx.id, h, newLength, extendedLength);
    ghost var d := destination[..];
    index := PutFront(info.rx.id, h, newLength, extendedLength, destination);
    OverwriteTwice(d, 0, front, Fields(info, h));
    index := PutFields(info, h, destination, index);
  }

  /** `body` and its CRC were written to the front. */
  predicate Sealed(content: seq<byte>, before: seq<byte>, body: seq<byte>, h: byte) {
    |body| + CrcOverhead(h) <= |before| && content == Overwrite(before, 0, body + Trailer(h, body))
  }

  method PutPayload(
    h: byte, newLength: nat, destination: array<byte>, index: nat, source: seq<byte>,
    ghost d: seq<byte>, ghost head: seq<byte>, ghost stale: seq<byte>
  )
    requires index == |head| && |head| + |source| + CrcOverhead(h) <= newLength <= destination.Length == |d|
    requires destination[..] == Overwrite(d, 0, head)
    requires stale == d[|head| + |source|..newLength - CrcOverhead(h)]
    modifies destination
    ensures Sealed(destination[..], d, head + source + stale, h)
  {
    hide CrcOverhead, Trailer, Overwrite;
    ghost var end := newLength - CrcOverhead(h);
    ghost var body := head + source + stale;
    OverwriteTwice(d, 0, head, source);
    StaleRemains(d, head + source, end);
    OverwriteTwice(d, 0, body, Trailer(h, body));
    var next := Put(destination, index, source);
    assert destination[..end] == destination[..][..end];
    PutTrailer(h, destination, newLength);
  }

  /** `content` is `before` with the packet composed for `info` and `source` written to its front. */
  predicate ComposedInto(content: seq<byte>, before: seq<byte>, info: Info, source: seq<byte>)
    requires Sized(info, |source|)
  {
    var n := PacketLength(info, |source|);
    var end, start := n - CrcOverhead(FinalHeader(info, |source|)), |Head(info, |source|)| + |source|;
    && n <= |before| && start <= end
    && |Packet(info, source, before[start..end])| == n
    && content == Overwrite(before, 0, Packet(info, source, before[start..end]))
  }

  /** Unless the length bytes were latched, the composed packet leads the content, whatever was there. */
  lemma ComposedIntoPrefix(content: seq<byte>, before: seq<byte>, info: Info, source: seq<byte>)
    requires Sized(info, |source|) && ComposedInto(content, before, info, source) && !Latched(info, |source|)
    ensures Packet(info, source) <= content
  {
    var n := PacketLength(info, |source|);
    var end, start := n - CrcOverhead(FinalHeader(info, |source|)), |Head(info, |source|)| + |source|;
    NothingStale(info, |source|);
    assert before[start..end] == [];
    hide FinalHeader, Head, Packet, Overhead, CrcOverhead, Latched;
    assert content[..n] == Packet(info, source);
  }

  lemma NothingStale(info: Info, length: nat)
    requires Sized(info, length) && !Latched(info, length)
    ensures PacketLength(info, length) - CrcOverhead(FinalHeader(info, length)) == |Head(info, length)| + length
  {
    PacketLengthExact(info, length);
    hide FinalHeader, Head, Overhead, CrcOverhead, Latched;
  }

  /** Composes a packet into `destination`, whose length is PJON_PACKET_MAX_LENGTH, unless it does not
      fit, and returns its length. `length` plus the overhead must not wrap a 16-bit word. */
  method ComposePacket(info: Info, destination: array<byte>, source: seq<byte>) returns (newLength: nat)
    requires Sized(info, |source|) && destination.Length <= 0xFFFF
    modifies destination
    ensures newLength == PacketLength(info, |source|)
    ensures newLength >= destination.Length ==> destination[..] == old(destination[..])
    ensures newLength < destination.Length ==>
              ComposedInto(destination[..], old(destination[..]), info, source)
  {
    var h, extendedLength;
    h, newLength, extendedLength := SettleHeader(info, |source|);
    if newLength >= destination.Length { return; }
    WritePacket(info, destination, source, h, newLength, extendedLength);
  }

  method WritePacket(
    info: Info, destination: array<byte>, source: seq<byte>, h: byte, newLength: nat, extendedLength: bool
  )
    requires Sized(info, |source|) && h == FinalHeader(info, |source|) && newLength == PacketLength(info, |source|)
    requires extendedLength == Extended(Requested(info, |source|)) && newLength < destination.Length <= 0xFFFF
    modifies destination
    ensures ComposedInto(destination[..], old(destination[..]), info, source)
  {
    HeadFits(info, |source|, destination.Length);
    HeadRoom(info, |source|, destination.Length);
    hide *;
    ghost var d := destination[..];
    var index := PutHead(info, |source|, h, newLength, extendedLength, destination);
    WriteRest(info, destination, source, h, newLength, index, d);
  }

  lemma HeadRoom(info: Info, length: nat, room: nat)
    requires Sized(info, length) && RoomFor(info, length, room)
    ensures |Head(info, length)| <= room
  {
    hide Head, FinalHeader, CrcOverhead, PacketLength;
  }

  method WriteRest(
    info: Info, destination: array<byte>, source: seq<byte>, h: byte, newLength: nat, index: nat, ghost d: seq<byte>
  )
    requires Sized(info, |source|) && h == FinalHeader(info, |source|) && newLength == PacketLength(info, |source|)
    requires RoomFor(info, |source|, |d|) && destination.Length == |d| && index == |Head(info, |source|)|
    requires index <= |d| && destination[..] == Overwrite(d, 0, Head(info, |source|))
    modifies destination
    ensures ComposedInto(destination[..], d, info, source)
  {
    hide *;
    StaleIs(info, |source|, d);
    PutPayload(h, newLength, destination, index, source, d, Head(info, |source|), Stale(info, |source|, d));
    ComposedWhen(destination[..], d, info, source);
  }

  predicate RoomFor(info: Info, length: nat, room: nat)
    requires Sized(info, length)
  {
    && |Head(info, length)| + length + CrcOverhead(FinalHeader(info, length)) <= PacketLength(info, length)
    && PacketLength(info, length) <= room
  }

  /** What composing leaves of older contents between payload and CRC. */
  function Stale(info: Info, length: nat, before: seq<byte>): seq<byte>
    requires Sized(info, length) && RoomFor(info, length, |before|)
  {
    before[|Head(info, length)| + length..PacketLength(info, length) - CrcOverhead(FinalHeader(info, length))]
  }

  lemma ComposedWhen(content: seq<byte>, before: seq<byte>, info: Info, source: seq<byte>)
    requires Sized(info, |source|) && RoomFor(info, |source|, |before|)
    requires Sealed(content, before, Head(info, |source|) + source + Stale(info, |source|, before),
                    FinalHeader(info, |source|))
    ensures ComposedInto(content, before, info, source)
  {
    hide FinalHeader, Head, Overwrite, CrcOverhead, PacketLength, Trailer;
  }

  lemma StaleIs(info: Info, length: nat, before: seq<byte>)
    requires Sized(info, length) && RoomFor(info, length, |before|)
    ensures var start := |Head(info, length)| + length;
            var end := PacketLength(info, length) - CrcOverhead(FinalHeader(info, length));
            && start <= end && PacketLength(info, length) <= |before|
            && Stale(info, length, before) == before[start..end]
  {
  }

  lemma HeadFits(info: Info, length: nat, room: nat)
    requires Sized(info, length) && PacketLength(info, length) <= room
    ensures RoomFor(info, length, room)
  {
    PacketLengthExact(info, length);
    hide FinalHeader, Head, Overhead, CrcOverhead, Latched;
  }

  lemma StaleRemains(d: seq<byte>, s: seq<byte>, end: nat)
    requires |s| <= end <= |d|
    ensures Overwrite(d, 0, s) == Overwrite(d, 0, s + d[|s|..end])
    ensures Overwrite(d, 0, s)[..end] == s + d[|s|..end]
  {
  }

  // ---------------------------------------------------------------- parsing

  /** memcpy from `packet + index` */
  method CopyId(packet: array<byte>, index: nat, length: nat) returns (id: seq<byte>)
    requires index + length <= packet.Length
    ensures id == packet[..][index..index + length] && |id| == length
  {
    id := packet[index..index + length];
  }

  method ParseSharedFields(packet: array<byte>, h: byte) returns (rxBus: BusId, txBus: BusId, hops: byte, index: nat)
    requires packet.Length >= 31 && h == packet[1]
    ensures index == TxIdAt(h)
    ensures rxBus == Parsed(packet[..]).rx.busId && txBus == Parsed(packet[..]).tx.busId
    ensures hops == Parsed(packet[..]).hops
  {
    hide Shared, HasTx, HasPort, HasId, Extended, Word;
    rxBus, txBus, hops := LOCALHOST, LOCALHOST, 0;
    index := 2;
    index := index + (if Extended(h) then 1 else 0) + 2;
    if Shared(h) {
      rxBus := CopyId(packet, index, 4);
      index := index + 4;
      if HasTx(h) {
        txBus := CopyId(packet, index, 4);
        index := index + 4;
      }
      hops := packet[index];
      index := index + 1;
    }
  }

  method ParseNumbers(packet: array<byte>, h: byte, start: nat)
    returns (txId: byte, id: uint16, port: uint16, index: nat)
    requires packet.Length >= 31 && h == packet[1] && start == TxIdAt(h)
    ensures index == MacsAt(h)
    ensures txId == Parsed(packet[..]).tx.id
    ensures id == Parsed(packet[..]).id && port == Parsed(packet[..]).port
  {
    hide Shared, HasTx, HasPort, HasId, Extended, Word;
    txId, id, port, index := NOT_ASSIGNED, 0, NO_PORT, start;
    if HasTx(h) {
      txId := packet[index];
      index := index + 1;
    }
    if HasId(h) {
      id := Word(packet[index], packet[index + 1]);
      index := index + 2;
    }
    if HasPort(h) {
      port := Word(packet[index], packet[index + 1]);
      index := index + 2;
    }
  }

  /** Reads the header fields of a receive buffer, advancing an index over those present. */
  method ParseHeader(packet: array<byte>) returns (info: Info)
    requires packet.Length >= 31
    ensures info == Parsed(packet[..])
  {
    hide Shared, HasTx, HasPort, HasId, Extended, Word;
    var h := packet[1];
    var rxBus, txBus, hops, txId, id, port, rxMac, txMac, index;
    rxBus, txBus, hops, index := ParseSharedFields(packet, h);
    txId, id, port, index := ParseNumbers(packet, h, index);
    rxMac := CopyId(packet, index, 6);
    index := index + 6;
    txMac := CopyId(packet, index, 6);
    info := Info(Endpoint(txId, txBus, txMac), Endpoint(packet[0], rxBus, rxMac), h, hops, id, port);
  }
}
