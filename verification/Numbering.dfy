/** What a device fills in when it composes: the packet ids over a run of packets, and the default port,
    header and sender, as they are found on the wire. */
module Numbering {
  import opened Words
  import opened Packets
  import opened PacketCodec
  import opened PacketTools
  import opened Layout
  import opened Pjon
  import opened Exchange

  /** The header asked for. */
  function Asked(info: Info, config: byte): byte {
    if info.header == NO_HEADER then config else info.header
  }

  /** The device numbers the packet itself. */
  predicate Auto(info: Info, config: byte) {
    info.id == 0 && Asked(info, config) & 0x80 != 0
  }

  /** The port the packet is for: the one given, or the one of the device if the header asks for a port. */
  function PortFor(info: Info, config: byte, port: uint16): uint16 {
    if info.port != NO_PORT then info.port else if Asked(info, config) & 0x10 != 0 then port else NO_PORT
  }

  // ---------------------------------------------------------------- one packet

  lemma PreparedParts(info: Info, config: byte, tx: Endpoint, port: uint16, seed: uint16)
    ensures var p := Prepared(info, config, tx, port, seed);
            && p.header == Asked(info, config) && p.tx == tx && p.rx == info.rx && p.hops == info.hops
            && p.id == (if !Auto(info, config) then info.id else if seed == 0xFFFF then 1 else seed + 1)
            && p.port == PortFor(info, config, port)
    ensures SeedLeft(info, config, seed)
            == if !Auto(info, config) then seed else if seed == 0xFFFF then 0 else seed + 1
  {
    HeaderMasks(Asked(info, config));
    hide HasId, HasPort;
  }

  /** What a composed packet carries of that. */
  predicate Filled(s: seq<byte>, info: Info, config: byte, tx: Endpoint, port: uint16, id: uint16) {
    && |s| >= 5
    && var h := s[1];
       && |s| >= DataPlace(h)
       && (h & 0x80 != 0 <==> Asked(info, config) & 0x80 != 0)
       && (h & 0x80 != 0 ==> Number(s, IdPlace(h)) == id)
       && (h & 0x10 != 0 <==> PortFor(info, config, port) != NO_PORT)
       && (h & 0x10 != 0 ==> Number(s, PortPlace(h)) == PortFor(info, config, port))
       && (h & 0x02 != 0 <==> Asked(info, config) & 0x02 != 0)
       && (h & 0x02 != 0 ==> s[IdPlace(h) - 1] == tx.id)
       && (h & 0x03 == 0x03 ==> s[Start(h) + 4..Start(h) + 8] == tx.busId)
  }

  lemma PreparedFilled(info: Info, config: byte, tx: Endpoint, port: uint16, seed: uint16, payload: seq<byte>)
    requires var p := Prepared(info, config, tx, port, seed); Sized(p, |payload|) && !Latched(p, |payload|)
    requires |payload| >= 1
    ensures var p := Prepared(info, config, tx, port, seed);
            Filled(Packet(p, payload), info, config, tx, port, p.id)
  {
    var p := Prepared(info, config, tx, port, seed);
    var h := FinalHeader(p, |payload|);
    PreparedParts(info, config, tx, port, seed);
    FinalHeaderBits(p, |payload|);
    HeaderMasks(Asked(info, config));
    HeaderMasks(h);
    hide Shared, HasTx, HasMac, HasPort, HasId, HasCrc32, Extended, AckRequested, FinalHeader, Packet, Prepared, Asked;
    hide Sized, Latched, PortFor, Auto;
    ComposedWire(p, payload, Packet(p, payload));
    BothMasks(h);
    WireFilled(Packet(p, payload), p, h, payload, PacketLength(p, |payload|), info, config, tx, port);
  }

  lemma BothMasks(h: byte)
    ensures h & 0x03 == 0x03 <==> h & 0x01 != 0 && h & 0x02 != 0
  {
  }

  lemma WireFilled(
    s: seq<byte>, p: Info, h: byte, payload: seq<byte>, n: nat, info: Info, config: byte, tx: Endpoint, port: uint16
  )
    requires Wire(s, p, h, payload, n) && p.tx == tx && p.port == PortFor(info, config, port)
    requires (h & 0x80 != 0 <==> Asked(info, config) & 0x80 != 0)
    requires (h & 0x02 != 0 <==> Asked(info, config) & 0x02 != 0)
    requires (h & 0x10 != 0 <==> PortFor(info, config, port) != NO_PORT)
    requires h & 0x03 == 0x03 <==> h & 0x01 != 0 && h & 0x02 != 0
    ensures Filled(s, info, config, tx, port, p.id)
  {
    hide IdPlace, PortPlace, MacPlace, DataPlace, Start, Asked, PortFor, Number;
  }

  // ---------------------------------------------------------------- a run of packets

  /** How many of these packets the device numbers. */
  function Autos(infos: seq<Info>, config: byte): nat {
    if infos == [] then 0
    else Autos(infos[..|infos| - 1], config) + if Auto(infos[|infos| - 1], config) then 1 else 0
  }

  /** The seed after composing them. */
  function SeedRun(infos: seq<Info>, config: byte, seed: uint16): uint16 {
    if infos == [] then seed
    else SeedLeft(infos[|infos| - 1], config, SeedRun(infos[..|infos| - 1], config, seed))
  }

  /** The i-th of them as it is composed. */
  function PreparedIn(infos: seq<Info>, i: nat, config: byte, tx: Endpoint, port: uint16, seed: uint16): Info
    requires i < |infos|
  {
    Prepared(infos[i], config, tx, port, SeedRun(infos[..i], config, seed))
  }

  lemma {:induction false} SeedRunCounts(infos: seq<Info>, config: byte, seed: uint16)
    ensures SeedRun(infos, config, seed) == SeedAfter(seed, Autos(infos, config))
    decreases |infos|
  {
    if infos != [] {
      var n := |infos| - 1;
      SeedRunCounts(infos[..n], config, seed);
      PreparedParts(infos[n], config, UNSET, NO_PORT, SeedRun(infos[..n], config, seed));
      hide Auto, SeedLeft, Prepared;
    }
  }

  /** A packet keeps the id it was given; the others get the automatic ids in turn. */
  lemma IdInRun(infos: seq<Info>, i: nat, config: byte, tx: Endpoint, port: uint16, seed: uint16)
    requires i < |infos|
    ensures PreparedIn(infos, i, config, tx, port, seed).id
            == if Auto(infos[i], config) then AutomaticId(seed, Autos(infos[..i], config)) else infos[i].id
  {
    SeedRunCounts(infos[..i], config, seed);
    PreparedParts(infos[i], config, tx, port, SeedRun(infos[..i], config, seed));
    hide Auto, Prepared, SeedRun, SeedAfter;
  }

  lemma {:induction false} AutosGrow(infos: seq<Info>, i: nat, j: nat, config: byte)
    requires i <= j <= |infos|
    ensures Autos(infos[..i], config) <= Autos(infos[..j], config)
    ensures i < j && Auto(infos[i], config) ==> Autos(infos[..i], config) < Autos(infos[..j], config)
    decreases j - i
  {
    hide Auto;
    if i < j {
      AutosGrow(infos, i, j - 1, config);
      assert infos[..j][..j - 1] == infos[..j - 1];
    }
  }

  /** The m-th packet the device numbers. */
  lemma {:induction false} NthAuto(infos: seq<Info>, m: nat, config: byte) returns (i: nat)
    requires m < Autos(infos, config)
    ensures i < |infos| && Auto(infos[i], config) && Autos(infos[..i], config) == m
    decreases |infos|
  {
    hide Auto;
    var n := |infos| - 1;
    if m < Autos(infos[..n], config) {
      i := NthAuto(infos[..n], m, config);
      assert infos[..n][..i] == infos[..i];
    } else {
      i := n;
    }
  }

  /** No two packets the device numbers in a run have the same id. */
  predicate IdsDistinct(infos: seq<Info>, config: byte, tx: Endpoint, port: uint16, seed: uint16) {
    forall i, j :: 0 <= i < j < |infos| && Auto(infos[i], config) && Auto(infos[j], config) ==>
      PreparedIn(infos, i, config, tx, port, seed).id != PreparedIn(infos, j, config, tx, port, seed).id
  }

  /** That is so if and only if the seed does not wrap over them, nor get from 0 to 65535. */
  lemma RunIdsDistinct(infos: seq<Info>, config: byte, tx: Endpoint, port: uint16, seed: uint16)
    ensures IdsDistinct(infos, config, tx, port, seed)
            <==> seed + Autos(infos, config) <= 0x10000 && Autos(infos, config) <= 0xFFFF
  {
    var n := Autos(infos, config);
    AutomaticIdsDistinct(seed, n);
    hide Auto, PreparedIn, Autos, AutomaticId;
    if seed + n <= 0x10000 && n <= 0xFFFF {
      forall i, j | 0 <= i < j < |infos| && Auto(infos[i], config) && Auto(infos[j], config)
        ensures PreparedIn(infos, i, config, tx, port, seed).id != PreparedIn(infos, j, config, tx, port, seed).id
      {
        IdInRun(infos, i, config, tx, port, seed);
        IdInRun(infos, j, config, tx, port, seed);
        AutosGrow(infos, i, j, config);
        AutosGrow(infos, j, |infos|, config);
        assert infos[..|infos|] == infos;
      }
    } else {
      var a, b :| 0 <= a < b < n && AutomaticId(seed, a) == AutomaticId(seed, b);
      SameIdTwice(infos, a, b, config, tx, port, seed);
    }
  }

  lemma SameIdTwice(infos: seq<Info>, a: nat, b: nat, config: byte, tx: Endpoint, port: uint16, seed: uint16)
    requires a < b < Autos(infos, config) && AutomaticId(seed, a) == AutomaticId(seed, b)
    ensures !IdsDistinct(infos, config, tx, port, seed)
  {
    hide Auto, PreparedIn, Autos, AutomaticId;
    var i := NthAuto(infos, a, config);
    var j := NthAuto(infos, b, config);
    if j <= i { AutosGrow(infos, j, i, config); }
    IdInRun(infos, i, config, tx, port, seed);
    IdInRun(infos, j, config, tx, port, seed);
  }

  // ---------------------------------------------------------------- on the wire

  /** The packets of a run have room, whatever their ids. */
  predicate RunFits(
    infos: seq<Info>, payloads: seq<seq<byte>>, config: byte, tx: Endpoint, port: uint16, room: nat
  ) {
    && |infos| == |payloads|
    && forall i :: 0 <= i < |infos| ==>
         |payloads[i]| >= 1 && PacketFits(infos[i], |payloads[i]|, config, tx, port, room)
  }

  predicate PacketFits(info: Info, length: nat, config: byte, tx: Endpoint, port: uint16, room: nat) {
    var p := Prepared(info, config, tx, port, 0);
    Sized(p, length) && Fits(p, length, room)
  }

  lemma SeedFits(info: Info, length: nat, config: byte, tx: Endpoint, port: uint16, room: nat, seed: uint16)
    requires PacketFits(info, length, config, tx, port, room)
    ensures var p := Prepared(info, config, tx, port, seed);
            Sized(p, length) && Fits(p, length, room) && !Latched(p, length)
  {
    PreparedParts(info, config, tx, port, seed);
    PreparedParts(info, config, tx, port, 0);
    SameHeader(Prepared(info, config, tx, port, 0), Prepared(info, config, tx, port, seed), length);
    hide Prepared, FinalHeader, Overhead, Requested;
  }

  lemma SameHeader(p: Info, q: Info, length: nat)
    requires p.header == q.header && p.port == q.port && p.rx == q.rx
    ensures FinalHeader(p, length) == FinalHeader(q, length) && Requested(p, length) == Requested(q, length)
    ensures Latched(p, length) == Latched(q, length)
  {
    hide WithCrc, WithExtended, AddExtended, AddPort, DropPort, DropAck, HasPort, Extended;
  }

  /** The i-th stream is the i-th packet as it is composed. */
  predicate Streamed(
    streams: seq<seq<byte>>, i: nat, infos: seq<Info>, payloads: seq<seq<byte>>, config: byte, tx: Endpoint,
    port: uint16, seed: uint16
  ) {
    && i < |streams| && i < |infos| && i < |payloads|
    && var p := PreparedIn(infos, i, config, tx, port, seed);
       Sized(p, |payloads[i]|) && streams[i] == Packet(p, payloads[i])
  }

  /** The two bytes of a packet where its id would be. */
  function WireId(s: seq<byte>): nat {
    if |s| >= 2 && IdPlace(s[1]) + 2 <= |s| then Number(s, IdPlace(s[1])) else 0
  }

  /** No two packets the device numbered carry the same id. */
  predicate WireIdsDistinct(streams: seq<seq<byte>>, infos: seq<Info>, config: byte)
    requires |streams| == |infos|
  {
    forall i, j :: 0 <= i < j < |infos| && Auto(infos[i], config) && Auto(infos[j], config) ==>
      WireId(streams[i]) != WireId(streams[j])
  }

  /** What is on the wire of the i-th packet: its own id if it was given one. */
  lemma StreamFilled(
    streams: seq<seq<byte>>, i: nat, infos: seq<Info>, payloads: seq<seq<byte>>, config: byte, tx: Endpoint,
    port: uint16, seed: uint16, room: nat
  )
    requires RunFits(infos, payloads, config, tx, port, room) && i < |infos|
    requires Streamed(streams, i, infos, payloads, config, tx, port, seed)
    ensures var id := PreparedIn(infos, i, config, tx, port, seed).id;
            && Filled(streams[i], infos[i], config, tx, port, id)
            && (Asked(infos[i], config) & 0x80 != 0 ==> WireId(streams[i]) == id)
            && (!Auto(infos[i], config) ==> id == infos[i].id)
  {
    assert PacketFits(infos[i], |payloads[i]|, config, tx, port, room);
    hide PacketFits, Filled, IdPlace, Packet, Prepared, Auto, SeedRun, Asked;
    var at := SeedRun(infos[..i], config, seed);
    SeedFits(infos[i], |payloads[i]|, config, tx, port, room, at);
    PreparedFilled(infos[i], config, tx, port, at, payloads[i]);
    IdInRun(infos, i, config, tx, port, seed);
    FilledId(streams[i], infos[i], config, tx, port, PreparedIn(infos, i, config, tx, port, seed).id);
  }

  lemma FilledId(s: seq<byte>, info: Info, config: byte, tx: Endpoint, port: uint16, id: uint16)
    requires Filled(s, info, config, tx, port, id)
    ensures Asked(info, config) & 0x80 != 0 ==> WireId(s) == id
  {
    hide Asked, PortFor, Number, IdPlace;
  }

  /** So the ids on the wire are distinct under exactly that condition. */
  lemma RunOnWire(
    streams: seq<seq<byte>>, infos: seq<Info>, payloads: seq<seq<byte>>, config: byte, tx: Endpoint, port: uint16,
    seed: uint16, room: nat
  )
    requires RunFits(infos, payloads, config, tx, port, room) && |streams| == |infos|
    requires forall i :: 0 <= i < |infos| ==> Streamed(streams, i, infos, payloads, config, tx, port, seed)
    ensures WireIdsDistinct(streams, infos, config)
            <==> seed + Autos(infos, config) <= 0x10000 && Autos(infos, config) <= 0xFFFF
  {
    RunIdsDistinct(infos, config, tx, port, seed);
    hide RunFits, Streamed, Filled, PreparedIn, WireId, Asked, Autos;
    forall i | 0 <= i < |infos| && Auto(infos[i], config)
      ensures WireId(streams[i]) == PreparedIn(infos, i, config, tx, port, seed).id
    {
      StreamFilled(streams, i, infos, payloads, config, tx, port, seed, room);
    }
  }

  /** A device composes one packet after the other. Every packet carries what Filled says of its id, port and
      sender, and those numbered by the device carry distinct ids exactly as long as the seed allows. */
  method ComposeRun(a: PJON, infos: seq<Info>, payloads: seq<seq<byte>>) returns (streams: seq<seq<byte>>)
    requires a.Valid() && RunFits(infos, payloads, a.config, a.tx, a.port, a.data.Length)
    modifies a.data, a`packetIdSeed, a`errors
    ensures a.Valid() && a.packetIdSeed == SeedRun(infos, a.config, old(a.packetIdSeed)) && |streams| == |infos|
    ensures forall i :: 0 <= i < |infos| ==>
              && Streamed(streams, i, infos, payloads, a.config, a.tx, a.port, old(a.packetIdSeed))
              && Filled(streams[i], infos[i], a.config, a.tx, a.port,
                        PreparedIn(infos, i, a.config, a.tx, a.port, old(a.packetIdSeed)).id)
              && (!Auto(infos[i], a.config) ==>
                    PreparedIn(infos, i, a.config, a.tx, a.port, old(a.packetIdSeed)).id == infos[i].id)
    ensures WireIdsDistinct(streams, infos, a.config)
            <==> old(a.packetIdSeed) + Autos(infos, a.config) <= 0x10000 && Autos(infos, a.config) <= 0xFFFF
  {
    ghost var seed := a.packetIdSeed;
    streams := [];
    assert infos[..0] == [] && SeedRun([], a.config, seed) == seed;
    hide *;
    for k := 0 to |infos|
      invariant a.Valid() && |streams| == k && a.packetIdSeed == SeedRun(infos[..k], a.config, seed)
      invariant forall i :: 0 <= i < k ==> Streamed(streams, i, infos, payloads, a.config, a.tx, a.port, seed)
    {
      var stream := ComposeNext(a, infos, payloads, k, seed);
      StreamsGrow(streams, stream, infos, payloads, a.config, a.tx, a.port, seed);
      streams := streams + [stream];
    }
    assert infos[..|infos|] == infos;
    RunOnWire(streams, infos, payloads, a.config, a.tx, a.port, seed, a.data.Length);
    forall i | 0 <= i < |infos|
      ensures Filled(streams[i], infos[i], a.config, a.tx, a.port,
                     PreparedIn(infos, i, a.config, a.tx, a.port, seed).id)
              && (!Auto(infos[i], a.config) ==>
                    PreparedIn(infos, i, a.config, a.tx, a.port, seed).id == infos[i].id)
    {
      StreamFilled(streams, i, infos, payloads, a.config, a.tx, a.port, seed, a.data.Length);
    }
  }

  /** The next stream extends the streams so far. */
  lemma StreamsGrow(
    streams: seq<seq<byte>>, stream: seq<byte>, infos: seq<Info>, payloads: seq<seq<byte>>, config: byte,
    tx: Endpoint, port: uint16, seed: uint16
  )
    requires forall i :: 0 <= i < |streams| ==> Streamed(streams, i, infos, payloads, config, tx, port, seed)
    requires NextStream(stream, |streams|, infos, payloads, config, tx, port, seed)
    ensures forall i :: 0 <= i <= |streams| ==>
              Streamed(streams + [stream], i, infos, payloads, config, tx, port, seed)
  {
    hide PreparedIn, Packet, Sized;
    forall i | 0 <= i <= |streams|
      ensures Streamed(streams + [stream], i, infos, payloads, config, tx, port, seed)
    {
      if i < |streams| { assert Streamed(streams, i, infos, payloads, config, tx, port, seed); }
    }
  }

  predicate NextStream(
    stream: seq<byte>, k: nat, infos: seq<Info>, payloads: seq<seq<byte>>, config: byte, tx: Endpoint, port: uint16,
    seed: uint16
  ) {
    && k < |infos| && k < |payloads|
    && var p := PreparedIn(infos, k, config, tx, port, seed);
       Sized(p, |payloads[k]|) && stream == Packet(p, payloads[k])
  }

  method ComposeNext(a: PJON, infos: seq<Info>, payloads: seq<seq<byte>>, k: nat, ghost seed: uint16)
    returns (stream: seq<byte>)
    requires a.Valid() && RunFits(infos, payloads, a.config, a.tx, a.port, a.data.Length) && k < |infos|
    requires a.packetIdSeed == SeedRun(infos[..k], a.config, seed)
    modifies a.data, a`packetIdSeed, a`errors
    ensures a.Valid() && a.packetIdSeed == SeedRun(infos[..k + 1], a.config, seed)
    ensures NextStream(stream, k, infos, payloads, a.config, a.tx, a.port, seed)
  {
    assert PacketFits(infos[k], |payloads[k]|, a.config, a.tx, a.port, a.data.Length) && |payloads[k]| >= 1;
    assert infos[..k + 1][..k] == infos[..k];
    hide PacketFits, Prepared, Packet, Sized, Fits, RunFits, SeedLeft;
    SeedFits(infos[k], |payloads[k]|, a.config, a.tx, a.port, a.data.Length, a.packetIdSeed);
    stream := ComposeStream(a, infos[k], payloads[k]);
  }
}
