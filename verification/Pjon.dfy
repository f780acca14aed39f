/** A PJON device: its buffers and settings as fields changed in place, and the calls that change
    them. What a call hands to the strategy and to the callbacks is kept in the logs `sent`,
    `responses`, `received` and `errors`. */
module Pjon {
  import opened Words
  import opened Packets
  import opened PacketCodec
  import opened PacketTools
  import opened Reception
  import opened SendQueue
  import Crc8
  import Crc32

  const NO_HEADER: byte := 0x48

  datatype Error = ConnectionLost(index: nat) | PacketsBufferFull | ContentTooLong(length: nat)

  /** What the medium and the clock do while update looks at one slot. */
  datatype Moment = Moment(due: bool, canStart: bool, response: bool, now: nat)

  /** The info a device actually composes for `info`, and the packet id seed left. */
  function Prepared(info: Info, config: byte, tx: Endpoint, port: uint16, seed: uint16): Info {
    var h := if info.header == NO_HEADER then config else info.header;
    var id := if info.id == 0 && HasId(h) then NewPacketId(seed) else info.id;
    var p := if port != NO_PORT && info.port == NO_PORT && HasPort(h) then port else info.port;
    info.(tx := tx, header := h, id := id, port := p)
  }

  /** The packet id seed left by that. */
  function SeedLeft(info: Info, config: byte, seed: uint16): uint16 {
    if info.id == 0 && HasId(if info.header == NO_HEADER then config else info.header) then NextSeed(seed) else seed
  }

  /** The queue when update has passed the first n slots. */
  function Swept(slots: seq<Slot>, moments: nat -> Moment, halfDuplex: bool, autoDelete: bool, max: nat, n: nat)
    : (r: seq<Slot>)
    requires forall i :: 0 <= i < |slots| ==> |slots[i].content| >= 2
    ensures |r| == |slots|
  {
    seq(|slots|, i requires 0 <= i < |slots| =>
      if i < n then SlotUpdate(slots[i], moments(i), halfDuplex, autoDelete, max).0 else slots[i])
  }

  /** Slot i is the one a packet is dispatched to: the one given, or the first free one. */
  predicate IsTarget(slots: seq<Slot>, packetIndex: nat, i: nat)
    requires i < |slots|
  {
    if packetIndex != FAIL then i == packetIndex
    else !Occupied(slots[i]) && forall j :: 0 <= j < i ==> Occupied(slots[j])
  }

  predicate SlotFits(s: Slot, max: nat) {
    |s.content| == max && s.length <= max
  }

  /** The frames handed to the strategy when update finds the slot due. */
  function SlotSends(s: Slot, m: Moment, halfDuplex: bool): seq<seq<byte>>
    requires s.length <= |s.content|
  {
    if !Occupied(s) || !m.due || s.state == ACK || (halfDuplex && !m.canStart) then [] else [s.content[..s.length]]
  }

  function Sends(slots: seq<Slot>, moments: nat -> Moment, halfDuplex: bool, n: nat): seq<seq<byte>>
    requires n <= |slots| && forall i :: 0 <= i < |slots| ==> slots[i].length <= |slots[i].content|
  {
    if n == 0 then []
    else Sends(slots, moments, halfDuplex, n - 1) + SlotSends(slots[n - 1], moments(n - 1), halfDuplex)
  }

  /** The errors update reports for the first n slots. */
  function Losses(slots: seq<Slot>, moments: nat -> Moment, halfDuplex: bool, autoDelete: bool, max: nat, n: nat)
    : seq<Error>
    requires n <= |slots| && forall i :: 0 <= i < |slots| ==> |slots[i].content| >= 2
  {
    if n == 0 then []
    else
      Losses(slots, moments, halfDuplex, autoDelete, max, n - 1)
      + if SlotUpdate(slots[n - 1], moments(n - 1), halfDuplex, autoDelete, max).1 == Lost
        then [ConnectionLost(n - 1)] else []
  }

  function SlotUpdate(s: Slot, m: Moment, halfDuplex: bool, autoDelete: bool, max: nat): (Slot, Event)
    requires |s.content| >= 2
  {
    UpdateSlot(s, m.due, SendCode(s.content, halfDuplex, m.canStart, m.response), autoDelete, m.now, max)
  }

  /** Nothing in a frame lies beyond the announced length that could make the device give up. */
  lemma GivesUpEarly(dev: Device, s: seq<byte>, i: nat, max: nat)
    requires i < |s| && |s| >= 3 && (Extended(s[1]) ==> |s| >= 4) && GivesUp(dev, s, i, max)
    requires !LengthRejected(s[1], StoredLength(s), max)
    ensures i < StoredLength(s)
  {
    hide HasCrc32, HasPort, HasId, HasMac, HasTx, Shared, Extended, StoredLength, AckRequested;
  }

  lemma {:induction false} NoneOccupied(slots: seq<Slot>)
    requires forall i :: 0 <= i < |slots| ==> !Occupied(slots[i])
    ensures Count(slots) == 0
  {
    if slots != [] { NoneOccupied(slots[..|slots| - 1]); }
  }

  class PJON {
    const data: array<byte>
    const packets: array<Slot>
    const recentPacketIds: array<Record>
    const maxAttempts: nat
    var config: byte
    var tx: Endpoint
    var port: uint16
    var lastPacketInfo: Info
    var autoDelete: bool
    var halfDuplex: bool
    var router: bool
    var packetIdSeed: uint16
    var sent: seq<seq<byte>>
    var responses: nat
    var received: seq<(seq<byte>, Info)>
    var errors: seq<Error>

    ghost predicate Valid()
      reads this, packets
    {
      && 35 <= data.Length <= 0xFFFF && recentPacketIds.Length > 0 && maxAttempts < 255
      && data as object != packets && data as object != recentPacketIds && packets as object != recentPacketIds
      && forall i :: 0 <= i < packets.Length ==> SlotFits(packets[i], data.Length)
    }

    /** The state of a new device: every slot free, half duplex, sender information included and
        acknowledgement requested. */
    ghost predicate New(endpoint: Endpoint, options: byte, bytes: nat, slots: nat, recent: seq<Record>, attempts: nat)
      reads this, packets, recentPacketIds
    {
      && Valid() && QueueOk()
      && data.Length == bytes && packets.Length == slots && maxAttempts == attempts
      && recentPacketIds[..] == recent && Count(packets[..]) == 0
      && Dev() == Device(endpoint, TX_INFO_BIT | ACK_REQ_BIT | options, NO_PORT, false, true)
      && autoDelete && sent == [] && responses == 0 && received == [] && errors == []
    }

    /** A local device. `recent` is what the records happen to hold. */
    constructor (deviceId: byte, bytes: nat, slots: nat, recent: seq<Record>, attempts: nat)
      requires 35 <= bytes <= 0xFFFF && recent != [] && attempts < 255
      ensures fresh(data) && fresh(packets) && fresh(recentPacketIds)
      ensures New(Endpoint(deviceId, LOCALHOST, NO_MAC), 0, bytes, slots, recent, attempts)
    {
      data := new byte[bytes];
      packets := new Slot[slots](i => Slot(0, seq(bytes, j => 0), 0, 0, 0, 0));
      recentPacketIds := new Record[|recent|](i requires 0 <= i < |recent| => recent[i]);
      maxAttempts := attempts;
      config, tx, port := TX_INFO_BIT | ACK_REQ_BIT, Endpoint(deviceId, LOCALHOST, NO_MAC), NO_PORT;
      lastPacketInfo := Info(UNSET, UNSET, NO_HEADER, 0, 0, NO_PORT);
      autoDelete, halfDuplex, router, packetIdSeed := true, true, false, 0;
      sent, responses, received, errors := [], 0, [], [];
      new;
      assert recentPacketIds[..] == recent;
      NoneOccupied(packets[..]);
    }

    /** A device of a shared bus. */
    constructor OnSharedBus(busId: BusId, deviceId: byte, bytes: nat, slots: nat, recent: seq<Record>, attempts: nat)
      requires 35 <= bytes <= 0xFFFF && recent != [] && attempts < 255
      ensures fresh(data) && fresh(packets) && fresh(recentPacketIds)
      ensures New(Endpoint(deviceId, busId, NO_MAC), MODE_BIT, bytes, slots, recent, attempts)
    {
      data := new byte[bytes];
      packets := new Slot[slots](i => Slot(0, seq(bytes, j => 0), 0, 0, 0, 0));
      recentPacketIds := new Record[|recent|](i requires 0 <= i < |recent| => recent[i]);
      maxAttempts := attempts;
      config, tx, port := TX_INFO_BIT | ACK_REQ_BIT | MODE_BIT, Endpoint(deviceId, busId, NO_MAC), NO_PORT;
      lastPacketInfo := Info(UNSET, UNSET, NO_HEADER, 0, 0, NO_PORT);
      autoDelete, halfDuplex, router, packetIdSeed := true, true, false, 0;
      sent, responses, received, errors := [], 0, [], [];
      new;
      assert recentPacketIds[..] == recent;
      NoneOccupied(packets[..]);
    }

    /** A device known by its MAC address. */
    constructor WithMac(mac: Mac, bytes: nat, slots: nat, recent: seq<Record>, attempts: nat)
      requires 35 <= bytes <= 0xFFFF && recent != [] && attempts < 255
      ensures fresh(data) && fresh(packets) && fresh(recentPacketIds)
      ensures New(Endpoint(NOT_ASSIGNED, LOCALHOST, mac), MAC_BIT, bytes, slots, recent, attempts)
    {
      data := new byte[bytes];
      packets := new Slot[slots](i => Slot(0, seq(bytes, j => 0), 0, 0, 0, 0));
      recentPacketIds := new Record[|recent|](i requires 0 <= i < |recent| => recent[i]);
      maxAttempts := attempts;
      config, tx, port := TX_INFO_BIT | ACK_REQ_BIT | MAC_BIT, Endpoint(NOT_ASSIGNED, LOCALHOST, mac), NO_PORT;
      lastPacketInfo := Info(UNSET, UNSET, NO_HEADER, 0, 0, NO_PORT);
      autoDelete, halfDuplex, router, packetIdSeed := true, true, false, 0;
      sent, responses, received, errors := [], 0, [], [];
      new;
      assert recentPacketIds[..] == recent;
      NoneOccupied(packets[..]);
    }

    function Dev(): Device
      reads this`tx, this`config, this`port, this`router, this`halfDuplex
    {
      Device(tx, config, port, router, halfDuplex)
    }

    // -------------------------------------------------------------- receiving

    /** One call of the strategy: the next bytes of the stream, at most `room` and at least one while
        there are any. `wanted` is where this call cuts the stream. */
    method ReceiveBatch(stream: seq<byte>, at: nat, room: nat, wanted: nat) returns (batch: nat)
      requires at <= |stream| && at + room <= data.Length && room > 0
      requires forall j :: 0 <= j < at ==> data[j] == stream[j]
      modifies data
      ensures batch <= room && at + batch <= |stream| && (batch == 0 <==> at == |stream|)
      ensures forall j :: 0 <= j < at + batch ==> data[j] == stream[j]
    {
      batch := wanted + 1;
      if batch > room { batch := room; }
      if batch > |stream| - at { batch := |stream| - at; }
      ghost var d := data[..];
      var next := Put(data, at, stream[at..at + batch]);
      forall j | 0 <= j < at + batch ensures data[j] == stream[j] { assert data[j] == data[..][j]; }
    }

    /** The tests on receiver id and header, once both are in the buffer. */
    method RejectsHeader(drop: bool) returns (rejects: bool)
      requires Valid() && drop == (data[0] != tx.id && data[0] != BROADCAST && !router)
      ensures rejects == HeaderRejected(Dev(), data[0], data[1])
    {
      hide HasCrc32, HasPort, HasId, HasMac, HasTx, Shared, Extended, AckRequested;
      var mac := HasMac(data[1]);
      rejects := (!router && Shared(config) && !Shared(data[1]))
                 || (data[0] == BROADCAST && AckRequested(data[1]))
                 || (Extended(data[1]) && !HasCrc32(data[1]))
                 || (mac && !HasCrc32(data[1]))
                 || (drop && !mac);
    }

    /** The test on a byte of the receiver's bus id. */
    method RejectsBus(i: nat, extra: nat) returns (rejects: bool)
      requires Valid() && 3 + extra < i < 8 + extra && i < data.Length
      ensures rejects == BusRejected(Dev(), data[1], data[i], i - 4 - extra)
    {
      hide HasMac, Shared;
      rejects := false;
      if Shared(data[1]) && !router && !HasMac(data[1]) {
        if Shared(config) {
          rejects := tx.busId[i - 4 - extra] != data[i];
        } else {
          rejects := data[i] != 0;
        }
      }
    }

    /** The reading loop: bytes are filtered as they come, whatever the batches they come in. `cuts`
        tells how many bytes each call of the strategy brings. */
    method ReadFrame(stream: seq<byte>, cuts: nat -> nat) returns (reading: Reading)
      requires Valid()
      modifies data
      ensures reading == Read(Dev(), stream, data.Length)
      ensures reading.Frame? ==>
                4 <= reading.length < data.Length && reading.length <= |stream|
                && !LengthRejected(data[1], reading.length, data.Length)
                && !HeaderRejected(Dev(), data[0], data[1])
                && forall j :: 0 <= j < reading.length ==> data[j] == stream[j]
    {
      hide Extended, Overhead, Word, ByteToInt, GivesUp, LengthRejected, HeaderRejected, BusRejected;
      var length := data.Length;
      var batchLength, calls, extra := 0, 0, 0;
      var drop := false;
      var i := 0;
      while i < length
        invariant Valid() && i <= length <= data.Length && i + batchLength <= |stream|
        invariant i + batchLength <= data.Length
        invariant forall j :: 0 <= j < i + batchLength ==> data[j] == stream[j]
        invariant forall j :: 0 <= j < i ==> !GivesUp(Dev(), stream, j, data.Length)
        invariant i > 0 ==> drop == (stream[0] != tx.id && stream[0] != BROADCAST && !router)
        invariant i > 1 ==> extra == LengthExtra(stream)
        invariant if i > 2 && i > 2 + extra then
                    length == StoredLength(stream) && !LengthRejected(stream[1], length, data.Length)
                  else length == data.Length
        decreases data.Length - i
      {
        if batchLength == 0 {
          batchLength := ReceiveBatch(stream, i, length - i, cuts(calls));
          calls := calls + 1;
          if batchLength == 0 {
            StarvedRead(Dev(), stream, data.Length, length);
            return Starved;
          }
        }
        batchLength := batchLength - 1;
        GivesUpWhen(Dev(), stream, i, data.Length);
        if i == 0 { drop := data[0] != tx.id && data[0] != BROADCAST && !router; }
        if i == 1 {
          var rejects := RejectsHeader(drop);
          if rejects {
            assert GivesUp(Dev(), stream, i, data.Length);
            return GaveUp;
          }
          extra := if Extended(data[1]) then 1 else 0;
        }
        if i >= 2 && i == 2 + extra {
          length := if extra == 0 then ByteToInt(data[2]) else Word(data[2], data[3]);
          assert length == StoredLength(stream);
          if LengthRejected(data[1], length, data.Length) {
            assert GivesUp(Dev(), stream, i, data.Length);
            return GaveUp;
          }
          LengthRoom(data[1], length, data.Length);
        }
        if i > 1 && 3 + extra < i < 8 + extra {
          var rejects := RejectsBus(i, extra);
          if rejects {
            assert GivesUp(Dev(), stream, i, data.Length);
            return GaveUp;
          }
        }
        i := i + 1;
      }
      forall j | 0 <= j < |stream| ensures !GivesUp(Dev(), stream, j, data.Length) {
        if GivesUp(Dev(), stream, j, data.Length) { GivesUpEarly(Dev(), stream, j, data.Length); }
      }
      LengthRoom(stream[1], length, data.Length);
      GivesUpWhen(Dev(), stream, 1, data.Length);
      reading := Frame(length);
    }

    /** The header CRC and the CRC at the end of the frame. */
    method ChecksCrc(length: nat) returns (ok: bool)
      requires Valid() && 5 <= length <= data.Length && Overhead(data[1]) <= length
      ensures ok <==> HeaderCrcOk(data[..]) && TrailerOk(data[..], length)
    {
      ghost var d := data[..];
      var extra := if Extended(data[1]) then 1 else 0;
      hide Extended, Overhead, HasCrc32;
      assert data[..3 + extra] == d[..3 + extra];
      var crc := Crc8.Compute(data, 3 + extra);
      if crc != data[3 + extra] { return false; }
      ok := ChecksTrailer(length);
    }

    method ChecksTrailer(length: nat) returns (ok: bool)
      requires Valid() && 5 <= length <= data.Length
      ensures ok <==> TrailerOk(data[..], length)
    {
      ghost var d := data[..];
      hide HasCrc32;
      if HasCrc32(data[1]) {
        var computed := Crc32.Compute(data, length - 4);
        ok := Crc32.Compare(computed, data, length - 4);
        assert data[..length - 4] == d[..length - 4] && data[length - 4..length] == d[length - 4..length];
      } else {
        var crc := Crc8.Compute(data, length - 1);
        ok := crc == data[length - 1];
        assert data[..length - 1] == d[..length - 1] && d[length - 1..length] == [data[length - 1]];
      }
    }

    method ChecksMac(length: nat) returns (ok: bool)
      requires Valid() && 5 <= length <= data.Length && Overhead(data[1]) <= length
      requires !HeaderRejected(Dev(), data[0], data[1])
      ensures ok <==> MacOk(Dev(), data[..], length)
    {
      MacPosition(data[1]);
      hide Overhead, HasMac, HasCrc32, MacsAt, Shared, Extended, AckRequested;
      ok := true;
      if HasMac(data[1]) && length > 15 && !router {
        var overhead := Overhead(data[1]);
        var mac := CopyId(data, overhead - 16, 6);
        ok := IdEquality(mac, tx.mac, 6);
        assert mac[..6] == mac && tx.mac[..6] == tx.mac && NO_MAC[..6] == NO_MAC;
        if !ok { ok := IdEquality(mac, NO_MAC, 6); }
      }
    }

    method SavePacketId(info: Info)
      requires Valid()
      modifies recentPacketIds
      ensures Valid() && recentPacketIds[..] == Save(old(recentPacketIds[..]), info)
    {
      for i := recentPacketIds.Length - 1 downto 0
        invariant forall j :: i < j < recentPacketIds.Length ==> recentPacketIds[j] == old(recentPacketIds[j - 1])
        invariant forall j :: 0 <= j <= i ==> recentPacketIds[j] == old(recentPacketIds[j])
        invariant Valid()
      {
        recentPacketIds[i + 1] := recentPacketIds[i];
      }
      recentPacketIds[0] := Record(info.header, info.tx.id, info.tx.busId, info.id);
    }

    method KnownPacketId(info: Info) returns (known: bool)
      requires Valid()
      modifies recentPacketIds
      ensures Valid() && (known <==> Known(old(recentPacketIds[..]), info))
      ensures recentPacketIds[..]
              == if known then old(recentPacketIds[..]) else Save(old(recentPacketIds[..]), info)
    {
      hide Shared;
      for i := 0 to recentPacketIds.Length
        invariant recentPacketIds[..] == old(recentPacketIds[..])
        invariant forall j :: 0 <= j < i ==> RecordKey(recentPacketIds[..][j]) != KeyOf(info)
      {
        var r := recentPacketIds[i];
        assert r == recentPacketIds[..][i];
        assert info.tx.busId[..4] == info.tx.busId && r.senderBus[..4] == r.senderBus;
        var sameBus := IdEquality(info.tx.busId, r.senderBus, 4);
        if info.id == r.id && info.tx.id == r.sender
           && ((Shared(info.header) && Shared(r.header) && sameBus) || (!Shared(info.header) && !Shared(r.header)))
        {
          return true;
        }
      }
      SavePacketId(info);
      known := false;
    }

    /** What receiving a frame changed, compared with what it should come to. */
    twostate predicate Concluded(o: Outcome, code: int)
      reads this, recentPacketIds
    {
      && code == o.code
      && recentPacketIds[..] == o.recent
      && responses == old(responses) + (if o.responded then 1 else 0)
      && lastPacketInfo == (if o.info.Some? then o.info.value else old(lastPacketInfo))
      && received == old(received) + (if o.payload.Some? then [(o.payload.value, lastPacketInfo)] else [])
      && Dev() == old(Dev()) && sent == old(sent) && errors == old(errors)
    }

    /** After the acknowledgement: duplicates and other ports are filtered out, the rest goes to the
        callback. */
    method ConcludeFrame(payload: seq<byte>, ghost responded: bool) returns (code: int)
      requires Valid()
      modifies recentPacketIds, this`lastPacketInfo, this`received
      ensures Valid()
      ensures var o := Conclude(Dev(), old(recentPacketIds[..]), responded, Parsed(data[..]), payload);
              && code == o.code && recentPacketIds[..] == o.recent && o.info == Some(lastPacketInfo)
              && received == old(received) + (if o.payload.Some? then [(o.payload.value, lastPacketInfo)] else [])
    {
      hide Parsed, HasId, Save, Known;
      lastPacketInfo := ParseHeader(data);
      if !router && HasId(lastPacketInfo.header) {
        var known := KnownPacketId(lastPacketInfo);
        if known { return ACK; }
      }
      if port != NO_PORT && port != lastPacketInfo.port { return BUSY; }
      received := received + [(payload, lastPacketInfo)];
      return ACK;
    }

    method JudgeFrame(length: nat) returns (code: int)
      requires Valid() && 5 <= length <= data.Length && Overhead(data[1]) <= length
      requires !HeaderRejected(Dev(), data[0], data[1])
      modifies recentPacketIds, this`responses, this`lastPacketInfo, this`received
      ensures Valid()
      ensures Concluded(Judge(Dev(), old(recentPacketIds[..]), data[..], length), code)
    {
      hide Overhead, HasCrc32, CrcOverhead, HeaderCrcOk, TrailerOk, MacOk, AckRequested, Parsed, HeaderRejected;
      hide Conclude;
      var ok := ChecksCrc(length);
      if !ok { return NAK; }
      ok := ChecksMac(length);
      if !ok { return BUSY; }
      ghost var responded := AckRequested(data[1]) && data[0] != BROADCAST && halfDuplex && !router;
      if AckRequested(data[1]) && data[0] != BROADCAST {
        if halfDuplex && !router { responses := responses + 1; }
      }
      var start := Overhead(data[1]) - CrcOverhead(data[1]);
      var payload := data[start..start + (length - Overhead(data[1]))];
      assert payload == data[..][start..][..length - Overhead(data[1])];
      ConcludeResponds(Dev(), recentPacketIds[..], responded, Parsed(data[..]), payload);
      code := ConcludeFrame(payload, responded);
    }

    /** One call of receive on a stream of bytes cut in any way; see Reaction. */
    method Receive(stream: seq<byte>, cuts: nat -> nat) returns (code: int)
      requires Valid()
      modifies data, recentPacketIds, this`responses, this`lastPacketInfo, this`received
      ensures Valid()
      ensures Concluded(Reaction(Dev(), old(recentPacketIds[..]), stream, data[..]), code)
    {
      hide Overhead, HeaderRejected, LengthRejected, Read, Judge;
      var reading := ReadFrame(stream, cuts);
      match reading
      case GaveUp => return BUSY;
      case Starved => return FAIL;
      case Frame(length) =>
        LengthRoom(data[1], length, data.Length);
        code := JudgeFrame(length);
        assert stream[..length] + data[..][length..] == data[..];
    }

    // -------------------------------------------------------------- composing and transmitting

    method PrepareInfo(info: Info) returns (p: Info)
      modifies this`packetIdSeed
      ensures p == Prepared(info, config, tx, port, old(packetIdSeed))
      ensures packetIdSeed == SeedLeft(info, config, old(packetIdSeed))
    {
      hide HasId, HasPort;
      p := info.(tx := tx);
      if p.header == NO_HEADER { p := p.(header := config); }
      if p.id == 0 && HasId(p.header) {
        p := p.(id := NewPacketId(packetIdSeed));
        packetIdSeed := NextSeed(packetIdSeed);
      }
      if port != NO_PORT && p.port == NO_PORT && HasPort(p.header) { p := p.(port := port); }
    }

    method ComposePrepared(p: Info, destination: array<byte>, source: seq<byte>) returns (length: nat)
      requires Valid() && destination.Length == data.Length && Sized(p, |source|)
      modifies destination, this`errors
      ensures var n := PacketLength(p, |source|);
              && length == (if n < data.Length then n else 0)
              && errors == old(errors) + (if n < data.Length then [] else [ContentTooLong(n)])
              && (if n < data.Length then ComposedInto(destination[..], old(destination[..]), p, source)
                  else destination[..] == old(destination[..]))
    {
      assert destination.Length <= 0xFFFF;
      hide *;
      length := ComposePacket(p, destination, source);
      if length >= data.Length {
        errors := errors + [ContentTooLong(length)];
        length := 0;
      }
    }

    method Compose(info: Info, destination: array<byte>, source: seq<byte>) returns (length: nat)
      requires Valid() && destination.Length == data.Length
      requires Sized(Prepared(info, config, tx, port, packetIdSeed), |source|)
      modifies destination, this`packetIdSeed, this`errors
      ensures var p := Prepared(info, config, tx, port, old(packetIdSeed));
              var n := PacketLength(p, |source|);
              && length == (if n < data.Length then n else 0)
              && errors == old(errors) + (if n < data.Length then [] else [ContentTooLong(n)])
              && (if n < data.Length then ComposedInto(destination[..], old(destination[..]), p, source)
                  else destination[..] == old(destination[..]))
      ensures packetIdSeed == SeedLeft(info, config, old(packetIdSeed))
    {
      hide Prepared, ComposedInto, PacketLength, SeedLeft;
      ghost var before := destination[..];
      var p := PrepareInfo(info);
      assert destination[..] == before;
      length := ComposePrepared(p, destination, source);
    }

    /** Hands a composed packet to the strategy and waits for the response where one is due. */
    method SendPacket(packet: seq<byte>, length: nat, m: Moment) returns (code: nat)
      requires 2 <= |packet| && length <= |packet|
      modifies this`sent
      ensures code == SendCode(packet, halfDuplex, m.canStart, m.response)
      ensures sent == old(sent) + (if halfDuplex && !m.canStart then [] else [packet[..length]])
    {
      hide AckRequested;
      if halfDuplex && !m.canStart { return BUSY; }
      sent := sent + [packet[..length]];
      if packet[0] == BROADCAST || !AckRequested(packet[1]) || !halfDuplex { return ACK; }
      return if m.response then ACK else FAIL;
    }

    // -------------------------------------------------------------- the send queue

    /** Every slot of a device that deletes automatically is in order; see SlotOk. */
    ghost predicate QueueOk()
      reads this, packets
    {
      forall i :: 0 <= i < packets.Length ==> SlotOk(packets[i], maxAttempts)
    }

    /** What dispatching the prepared packet `p` comes to: the slot it belongs in gets it and no other
        slot changes, unless there is none or the packet is too long. */
    twostate predicate Dispatched(p: Info, source: seq<byte>, timing: nat, now: nat, packetIndex: nat, index: nat)
      reads this, packets
    {
      && Sized(p, |source|)
      && if forall i :: 0 <= i < packets.Length ==> !IsTarget(old(packets[..]), packetIndex, i) then
           index == FAIL && packets[..] == old(packets[..]) && errors == old(errors) + [PacketsBufferFull]
         else if PacketLength(p, |source|) >= data.Length then
           index == FAIL && packets[..] == old(packets[..])
           && errors == old(errors) + [ContentTooLong(PacketLength(p, |source|))]
         else
           && index < packets.Length && IsTarget(old(packets[..]), packetIndex, index) && errors == old(errors)
           && ComposedInto(packets[index].content, old(packets[index].content), p, source)
           && packets[..] == old(packets[..])[index := Slot(
                old(packets[index].attempts), packets[index].content, PacketLength(p, |source|), now,
                TO_BE_SENT, timing)]
    }

    /** Queues a packet, in the first free slot unless a slot is given. */
    method Dispatch(info: Info, source: seq<byte>, timing: nat, now: nat, packetIndex: nat := FAIL)
      returns (index: nat)
      requires Valid() && packets.Length < FAIL
      requires Sized(Prepared(info, config, tx, port, packetIdSeed), |source|)
      modifies packets, this`packetIdSeed, this`errors
      ensures Valid() && (old(QueueOk()) ==> QueueOk())
      ensures Dispatched(Prepared(info, config, tx, port, old(packetIdSeed)), source, timing, now, packetIndex, index)
      ensures packetIdSeed == if exists i :: 0 <= i < packets.Length && IsTarget(old(packets[..]), packetIndex, i)
                              then SeedLeft(info, config, old(packetIdSeed)) else old(packetIdSeed)
      ensures forall i :: 0 <= i < packets.Length && i != index ==> packets[i] == old(packets[i])
      ensures packetIndex == FAIL && index != FAIL ==>
                index < packets.Length && old(packets[index]).state == 0 && packets[index].state != 0
                && forall i :: 0 <= i < index ==> old(packets[i]).state != 0
      ensures packetIndex == FAIL && (forall i :: 0 <= i < packets.Length ==> old(packets[i]).state != 0) ==>
                index == FAIL && packets[..] == old(packets[..]) && errors == old(errors) + [PacketsBufferFull]
      ensures packetIndex != FAIL && index != FAIL ==> index == packetIndex
    {
      hide ComposedInto, PacketLength, Prepared, Sized, SeedLeft;
      var given := packetIndex != FAIL;
      var i := if given then packetIndex else 0;
      while i < packets.Length
        invariant given ==> i == packetIndex
        invariant packets[..] == old(packets[..]) && errors == old(errors) && packetIdSeed == old(packetIdSeed)
        invariant Valid() && (!given ==> i <= packets.Length && forall j :: 0 <= j < i ==> Occupied(old(packets[j])))
      {
        assert packets[i] == old(packets[..])[i];
        if packets[i].state == 0 || given {
          assert IsTarget(old(packets[..]), packetIndex, i);
          index := DispatchInto(i, info, source, timing, now);
          return;
        }
        i := i + 1;
      }
      errors := errors + [PacketsBufferFull];
      index := FAIL;
    }

    /** Composes a packet straight into slot i. */
    method DispatchInto(i: nat, info: Info, source: seq<byte>, timing: nat, now: nat) returns (index: nat)
      requires Valid() && i < packets.Length
      requires Sized(Prepared(info, config, tx, port, packetIdSeed), |source|)
      modifies packets, this`packetIdSeed, this`errors
      ensures Valid() && (old(QueueOk()) ==> QueueOk())
      ensures var p := Prepared(info, config, tx, port, old(packetIdSeed));
              if PacketLength(p, |source|) >= data.Length then
                index == FAIL && packets[..] == old(packets[..])
                && errors == old(errors) + [ContentTooLong(PacketLength(p, |source|))]
              else
                && index == i && errors == old(errors)
                && ComposedInto(packets[i].content, old(packets[i].content), p, source)
                && packets[..] == old(packets[..])[i := Slot(
                     old(packets[i].attempts), packets[i].content, PacketLength(p, |source|), now, TO_BE_SENT, timing)]
      ensures packetIdSeed == SeedLeft(info, config, old(packetIdSeed))
    {
      hide ComposedInto, PacketLength, Prepared, Sized, SeedLeft;
      var content := packets[i].content;
      var destination := new byte[data.Length](k requires 0 <= k < |content| => content[k]);
      assert destination[..] == content;
      PacketIsLonger(Prepared(info, config, tx, port, packetIdSeed), |source|);
      var length := Compose(info, destination, source);
      if length == 0 { return FAIL; }
      packets[i] := Slot(packets[i].attempts, destination[..], length, now, TO_BE_SENT, timing);
      return i;
    }

    method Remove(index: nat)
      requires Valid()
      modifies packets
      ensures Valid() && (old(QueueOk()) ==> QueueOk())
      ensures packets[..] == if index < packets.Length then old(packets[..])[index := Freed(old(packets[index]))]
                             else old(packets[..])
    {
      if index < packets.Length {
        packets[index] := packets[index].(attempts := 0);
        packets[index] := packets[index].(length := 0);
        packets[index] := packets[index].(registration := 0);
        packets[index] := packets[index].(state := 0);
      }
    }

    method ResetPacket(id: nat, now: nat) returns (removed: bool)
      requires Valid() && id < packets.Length && Occupied(packets[id])
      modifies packets
      ensures Valid() && packets[..] == old(packets[..])[id := Reset(old(packets[id]), autoDelete, now)]
      ensures removed <==> !Occupied(packets[id])
    {
      if packets[id].timing == 0 {
        if autoDelete {
          Remove(id);
          return true;
        }
      } else {
        packets[id] := packets[id].(attempts := 0);
        packets[id] := packets[id].(registration := now);
        packets[id] := packets[id].(state := TO_BE_SENT);
      }
      return false;
    }

    /** update for one slot that is due: transmit, count the attempt, then drop or keep the packet. */
    method UpdateDue(i: nat, m: Moment) returns (removed: bool)
      requires Valid() && i < packets.Length && Occupied(packets[i]) && m.due
      modifies packets, this`sent, this`errors
      ensures Valid()
      ensures var r := SlotUpdate(old(packets[i]), m, halfDuplex, autoDelete, maxAttempts);
              && packets[..] == old(packets[..])[i := r.0]
              && errors == old(errors) + (if r.1 == Lost then [ConnectionLost(i)] else [])
              && (removed <==> !Occupied(r.0))
      ensures sent == old(sent) + SlotSends(old(packets[i]), m, halfDuplex)
    {
      if packets[i].state != ACK {
        var code := SendPacket(packets[i].content, packets[i].length, m);
        packets[i] := packets[i].(state := code);
      }
      packets[i] := packets[i].(attempts := (packets[i].attempts + 1) % 256);
      removed := false;
      if packets[i].state == ACK {
        removed := ResetPacket(i, m.now);
        return;
      }
      if packets[i].attempts > maxAttempts {
        errors := errors + [ConnectionLost(i)];
        removed := ResetPacket(i, m.now);
      }
    }

    /** update for any slot; `left` is what the slot contributes to the number of packets left. */
    method VisitSlot(i: nat, m: Moment) returns (left: nat)
      requires Valid() && i < packets.Length
      modifies packets, this`sent, this`errors
      ensures Valid()
      ensures var r := SlotUpdate(old(packets[i]), m, halfDuplex, autoDelete, maxAttempts);
              && packets[..] == old(packets[..])[i := r.0]
              && errors == old(errors) + (if r.1 == Lost then [ConnectionLost(i)] else [])
              && left == (if Occupied(r.0) then 1 else 0)
      ensures sent == old(sent) + SlotSends(old(packets[i]), m, halfDuplex)
    {
      SlotUpdateIdle(packets[i], m, halfDuplex, autoDelete, maxAttempts);
      hide SlotUpdate;
      if packets[i].state == 0 { return 0; }
      left := 1;
      if m.due {
        var removed := UpdateDue(i, m);
        if removed { left := left - 1; }
      }
    }

    /** What an update of the queue `before` has done when it has passed the first i slots, from these logs
        on. */
    ghost predicate Passed(
      before: seq<Slot>, moments: nat -> Moment, i: nat, errors0: seq<Error>, sent0: seq<seq<byte>>, count: nat
    )
      reads this, packets
      requires i <= packets.Length == |before|
      requires forall j :: 0 <= j < |before| ==> |before[j].content| >= 2 && before[j].length <= |before[j].content|
    {
      && packets[..] == Swept(before, moments, halfDuplex, autoDelete, maxAttempts, i)
      && count == Count(packets[..][..i])
      && errors == errors0 + Losses(before, moments, halfDuplex, autoDelete, maxAttempts, i)
      && sent == sent0 + Sends(before, moments, halfDuplex, i)
    }

    method UpdateSlotAt(
      i: nat, moments: nat -> Moment, count: nat, ghost before: seq<Slot>, ghost errors0: seq<Error>,
      ghost sent0: seq<seq<byte>>
    ) returns (count': nat)
      requires Valid() && i < packets.Length == |before|
      requires forall j :: 0 <= j < |before| ==> |before[j].content| >= 2 && before[j].length <= |before[j].content|
      requires Passed(before, moments, i, errors0, sent0, count)
      modifies packets, this`sent, this`errors
      ensures Valid() && Passed(before, moments, i + 1, errors0, sent0, count')
    {
      UpdateStep(before, moments, halfDuplex, autoDelete, maxAttempts, i, errors0, sent0);
      hide Swept, Losses, Sends, Count, SlotUpdate, SlotSends;
      assert packets[i] == packets[..][i];
      var left := VisitSlot(i, moments(i));
      count' := count + left;
    }

    /** One update of the whole queue: every slot is updated once, lost connections are reported in
        order, and the result is the number of packets left. */
    method Update(moments: nat -> Moment) returns (packetsCount: nat)
      requires Valid()
      modifies packets, this`sent, this`errors
      ensures Valid() && packetsCount == Count(packets[..])
      ensures autoDelete && old(QueueOk()) ==> QueueOk()
      ensures packets[..] == Swept(old(packets[..]), moments, halfDuplex, autoDelete, maxAttempts, packets.Length)
      ensures errors == old(errors) + Losses(old(packets[..]), moments, halfDuplex, autoDelete, maxAttempts,
                                             packets.Length)
      ensures sent == old(sent) + Sends(old(packets[..]), moments, halfDuplex, packets.Length)
    {
      packetsCount := 0;
      ghost var before := packets[..];
      NothingSwept(before, moments, halfDuplex, autoDelete, maxAttempts);
      assert Passed(before, moments, 0, errors, sent, 0);
      hide *;
      for i := 0 to packets.Length
        invariant Valid() && Passed(before, moments, i, old(errors), old(sent), packetsCount)
      {
        packetsCount := UpdateSlotAt(i, moments, packetsCount, before, old(errors), old(sent));
      }
      PassedAll(before, moments, old(errors), old(sent), packetsCount);
      if autoDelete && old(QueueOk()) { QueueStaysOk(before, moments); }
    }

    lemma PassedAll(
      before: seq<Slot>, moments: nat -> Moment, errors0: seq<Error>, sent0: seq<seq<byte>>, count: nat
    )
      requires Valid() && packets.Length == |before|
      requires forall j :: 0 <= j < |before| ==> |before[j].content| >= 2 && before[j].length <= |before[j].content|
      requires Passed(before, moments, |before|, errors0, sent0, count)
      ensures packets[..] == Swept(before, moments, halfDuplex, autoDelete, maxAttempts, |before|)
      ensures errors == errors0 + Losses(before, moments, halfDuplex, autoDelete, maxAttempts, |before|)
      ensures sent == sent0 + Sends(before, moments, halfDuplex, |before|) && count == Count(packets[..])
    {
      hide Swept, Losses, Sends, Count;
      assert packets[..][..|before|] == packets[..];
    }

    lemma QueueStaysOk(before: seq<Slot>, moments: nat -> Moment)
      requires Valid() && |before| == packets.Length
      requires forall i :: 0 <= i < |before| ==> |before[i].content| >= 2 && SlotOk(before[i], maxAttempts)
      requires packets[..] == Swept(before, moments, halfDuplex, true, maxAttempts, packets.Length)
      ensures QueueOk()
    {
      SweptQueueOk(before, moments, halfDuplex, maxAttempts);
      hide Swept;
      assert forall i :: 0 <= i < packets.Length ==> packets[i] == packets[..][i];
    }

    /** The number of queued packets, or of those addressed to one device. */
    method GetPacketsCount(deviceId: byte) returns (count: nat)
      requires Valid()
      ensures count == |set i | 0 <= i < packets.Length && packets[i].state != 0
                                && (deviceId == NOT_ASSIGNED || packets[i].content[0] == deviceId)|
    {
      count := 0;
      ghost var counted: set<int> := {};
      for i := 0 to packets.Length
        invariant counted == set j | 0 <= j < i && packets[j].state != 0
                                     && (deviceId == NOT_ASSIGNED || packets[j].content[0] == deviceId)
        invariant count == |counted|
      {
        if packets[i].state == 0 { continue; }
        if deviceId == NOT_ASSIGNED || packets[i].content[0] == deviceId {
          count := count + 1;
          counted := counted + {i};
        }
      }
    }

    method RemoveAllPackets(deviceId: byte)
      requires Valid()
      modifies packets
      ensures Valid() && (old(QueueOk()) ==> QueueOk())
      ensures forall i :: 0 <= i < packets.Length ==>
                packets[i] == if Occupied(old(packets[i])) && (deviceId == 0 || old(packets[i]).content[0] == deviceId)
                              then Freed(old(packets[i])) else old(packets[i])
    {
      for i := 0 to packets.Length
        invariant Valid()
        invariant forall j :: i <= j < packets.Length ==> packets[j] == old(packets[j])
        invariant forall j :: 0 <= j < i ==>
                    packets[j] == if Occupied(old(packets[j]))
                                     && (deviceId == 0 || old(packets[j]).content[0] == deviceId)
                                  then Freed(old(packets[j])) else old(packets[j])
      {
        if packets[i].state == 0 { continue; }
        if deviceId == 0 || packets[i].content[0] == deviceId { Remove(i); }
      }
    }

    // -------------------------------------------------------------- forwarding and replying

    /** Queues a packet on behalf of another endpoint, one hop further. A packet over the hop limit is
        not queued, and the device is left with the other endpoint as its own. */
    method Forward(info: Info, payload: seq<byte>, now: nat) returns (result: nat)
      requires Valid() && packets.Length < FAIL
      requires Sized(Prepared(Hopped(info), config, info.tx, port, packetIdSeed), |payload|)
      modifies packets, this`packetIdSeed, this`errors, this`tx
      ensures Valid() && (old(QueueOk()) ==> QueueOk())
      ensures if Dropped(info) then
                result == FAIL && tx == info.tx && packets[..] == old(packets[..]) && errors == old(errors)
              else
                && tx == old(tx)
                && Dispatched(Prepared(Hopped(info), config, info.tx, port, old(packetIdSeed)), payload, 0, now, FAIL,
                              result)
    {
      hide Prepared, ComposedInto, PacketLength, SlotOk, Sized;
      var original := tx;
      tx := info.tx;
      var forwarded := info.(hops := info.hops + 1);
      if forwarded.hops > MAX_HOPS { return FAIL; }
      result := Dispatch(forwarded, payload, 0, now);
      tx := original;
    }

    /** Queues an answer to the sender of the last packet received. */
    method Reply(payload: seq<byte>, now: nat) returns (result: nat)
      requires Valid() && packets.Length < FAIL
      requires Sized(Prepared(ReplyInfo(lastPacketInfo, config), config, tx, port, packetIdSeed), |payload|)
      modifies packets, this`packetIdSeed, this`errors
      ensures Valid() && (old(QueueOk()) ==> QueueOk())
      ensures var answer := lastPacketInfo.(rx := lastPacketInfo.tx, header := config, hops := 0);
              Dispatched(Prepared(answer, config, tx, port, old(packetIdSeed)), payload, 0, now, FAIL, result)
    {
      hide Prepared, ComposedInto, PacketLength, SlotOk, Sized;
      var info := lastPacketInfo;
      info := info.(rx := info.tx, header := config, hops := 0);
      result := Dispatch(info, payload, 0, now);
    }
  }

  /** The reasons to give up, by position. */
  lemma GivesUpWhen(dev: Device, s: seq<byte>, i: nat, max: nat)
    requires i < |s|
    ensures i == 0 ==> !GivesUp(dev, s, i, max)
    ensures i == 1 ==> (GivesUp(dev, s, i, max) <==> HeaderRejected(dev, s[0], s[1]))
    ensures i >= 2 && i == 2 + LengthExtra(s) ==>
              (GivesUp(dev, s, i, max) <==> LengthRejected(s[1], StoredLength(s), max))
    ensures i >= 2 && i != 2 + LengthExtra(s) && 3 + LengthExtra(s) < i < 8 + LengthExtra(s) ==>
              (GivesUp(dev, s, i, max) <==> BusRejected(dev, s[1], s[i], i - 4 - LengthExtra(s)))
    ensures i >= 2 && i != 2 + LengthExtra(s) && !(3 + LengthExtra(s) < i < 8 + LengthExtra(s)) ==>
              !GivesUp(dev, s, i, max)
  {
    hide HeaderRejected, LengthRejected, BusRejected, StoredLength, Extended;
  }

  /** The stream ended before the frame did. */
  lemma StarvedRead(dev: Device, s: seq<byte>, max: nat, length: nat)
    requires forall j :: 0 <= j < |s| ==> !GivesUp(dev, s, j, max)
    requires |s| < length && (|s| > 2 && |s| > 2 + LengthExtra(s) ==> length == StoredLength(s))
    ensures Read(dev, s, max) == Starved
  {
    hide GivesUp, StoredLength, Extended;
  }

  /** The info of an answer: the sender becomes the receiver, everything else is kept. */
  function ReplyInfo(last: Info, config: byte): Info {
    last.(rx := last.tx, header := config, hops := 0)
  }

  lemma LossesStep(slots: seq<Slot>, moments: nat -> Moment, halfDuplex: bool, autoDelete: bool, max: nat, i: nat)
    requires i < |slots| && forall j :: 0 <= j < |slots| ==> |slots[j].content| >= 2
    ensures Losses(slots, moments, halfDuplex, autoDelete, max, i + 1)
            == Losses(slots, moments, halfDuplex, autoDelete, max, i)
               + if SlotUpdate(slots[i], moments(i), halfDuplex, autoDelete, max).1 == Lost
                 then [ConnectionLost(i)] else []
  {
  }

  lemma SweptStep(slots: seq<Slot>, moments: nat -> Moment, halfDuplex: bool, autoDelete: bool, max: nat, i: nat)
    requires i < |slots| && forall j :: 0 <= j < |slots| ==> |slots[j].content| >= 2
    ensures Swept(slots, moments, halfDuplex, autoDelete, max, i)[i] == slots[i]
    ensures Swept(slots, moments, halfDuplex, autoDelete, max, i + 1)
            == Swept(slots, moments, halfDuplex, autoDelete, max, i)
                 [i := SlotUpdate(slots[i], moments(i), halfDuplex, autoDelete, max).0]
  {
    hide SlotUpdate;
  }

  lemma CountSwept(slots: seq<Slot>, moments: nat -> Moment, halfDuplex: bool, autoDelete: bool, max: nat, i: nat)
    requires i < |slots| && forall j :: 0 <= j < |slots| ==> |slots[j].content| >= 2
    ensures Count(Swept(slots, moments, halfDuplex, autoDelete, max, i + 1)[..i + 1])
            == Count(Swept(slots, moments, halfDuplex, autoDelete, max, i)[..i])
               + if Occupied(SlotUpdate(slots[i], moments(i), halfDuplex, autoDelete, max).0) then 1 else 0
  {
    var s, s' := Swept(slots, moments, halfDuplex, autoDelete, max, i),
                 Swept(slots, moments, halfDuplex, autoDelete, max, i + 1);
    hide SlotUpdate, Swept;
    assert s'[..i + 1][..i] == s[..i];
  }

  lemma SendsStep(slots: seq<Slot>, moments: nat -> Moment, halfDuplex: bool, i: nat)
    requires i < |slots| && forall j :: 0 <= j < |slots| ==> slots[j].length <= |slots[j].content|
    ensures Sends(slots, moments, halfDuplex, i + 1)
            == Sends(slots, moments, halfDuplex, i) + SlotSends(slots[i], moments(i), halfDuplex)
  {
  }

  lemma NothingSwept(slots: seq<Slot>, moments: nat -> Moment, halfDuplex: bool, autoDelete: bool, max: nat)
    requires forall j :: 0 <= j < |slots| ==> |slots[j].content| >= 2 && slots[j].length <= |slots[j].content|
    ensures Swept(slots, moments, halfDuplex, autoDelete, max, 0) == slots && Count(slots[..0]) == 0
    ensures forall log: seq<Error> :: log + Losses(slots, moments, halfDuplex, autoDelete, max, 0) == log
    ensures forall log: seq<seq<byte>> :: log + Sends(slots, moments, halfDuplex, 0) == log
  {
  }

  /** What visiting slot i adds to the queue, the count and the two logs. */
  lemma UpdateStep(
    slots: seq<Slot>, moments: nat -> Moment, halfDuplex: bool, autoDelete: bool, max: nat, i: nat,
    errors: seq<Error>, sent: seq<seq<byte>>
  )
    requires i < |slots|
    requires forall j :: 0 <= j < |slots| ==> |slots[j].content| >= 2 && slots[j].length <= |slots[j].content|
    ensures var swept, swept' := Swept(slots, moments, halfDuplex, autoDelete, max, i),
                                 Swept(slots, moments, halfDuplex, autoDelete, max, i + 1);
            var r := SlotUpdate(slots[i], moments(i), halfDuplex, autoDelete, max);
            && swept[i] == slots[i] && swept' == swept[i := r.0]
            && Count(swept'[..i + 1]) == Count(swept[..i]) + (if Occupied(r.0) then 1 else 0)
            && errors + Losses(slots, moments, halfDuplex, autoDelete, max, i + 1)
               == (errors + Losses(slots, moments, halfDuplex, autoDelete, max, i))
                  + (if r.1 == Lost then [ConnectionLost(i)] else [])
            && sent + Sends(slots, moments, halfDuplex, i + 1)
               == (sent + Sends(slots, moments, halfDuplex, i)) + SlotSends(slots[i], moments(i), halfDuplex)
  {
    SweptStep(slots, moments, halfDuplex, autoDelete, max, i);
    CountSwept(slots, moments, halfDuplex, autoDelete, max, i);
    LossesStep(slots, moments, halfDuplex, autoDelete, max, i);
    SendsStep(slots, moments, halfDuplex, i);
    hide SlotUpdate, Losses, Sends, Count, SlotSends, Swept;
    var r := SlotUpdate(slots[i], moments(i), halfDuplex, autoDelete, max);
    Reassociate(errors, Losses(slots, moments, halfDuplex, autoDelete, max, i),
                if r.1 == Lost then [ConnectionLost(i)] else []);
    Reassociate(sent, Sends(slots, moments, halfDuplex, i), SlotSends(slots[i], moments(i), halfDuplex));
  }

  lemma SlotUpdateIdle(s: Slot, m: Moment, halfDuplex: bool, autoDelete: bool, max: nat)
    requires |s.content| >= 2
    ensures !Occupied(s) || !m.due ==> SlotUpdate(s, m, halfDuplex, autoDelete, max) == (s, Idle)
  {
  }

  /** Every update keeps every slot of a device that deletes automatically in order. */
  lemma UpdateKeepsQueueOk(s: Slot, m: Moment, halfDuplex: bool, max: nat)
    requires |s.content| >= 2 && SlotOk(s, max) && max < 255
    ensures SlotOk(SlotUpdate(s, m, halfDuplex, true, max).0, max)
  {
    SendCodeRange(s.content, halfDuplex, m.canStart, m.response);
    UpdateKeepsSlotOk(s, m.due, SendCode(s.content, halfDuplex, m.canStart, m.response), m.now, max);
  }

  /** A whole update of a device that deletes automatically keeps the queue in order. */
  lemma SweptQueueOk(slots: seq<Slot>, moments: nat -> Moment, halfDuplex: bool, max: nat)
    requires max < 255
    requires forall i :: 0 <= i < |slots| ==> |slots[i].content| >= 2 && SlotOk(slots[i], max)
    ensures forall s :: s in Swept(slots, moments, halfDuplex, true, max, |slots|) ==> SlotOk(s, max)
  {
    hide SlotUpdate, SlotOk;
    forall i | 0 <= i < |slots| ensures SlotOk(SlotUpdate(slots[i], moments(i), halfDuplex, true, max).0, max) {
      UpdateKeepsQueueOk(slots[i], moments(i), halfDuplex, max);
    }
  }

  lemma SendCodeRange(content: seq<byte>, halfDuplex: bool, canStart: bool, response: bool)
    requires |content| >= 2
    ensures SendCode(content, halfDuplex, canStart, response) in {ACK, BUSY, FAIL}
  {
  }
}
