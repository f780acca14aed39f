/** A request from a local bus to a shared one and back: network address translation undoes itself. */
module Translation {
  import opened Words
  import opened Packets
  import opened Reception
  import opened Routing
  import opened Delivery
  import Pjon
  import Protocol
  import RoutingRuns

  /** What is read from a packet composed for `info` with a payload of this length. */
  function OnWire(info: Info, length: nat): Info {
    Protocol.Received(info, FinalHeader(info, length))
  }

  /** The settings of the device that queues a packet, as far as composing depends on them. */
  datatype Composer = Composer(config: byte, port: uint16, seed: uint16)

  function Composed(info: Info, tx: Endpoint, c: Composer): Info {
    Pjon.Prepared(info, c.config, tx, c.port, c.seed)
  }

  /** The copy a router makes for its attached bus `to` of a packet heard on `from`. */
  function CopyMade(setup: Setup, s: State, from: nat, to: nat, heard: Info, payload: seq<byte>): Copy
    requires from < |s.buses| && to < |s.buses|
  {
    var unknown := Located(setup, Sighted(setup, s, from, heard), heard.rx) == NO_BUS;
    CopyFor(setup, s.buses, unknown, to, from, heard, payload)
  }

  /** That copy as the bus it was queued at composes it. */
  function Relayed(setup: Setup, s: State, from: nat, to: nat, heard: Info, payload: seq<byte>, c: Composer): Info
    requires from < |s.buses| && to < |s.buses|
  {
    var p := CopyMade(setup, s, from, to, heard, payload).info;
    Composed(p, p.tx, c)
  }

  /** The router hands a packet heard on `from` to its attached bus `to`. */
  predicate Hands(setup: Setup, s: State, from: nat, to: nat, heard: Info)
    requires Ok(setup, s) && from < |s.buses|
  {
    to in RoutingRuns.HandedTo(setup, s, from, heard)
  }

  /** Between two states of a router this copy was queued. */
  predicate Queued(s: State, r: State, c: Copy) {
    s.copies <= r.copies && c in r.copies[|s.copies|..]
  }

  /** Receiving a packet within the hop limit makes one copy for each bus it is handed to. */
  lemma CopyReceived(setup: Setup, s: State, from: nat, to: nat, heard: Info, payload: seq<byte>)
    requires Ok(setup, s) && from < |s.buses| && !Dropped(heard) && Hands(setup, s, from, to, heard)
    ensures var r := Received(setup, s, from, heard, payload);
            && Ok(setup, r) && r.buses == s.buses
            && to < |s.buses| && Queued(s, r, CopyMade(setup, s, from, to, heard, payload))
  {
    RoutingRuns.HandledOk(setup, s, Arrived(from, heard, payload));
    RoutingRuns.EndpointsKept(setup, s, from, heard, payload);
    if Located(setup, Sighted(setup, s, from, heard), heard.rx) == NO_BUS {
      FloodedCopy(setup, s, from, to, heard, payload);
    } else {
      PointedCopy(setup, s, from, to, heard, payload);
    }
    hide *;
  }

  lemma FloodedCopy(setup: Setup, s: State, from: nat, to: nat, heard: Info, payload: seq<byte>)
    requires Ok(setup, s) && from < |s.buses| && !Dropped(heard) && Hands(setup, s, from, to, heard)
    requires Located(setup, Sighted(setup, s, from, heard), heard.rx) == NO_BUS
    ensures to < |s.buses|
    ensures Queued(s, Received(setup, s, from, heard, payload), CopyMade(setup, s, from, to, heard, payload))
  {
    RoutingRuns.UnknownDevice(setup, s, from, heard, payload);
    hide Received, Sighted, Located, CopyFor, Learn, Targets, Visits, Dropped, Acknowledges, Ok, Wanted;
    var r, targets := Received(setup, s, from, heard, payload), RoutingRuns.HandedTo(setup, s, from, heard);
    var i :| 0 <= i < |targets| && targets[i] == to;
    assert r.copies[|s.copies|..][i] == CopyMade(setup, s, from, to, heard, payload);
  }

  lemma PointedCopy(setup: Setup, s: State, from: nat, to: nat, heard: Info, payload: seq<byte>)
    requires Ok(setup, s) && from < |s.buses| && !Dropped(heard) && Hands(setup, s, from, to, heard)
    requires Located(setup, Sighted(setup, s, from, heard), heard.rx) != NO_BUS
    ensures to < |s.buses|
    ensures Queued(s, Received(setup, s, from, heard, payload), CopyMade(setup, s, from, to, heard, payload))
  {
    RoutingRuns.KnownDevice(setup, s, from, heard, payload);
    RoutingRuns.LocatedAttached(setup, Sighted(setup, s, from, heard), heard.rx);
    hide Received, Sighted, Located, CopyFor, Dropped, Targets, Visits, Learn;
  }

  /** A packet is handed to every other bus with the id it names, unless its device is known elsewhere. */
  lemma NamedIsHanded(setup: Setup, s: State, from: nat, to: nat, heard: Info)
    requires Ok(setup, s) && from < |s.buses| && to < |s.buses| && from != to
    requires s.buses[to].tx.busId == Wanted(heard) && !Dropped(heard)
    requires var known := Located(setup, Sighted(setup, s, from, heard), heard.rx); known == NO_BUS || known == to
    ensures Hands(setup, s, from, to, heard)
  {
    if Located(setup, Sighted(setup, s, from, heard), heard.rx) == NO_BUS {
      RoutingRuns.UnknownDevice(setup, s, from, heard, []);
    }
    hide Received, Sighted, Located, Learn, Targets, Visits, Dropped, Wanted, Flooded;
  }

  lemma NoHeaderIsLocal()
    ensures !Shared(Pjon.NO_HEADER)
  {
  }

  /** What a shared packet with sender information keeps on the wire. */
  lemma SharedOnWire(info: Info, length: nat)
    requires Shared(info.header) && HasTx(info.header) && length > 0
    ensures var w := OnWire(info, length);
            && Shared(w.header) && HasTx(w.header) && HasMac(w.header) == HasMac(info.header)
            && w.tx.id == info.tx.id && w.tx.busId == info.tx.busId
            && w.rx.id == info.rx.id && w.rx.busId == info.rx.busId && w.hops == info.hops
            && (Extended(w.header) ==> HasCrc32(w.header))
            && w.header == FinalHeader(info, length)
  {
    FinalHeaderBits(info, length);
    hide FinalHeader, Shared, HasTx, HasMac, HasId, HasPort, HasCrc32, Extended, AckRequested;
  }

  /** Composing keeps everything that routing looks at. */
  lemma ComposedKeeps(info: Info, tx: Endpoint, c: Composer)
    requires Shared(info.header)
    ensures var p := Composed(info, tx, c);
            p.header == info.header && p.tx == tx && p.rx == info.rx && p.hops == info.hops
  {
    NoHeaderIsLocal();
    hide Shared, HasId, HasPort;
  }

  /** Address translation looks at one bit of the header only. */
  lemma NatHeader(bus: Bus, info: Info, h: byte)
    requires Shared(h) == Shared(info.header)
    ensures NatOut(bus, info.(header := h)) == NatOut(bus, info).(header := h)
    ensures NatIn(bus, info.(header := h)) == NatIn(bus, info).(header := h)
  {
    hide Shared;
  }

  lemma NatKeeps(bus: Bus, info: Info)
    ensures NatOut(bus, info).header == info.header && NatOut(bus, info).rx == info.rx
    ensures NatOut(bus, info).hops == info.hops && NatIn(bus, info).hops == info.hops
    ensures NatIn(bus, info).header == info.header && NatIn(bus, info).tx == info.tx
  {
    hide Shared;
  }

  /** Receiver's address translation depends on header and receiver alone. */
  lemma NatReceiver(bus: Bus, info: Info, info': Info)
    requires info.header == info'.header && info.rx == info'.rx
    ensures NatIn(bus, info).rx == NatIn(bus, info').rx
  {
    hide Shared;
  }

  /** Leaving out the acknowledgement request makes no difference to address translation. */
  lemma QuietTranslated(from: Bus, to: Bus, info: Info)
    ensures var p := Translated(from, to, info.(header := DropAck(info.header)));
            && SameOptions(p.header, info.header) && p.hops == info.hops
            && p.tx == NatOut(from, info).tx && p.rx == NatIn(to, info).rx
    ensures var p := Translated(from, to, info);
            && p.header == info.header && p.hops == info.hops && SameOptions(p.header, info.header)
            && p.tx == NatOut(from, info).tx && p.rx == NatIn(to, info).rx
  {
    DropAckBits(info.header);
    var out := NatOut(from, info);
    hide Shared, HasTx, HasMac, HasId, DropAck, NatIn, NatOut;
    var h := DropAck(info.header);
    var quiet := info.(header := h);
    NatHeader(from, info, h);
    NatHeader(to, info, h);
    NatKeeps(from, info);
    NatKeeps(from, quiet);
    NatKeeps(to, out);
    NatKeeps(to, NatOut(from, quiet));
    NatReceiver(to, info, out);
    NatReceiver(to, quiet, NatOut(from, quiet));
  }

  lemma CopyKeeps(setup: Setup, s: State, from: nat, to: nat, heard: Info, payload: seq<byte>)
    requires from < |s.buses| && to < |s.buses|
    ensures var p := CopyMade(setup, s, from, to, heard, payload).info;
            && SameOptions(p.header, heard.header) && p.hops == heard.hops + 1
            && p.tx == NatOut(s.buses[from], heard).tx && p.rx == NatIn(s.buses[to], heard).rx
  {
    QuietTranslated(s.buses[from], s.buses[to], heard);
    CopyIs(setup, s, from, to, heard, payload);
    hide *;
  }

  lemma CopyIs(setup: Setup, s: State, from: nat, to: nat, heard: Info, payload: seq<byte>)
    requires from < |s.buses| && to < |s.buses|
    ensures var c := CopyMade(setup, s, from, to, heard, payload);
            var p := Translated(s.buses[from], s.buses[to], heard);
            var quiet := Translated(s.buses[from], s.buses[to], heard.(header := DropAck(heard.header)));
            || (c.info.header == p.header && c.info.hops == p.hops + 1 && c.info.tx == p.tx && c.info.rx == p.rx)
            || (c.info.header == quiet.header && c.info.hops == quiet.hops + 1
                && c.info.tx == quiet.tx && c.info.rx == quiet.rx)
  {
    hide Translated, DropAck, Quiet, Located, Sighted;
  }

  lemma RelayedKeeps(setup: Setup, s: State, from: nat, to: nat, heard: Info, payload: seq<byte>, c: Composer)
    requires from < |s.buses| && to < |s.buses| && Shared(heard.header)
    ensures var p := Relayed(setup, s, from, to, heard, payload, c);
            && SameOptions(p.header, heard.header) && p.hops == heard.hops + 1
            && p.tx == NatOut(s.buses[from], heard).tx && p.rx == NatIn(s.buses[to], heard).rx
  {
    CopyKeeps(setup, s, from, to, heard, payload);
    var p := CopyMade(setup, s, from, to, heard, payload).info;
    hide CopyMade, NatOut, NatIn, Shared, HasTx, HasMac, HasId;
    ComposedKeeps(p, p.tx, c);
    hide Composed;
  }

  /** A request from a local bus to a shared one, and the reply to it. `there` and `here` are the settings
      of the attached buses, `answer` those of the remote device. */
  datatype Conversation = Conversation(
    request: Info, payload: seq<byte>, there: Composer, remote: Device, answer: Composer, answered: seq<byte>,
    here: Composer)

  /** The request as the router hears it, as it relays it, and as the remote device reads it. */
  function Heard(x: Conversation): Info {
    OnWire(x.request, |x.payload|)
  }

  function Asked(setup: Setup, s: State, home: nat, far: nat, x: Conversation): Info
    requires home < |s.buses| && far < |s.buses|
  {
    Relayed(setup, s, home, far, Heard(x), x.payload, x.there)
  }

  /** The reply as the router hears it, and as it relays it in a later state. */
  function Reply(asked: Info, x: Conversation): Info {
    OnWire(Composed(Pjon.ReplyInfo(OnWire(asked, |x.payload|), x.remote.config), x.remote.tx, x.answer), |x.answered|)
  }

  function Returned(setup: Setup, t: State, home: nat, far: nat, reply: Info, x: Conversation): Info
    requires home < |t.buses| && far < |t.buses|
  {
    Relayed(setup, t, far, home, reply, x.answered, x.here)
  }

  /** A device of the local bus `home`, known outside by the public id of that bus, sends a shared request
      with its own bus id left at 0.0.0.0, and the router hands it to the shared bus `far`. */
  predicate Leaves(setup: Setup, s: State, home: nat, far: nat, x: Conversation)
    requires Ok(setup, s)
  {
    && home < |s.buses| && far < |s.buses| && home != far
    && !Shared(s.buses[home].config) && s.buses[home].tx.busId != LOCALHOST && Shared(s.buses[far].config)
    && Shared(x.request.header) && HasTx(x.request.header) && x.request.tx.busId == LOCALHOST
    && x.payload != [] && !Dropped(Heard(x)) && Hands(setup, s, home, far, Heard(x))
  }

  /** The remote device accepts what was relayed to it, and answers with a payload of its own. */
  predicate Answers(asked: Info, x: Conversation) {
    && Passes(x.remote, asked, FinalHeader(asked, |x.payload|))
    && !x.remote.router && Shared(x.remote.config) && HasTx(x.remote.config) && x.remote.config == x.answer.config
    && x.answered != []
  }

  /** The way out: the request is copied to the far bus under the public id, to the endpoint asked for. */
  lemma RequestLeaves(setup: Setup, s: State, home: nat, far: nat, x: Conversation)
    requires Ok(setup, s) && Leaves(setup, s, home, far, x)
    ensures var r := Received(setup, s, home, Heard(x), x.payload);
            && Ok(setup, r) && r.buses == s.buses
            && Queued(s, r, CopyMade(setup, s, home, far, Heard(x), x.payload))
    ensures var asked := OnWire(Asked(setup, s, home, far, x), |x.payload|);
            && Shared(asked.header) && HasTx(asked.header) && HasMac(asked.header) == HasMac(x.request.header)
            && asked.tx.id == x.request.tx.id && asked.tx.busId == s.buses[home].tx.busId
            && asked.rx.id == x.request.rx.id && asked.rx.busId == x.request.rx.busId
            && asked.header == FinalHeader(Asked(setup, s, home, far, x), |x.payload|)
  {
    CopyReceived(setup, s, home, far, Heard(x), x.payload);
    SharedOnWire(x.request, |x.payload|);
    RelayedKeeps(setup, s, home, far, Heard(x), x.payload, x.there);
    hide FinalHeader, Shared, HasTx, HasMac, HasId, HasCrc32, Extended, OnWire, Composed, Hands, Received, CopyMade,
      Dropped, Ok, Relayed;
    SharedOnWire(Asked(setup, s, home, far, x), |x.payload|);
  }

  /** The reply is addressed to the sender the remote device read, and comes from its own endpoint. */
  lemma ReplyIs(asked: Info, x: Conversation)
    requires Answers(asked, x)
    ensures var read, reply := OnWire(asked, |x.payload|), Reply(asked, x);
            && Shared(reply.header) && HasTx(reply.header)
            && reply.rx.id == read.tx.id && reply.rx.busId == read.tx.busId
            && reply.tx.id == x.remote.tx.id && reply.tx.busId == x.remote.tx.busId && reply.hops == 0
  {
    hide FinalHeader, Shared, HasTx, HasMac, HasId, HasCrc32, Extended, OnWire, Composed, Passes;
    var answer := Pjon.ReplyInfo(OnWire(asked, |x.payload|), x.remote.config);
    ComposedKeeps(answer, x.remote.tx, x.answer);
    SharedOnWire(Composed(answer, x.remote.tx, x.answer), |x.answered|);
  }

  /** The way back: a reply to the public id of a local bus is copied there, and passes the filter of the
      device it names, which reads 0.0.0.0 as the bus id of its address. */
  lemma ReplyReturns(setup: Setup, t: State, home: nat, far: nat, reply: Info, x: Conversation, device: Device)
    requires Ok(setup, t) && home < |t.buses| && far < |t.buses| && home != far && x.answered != []
    requires !Shared(t.buses[home].config) && t.buses[home].tx.busId != LOCALHOST && Shared(t.buses[far].config)
    requires Shared(reply.header) && HasTx(reply.header) && reply.hops == 0
    requires reply.rx.busId == t.buses[home].tx.busId
    requires Located(setup, Sighted(setup, t, far, reply), reply.rx) in {NO_BUS, home}
    requires device.tx.id == reply.rx.id && !Shared(device.config)
    ensures var r := Received(setup, t, far, reply, x.answered);
            && r.buses == t.buses && Queued(t, r, CopyMade(setup, t, far, home, reply, x.answered))
    ensures var returned := Returned(setup, t, home, far, reply, x);
            var read := OnWire(returned, |x.answered|);
            && Passes(device, returned, FinalHeader(returned, |x.answered|))
            && read.rx.id == reply.rx.id && read.rx.busId == LOCALHOST
            && read.tx.id == reply.tx.id && read.tx.busId == reply.tx.busId && read.hops == 1
  {
    hide FinalHeader, Shared, HasTx, HasMac, HasId, HasCrc32, Extended, OnWire, Composed, Hands, Received, CopyMade,
      Ok, Relayed, Sighted, Located;
    NamedIsHanded(setup, t, far, home, reply);
    CopyReceived(setup, t, far, home, reply, x.answered);
    hide Dropped, Queued;
    RelayedKeeps(setup, t, far, home, reply, x.answered, x.here);
    SharedOnWire(Returned(setup, t, home, far, reply, x), |x.answered|);
  }

  /** The request is copied to the far bus, and in every later state in which the attached buses are the
      same, the reply is copied to the bus of the device that asked, unless that device is known to be
      elsewhere. It passes the filter of the device, which reads its own address with 0.0.0.0 as the bus
      id, and the remote endpoint as the sender: the one it first addressed, unless it addressed all of
      that bus, or a MAC address. */
  lemma RequestAndReply(setup: Setup, s: State, home: nat, far: nat, x: Conversation, t: State, device: Device)
    requires Ok(setup, s) && Leaves(setup, s, home, far, x) && Answers(Asked(setup, s, home, far, x), x)
    requires Ok(setup, t) && t.buses == s.buses
    requires var reply := Reply(Asked(setup, s, home, far, x), x);
             Located(setup, Sighted(setup, t, far, reply), reply.rx) in {NO_BUS, home}
    requires device.tx.id == x.request.tx.id && !Shared(device.config)
    ensures var r := Received(setup, s, home, Heard(x), x.payload);
            && Ok(setup, r) && r.buses == s.buses
            && Queued(s, r, CopyMade(setup, s, home, far, Heard(x), x.payload))
    ensures var asked := OnWire(Asked(setup, s, home, far, x), |x.payload|);
            && asked.tx.id == x.request.tx.id && asked.tx.busId == s.buses[home].tx.busId
            && asked.rx.id == x.request.rx.id && asked.rx.busId == x.request.rx.busId
    ensures var reply := Reply(Asked(setup, s, home, far, x), x);
            var r := Received(setup, t, far, reply, x.answered);
            && r.buses == s.buses && Queued(t, r, CopyMade(setup, t, far, home, reply, x.answered))
    ensures var reply := Reply(Asked(setup, s, home, far, x), x);
            var returned := Returned(setup, t, home, far, reply, x);
            var read := OnWire(returned, |x.answered|);
            && Passes(device, returned, FinalHeader(returned, |x.answered|))
            && read.rx.id == x.request.tx.id && read.rx.busId == LOCALHOST
            && read.tx.id == x.remote.tx.id && read.tx.busId == x.remote.tx.busId
            && (!HasMac(x.request.header) ==>
                  read.tx.busId == x.request.rx.busId
                  && (x.request.rx.id != BROADCAST ==> read.tx.id == x.request.rx.id))
            && read.hops == 1
  {
    RequestLeaves(setup, s, home, far, x);
    hide *;
    ReplyIs(Asked(setup, s, home, far, x), x);
    if !HasMac(x.request.header) { RemoteIs(Asked(setup, s, home, far, x), x); }
    ReplyReturns(setup, t, home, far, Reply(Asked(setup, s, home, far, x), x), x, device);
  }

  /** A device that accepts the relayed request without a MAC address has the address read from it. */
  lemma RemoteIs(asked: Info, x: Conversation)
    requires Answers(asked, x) && Shared(FinalHeader(asked, |x.payload|)) && !HasMac(FinalHeader(asked, |x.payload|))
    ensures var read := OnWire(asked, |x.payload|);
            x.remote.tx.busId == read.rx.busId && (read.rx.id != BROADCAST ==> x.remote.tx.id == read.rx.id)
  {
    hide FinalHeader, Shared, HasTx, HasMac, HasId, HasCrc32, Extended;
  }
}
