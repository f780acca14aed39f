/** What the delivery loop of a switch or router comes to: who gets a copy, when an acknowledgement
    goes out, and what the hop limit does. */
module Delivery {
  import opened Words
  import opened Packets
  import opened Routing

  /** The copy an attached bus gets of a packet within the hop limit. */
  function CopyFor(
    setup: Setup, buses: seq<Bus>, unknown: bool, receiver: nat, sender: nat, info: Info, payload: seq<byte>
  ): Copy
    requires receiver < |buses| && sender < |buses|
  {
    var info' := if Quiet(setup, buses, unknown, receiver) then info.(header := DropAck(info.header)) else info;
    Copy(receiver, Hopped(Translated(buses[sender], buses[receiver], info')), payload)
  }

  lemma RelayKeeps(from: Bus, to: Bus, info: Info)
    ensures var p := Hopped(Translated(from, to, info));
            && p.header == info.header && p.hops == info.hops + 1 && p.id == info.id && p.port == info.port
            && p.tx.id == info.tx.id && p.rx.id == info.rx.id
  {
    TranslatedKeeps(from, to, info);
    hide Translated;
  }

  /** A copy sent where the receiver's place is not known asks for no acknowledgement; apart from that,
      and from address translation, every copy carries what the packet does, one hop further. */
  lemma CopyCarries(
    setup: Setup, buses: seq<Bus>, unknown: bool, receiver: nat, sender: nat, info: Info, payload: seq<byte>
  )
    requires receiver < |buses| && sender < |buses|
    ensures var c := CopyFor(setup, buses, unknown, receiver, sender, info, payload);
            && c.bus == receiver && c.payload == payload && c.info.hops == info.hops + 1
            && c.info.id == info.id && c.info.port == info.port
            && SameOptions(info.header, c.info.header)
            && (AckRequested(c.info.header) <==>
                  AckRequested(info.header) && !Quiet(setup, buses, unknown, receiver))
            && c.info.rx.id == info.rx.id && c.info.tx.id == info.tx.id
  {
    DropAckBits(info.header);
    hide Shared, HasTx, HasMac, HasPort, HasCrc32, Extended, HasId, AckRequested, DropAck, Quiet, Translated, Hopped;
    RelayKeeps(buses[sender], buses[receiver], info);
    RelayKeeps(buses[sender], buses[receiver], info.(header := DropAck(info.header)));
  }

  /** Some target is sent to in the ordinary way. */
  ghost predicate Acknowledges(setup: Setup, buses: seq<Bus>, unknown: bool, targets: seq<nat>, info: Info) {
    && WantsAck(info)
    && exists i :: 0 <= i < |targets| && targets[i] < |buses| && !Quiet(setup, buses, unknown, targets[i])
  }

  lemma TranslatedKeeps(from: Bus, to: Bus, info: Info)
    ensures var p := Translated(from, to, info);
            && p.hops == info.hops && p.header == info.header && Dropped(p) == Dropped(info)
            && p.id == info.id && p.port == info.port
            && p.tx == NatOut(from, info).tx && p.tx.id == info.tx.id && p.rx.id == info.rx.id
  {
    hide Shared;
  }

  /** Every target is an attached bus other than the sender. */
  lemma {:induction false} TargetsExact(buses: seq<Bus>, visits: seq<nat>, sender: nat)
    requires forall i :: 0 <= i < |visits| ==> Attached(buses, visits[i])
    ensures forall i :: 0 <= i < |Targets(visits, sender)| ==>
              Targets(visits, sender)[i] < |buses| && Targets(visits, sender)[i] != sender
    ensures forall b :: b in visits && b < |buses| && b != sender && b != NO_BUS ==> b in Targets(visits, sender)
    ensures forall b :: b in Targets(visits, sender) ==> b in visits && b != sender && b != NO_BUS
    ensures |Targets(visits, sender)| <= |visits|
  {
    if visits != [] {
      var n := |visits| - 1;
      assert Attached(buses, visits[n]);
      TargetsExact(buses, visits[..n], sender);
      assert visits == visits[..n] + [visits[n]];
    }
  }

  /** From a state with these buses and logs, the targets got one copy each, in order, and the sender at
      most one acknowledgement. */
  ghost predicate Flooded(
    setup: Setup, buses: seq<Bus>, unknown: bool, copies: seq<Copy>, acks: seq<nat>, r: State, targets: seq<nat>,
    sender: nat, info: Info, payload: seq<byte>
  )
    requires sender < |buses|
  {
    && |r.copies| == |copies| + |targets| && copies <= r.copies
    && (forall i :: 0 <= i < |targets| ==>
          targets[i] < |buses| && targets[i] != sender
          && r.copies[|copies| + i] == CopyFor(setup, buses, unknown, targets[i], sender, info, payload))
    && r.acks == acks + if Acknowledges(setup, buses, unknown, targets, info) then [sender] else []
  }

  lemma FloodedOneMore(
    setup: Setup, s: State, unknown: bool, t: State, targets: seq<nat>, bus: nat, sender: nat, info: Info,
    payload: seq<byte>, r: State
  )
    requires sender < |s.buses| && bus < |s.buses| && bus != sender
    requires Flooded(setup, s.buses, unknown, s.copies, s.acks, t, targets, sender, info, payload)
    requires r.copies == t.copies + [CopyFor(setup, s.buses, unknown, bus, sender, info, payload)]
    requires r.acks == t.acks + if Acknowledges(setup, s.buses, unknown, targets + [bus], info)
                                   && !Acknowledges(setup, s.buses, unknown, targets, info) then [sender] else []
    requires Acknowledges(setup, s.buses, unknown, targets, info) ==>
               Acknowledges(setup, s.buses, unknown, targets + [bus], info)
    ensures Flooded(setup, s.buses, unknown, s.copies, s.acks, r, targets + [bus], sender, info, payload)
  {
    hide CopyFor, Acknowledges;
    assert s.acks + [] == s.acks;
    var more := targets + [bus];
    forall i | 0 <= i < |more|
      ensures more[i] < |s.buses| && more[i] != sender
      ensures r.copies[|s.copies| + i] == CopyFor(setup, s.buses, unknown, more[i], sender, info, payload)
    {
      if i < |targets| { assert more[i] == targets[i] && r.copies[|s.copies| + i] == t.copies[|s.copies| + i]; }
    }
  }

  /** Within the hop limit the attached buses are left as they were, every target gets one copy, in the
      order visited, and the sender is acknowledged once if it asked for it and some target was sent to
      in the ordinary way. */
  lemma {:induction false} DeliveredWithinLimit(
    setup: Setup, s: State, unknown: bool, visits: seq<nat>, sender: nat, info: Info, payload: seq<byte>
  )
    requires sender < |s.buses| && !Dropped(info)
    requires forall i :: 0 <= i < |visits| ==> Attached(s.buses, visits[i])
    ensures var (r, ackSent) := DeliverTo(setup, s, unknown, visits, sender, info, payload);
            var targets := Targets(visits, sender);
            && r.buses == s.buses
            && Flooded(setup, s.buses, unknown, s.copies, s.acks, r, targets, sender, info, payload)
            && (ackSent <==> Acknowledges(setup, s.buses, unknown, targets, info))
  {
    if visits != [] {
      var n := |visits| - 1;
      var bus := visits[n];
      var before := Targets(visits[..n], sender);
      assert Attached(s.buses, bus);
      DeliveredWithinLimit(setup, s, unknown, visits[..n], sender, info, payload);
      hide CopyFor, WantsAck, Quiet, SendTo, Flooded, Acknowledges, Dropped;
      var (t, sent) := DeliverTo(setup, s, unknown, visits[..n], sender, info, payload);
      if bus != NO_BUS && bus != sender {
        assert Targets(visits, sender) == before + [bus];
        SentWithinLimit(setup, t, unknown, bus, sender, sent, info, payload);
        AcknowledgesOneMore(setup, s.buses, unknown, before, bus, info);
        FloodedOneMore(setup, s, unknown, t, before, bus, sender, info, payload,
                       SendTo(setup, t, unknown, bus, sender, sent, info, payload).0);
      } else {
        assert Targets(visits, sender) == before;
      }
    }
  }

  lemma AcknowledgesOneMore(
    setup: Setup, buses: seq<Bus>, unknown: bool, targets: seq<nat>, bus: nat, info: Info
  )
    requires bus < |buses|
    ensures Acknowledges(setup, buses, unknown, targets + [bus], info)
            <==> Acknowledges(setup, buses, unknown, targets, info)
                 || (WantsAck(info) && !Quiet(setup, buses, unknown, bus))
  {
    hide Quiet, WantsAck;
    var more := targets + [bus];
    assert more[|targets|] == bus;
    assert forall i :: 0 <= i < |targets| ==> more[i] == targets[i];
  }

  lemma SentWithinLimit(
    setup: Setup, s: State, unknown: bool, receiver: nat, sender: nat, ackSent: bool, info: Info, payload: seq<byte>
  )
    requires receiver < |s.buses| && sender < |s.buses| && !Dropped(info)
    ensures var (t, sent) := SendTo(setup, s, unknown, receiver, sender, ackSent, info, payload);
            && t.buses == s.buses
            && t.copies == s.copies + [CopyFor(setup, s.buses, unknown, receiver, sender, info, payload)]
            && (sent <==> ackSent || (WantsAck(info) && !Quiet(setup, s.buses, unknown, receiver)))
            && t.acks == s.acks + if sent && !ackSent then [sender] else []
  {
    var quiet := info.(header := DropAck(info.header));
    TransferWithinLimit(s, receiver, sender, info, payload);
    TransferWithinLimit(s.(acks := s.acks + [sender]), receiver, sender, info, payload);
    TransferWithinLimit(s, receiver, sender, quiet, payload);
    hide Translated, Quiet, WantsAck, DropAck, Transfer, Hopped;
  }

  lemma TransferWithinLimit(s: State, receiver: nat, sender: nat, info: Info, payload: seq<byte>)
    requires receiver < |s.buses| && sender < |s.buses| && !Dropped(info)
    ensures Transfer(s, receiver, sender, info, payload)
            == s.(copies := s.copies
                            + [Copy(receiver, Hopped(Translated(s.buses[sender], s.buses[receiver], info)), payload)])
  {
    TranslatedKeeps(s.buses[sender], s.buses[receiver], info);
    hide Translated, Dropped, Hopped;
  }

  /** The targets were left with this endpoint, the other buses as they were. */
  predicate LeftWith(buses: seq<Bus>, after: seq<Bus>, targets: seq<nat>, tx: Endpoint) {
    |after| == |buses|
    && forall b :: 0 <= b < |buses| ==> after[b] == if b in targets then buses[b].(tx := tx) else buses[b]
  }

  lemma LeftOneMore(buses: seq<Bus>, after: seq<Bus>, targets: seq<nat>, bus: nat, tx: Endpoint)
    requires LeftWith(buses, after, targets, tx) && bus < |buses|
    ensures LeftWith(buses, after[bus := after[bus].(tx := tx)], targets + [bus], tx)
  {
  }

  /** The buses after the targets were left with this endpoint one after the other. */
  function Marked(buses: seq<Bus>, targets: seq<nat>, tx: Endpoint): (r: seq<Bus>)
    ensures |r| == |buses|
  {
    if targets == [] then buses
    else
      var n := |targets| - 1;
      var before := Marked(buses, targets[..n], tx);
      if targets[n] < |buses| then before[targets[n] := before[targets[n]].(tx := tx)] else before
  }

  lemma {:induction false} MarkedExact(buses: seq<Bus>, targets: seq<nat>, tx: Endpoint)
    requires forall i :: 0 <= i < |targets| ==> targets[i] < |buses|
    ensures LeftWith(buses, Marked(buses, targets, tx), targets, tx)
  {
    if targets != [] {
      var n := |targets| - 1;
      MarkedExact(buses, targets[..n], tx);
      LeftOneMore(buses, Marked(buses, targets[..n], tx), targets[..n], targets[n], tx);
      assert targets == targets[..n] + [targets[n]];
    }
  }

  /** Some target is sent to in the ordinary way, the ones before it already left with this endpoint. */
  ghost predicate AcknowledgesOver(
    setup: Setup, buses: seq<Bus>, unknown: bool, targets: seq<nat>, tx: Endpoint, info: Info
  ) {
    WantsAck(info) && exists i :: 0 <= i < |targets| && OrdinaryAt(setup, buses, unknown, targets, tx, i)
  }

  predicate OrdinaryAt(setup: Setup, buses: seq<Bus>, unknown: bool, targets: seq<nat>, tx: Endpoint, i: nat)
    requires i < |targets|
  {
    targets[i] < |buses| && !Quiet(setup, Marked(buses, targets[..i], tx), unknown, targets[i])
  }

  lemma AcknowledgesOverOneMore(
    setup: Setup, buses: seq<Bus>, unknown: bool, targets: seq<nat>, bus: nat, tx: Endpoint, info: Info
  )
    requires bus < |buses|
    ensures AcknowledgesOver(setup, buses, unknown, targets + [bus], tx, info)
            <==> AcknowledgesOver(setup, buses, unknown, targets, tx, info)
                 || (WantsAck(info) && !Quiet(setup, Marked(buses, targets, tx), unknown, bus))
  {
    hide Quiet, WantsAck, Marked;
    var more, n := targets + [bus], |targets|;
    assert more[n] == bus && more[..n] == targets;
    forall i | 0 <= i < n
      ensures OrdinaryAt(setup, buses, unknown, more, tx, i) == OrdinaryAt(setup, buses, unknown, targets, tx, i)
    {
      assert more[i] == targets[i] && more[..i] == targets[..i];
    }
    assert OrdinaryAt(setup, buses, unknown, more, tx, n) == !Quiet(setup, Marked(buses, targets, tx), unknown, bus);
  }

  lemma TransferOverLimit(s: State, receiver: nat, sender: nat, info: Info, payload: seq<byte>)
    requires receiver < |s.buses| && sender < |s.buses| && Dropped(info)
    ensures Transfer(s, receiver, sender, info, payload)
            == s.(buses := s.buses[receiver := s.buses[receiver].(tx := NatOut(s.buses[sender], info).tx)])
  {
    TranslatedKeeps(s.buses[sender], s.buses[receiver], info);
    hide NatOut, Translated, Dropped;
  }

  lemma QuietSender(from: Bus, info: Info)
    ensures NatOut(from, info.(header := DropAck(info.header))).tx == NatOut(from, info).tx
    ensures Dropped(info.(header := DropAck(info.header))) == Dropped(info)
  {
    DropAckBits(info.header);
    hide Shared, DropAck;
  }

  lemma SentOverLimit(
    setup: Setup, s: State, unknown: bool, receiver: nat, sender: nat, ackSent: bool, info: Info, payload: seq<byte>
  )
    requires receiver < |s.buses| && sender < |s.buses| && Dropped(info)
    ensures var (t, sent) := SendTo(setup, s, unknown, receiver, sender, ackSent, info, payload);
            && t.copies == s.copies
            && t.buses == s.buses[receiver := s.buses[receiver].(tx := NatOut(s.buses[sender], info).tx)]
            && (sent <==> ackSent || (WantsAck(info) && !Quiet(setup, s.buses, unknown, receiver)))
            && t.acks == s.acks + if sent && !ackSent then [sender] else []
  {
    var quiet := info.(header := DropAck(info.header));
    QuietSender(s.buses[sender], info);
    hide Transfer, NatOut, WantsAck, Dropped, Quiet, DropAck;
    if Quiet(setup, s.buses, unknown, receiver) {
      TransferOverLimit(s, receiver, sender, quiet, payload);
    } else {
      TransferOverLimit(s.(acks := s.acks + [sender]), receiver, sender, info, payload);
      TransferOverLimit(s, receiver, sender, info, payload);
    }
  }

  /** From a state with these buses and logs, nothing was sent, the targets were marked, and the sender
      was acknowledged by the usual rule. */
  ghost predicate DeadEnd(
    setup: Setup, s: State, unknown: bool, r: State, ackSent: bool, targets: seq<nat>, tx: Endpoint, sender: nat,
    info: Info
  ) {
    && r.copies == s.copies && r.buses == Marked(s.buses, targets, tx)
    && (ackSent <==> AcknowledgesOver(setup, s.buses, unknown, targets, tx, info))
    && r.acks == s.acks + if ackSent then [sender] else []
  }

  lemma DeadEndOneMore(
    setup: Setup, s: State, unknown: bool, t: State, sent: bool, targets: seq<nat>, tx: Endpoint, bus: nat,
    sender: nat, info: Info, payload: seq<byte>
  )
    requires sender < |s.buses| && bus < |s.buses| && |t.buses| == |s.buses| && Dropped(info)
    requires DeadEnd(setup, s, unknown, t, sent, targets, tx, sender, info)
    requires t.buses[sender] == s.buses[sender] && tx == NatOut(s.buses[sender], info).tx
    ensures var (r, sent') := SendTo(setup, t, unknown, bus, sender, sent, info, payload);
            DeadEnd(setup, s, unknown, r, sent', targets + [bus], tx, sender, info)
  {
    SentOverLimit(setup, t, unknown, bus, sender, sent, info, payload);
    MarkedOneMore(s.buses, targets, bus, tx);
    AcknowledgesOverOneMore(setup, s.buses, unknown, targets, bus, tx, info);
    hide NatOut, WantsAck, SendTo, Dropped, Quiet, AcknowledgesOver, Marked;
    assert s.acks + [] == s.acks;
  }

  /** Over the hop limit nothing is sent, but every target is left with the packet's sender as its
      endpoint; and a sender that asked for it is acknowledged all the same. */
  lemma {:induction false} DeliveredOverLimit(
    setup: Setup, s: State, unknown: bool, visits: seq<nat>, sender: nat, info: Info, payload: seq<byte>
  )
    requires sender < |s.buses| && Dropped(info)
    requires forall i :: 0 <= i < |visits| ==> Attached(s.buses, visits[i])
    ensures var (t, ackSent) := DeliverTo(setup, s, unknown, visits, sender, info, payload);
            DeadEnd(setup, s, unknown, t, ackSent, Targets(visits, sender), NatOut(s.buses[sender], info).tx, sender,
                    info)
  {
    if visits != [] {
      var n := |visits| - 1;
      var bus := visits[n];
      var before, tx := Targets(visits[..n], sender), NatOut(s.buses[sender], info).tx;
      assert Attached(s.buses, bus);
      DeliveredOverLimit(setup, s, unknown, visits[..n], sender, info, payload);
      SenderUnmarked(s.buses, visits[..n], sender, tx);
      var (t, sent) := DeliverTo(setup, s, unknown, visits[..n], sender, info, payload);
      assert t.buses[sender] == s.buses[sender];
      hide NatOut, SendTo, Dropped, DeadEnd, Marked;
      if bus != NO_BUS && bus != sender {
        assert Targets(visits, sender) == before + [bus];
        DeadEndOneMore(setup, s, unknown, t, sent, before, tx, bus, sender, info, payload);
      } else {
        assert Targets(visits, sender) == before;
      }
    }
  }

  lemma SenderUnmarked(buses: seq<Bus>, visits: seq<nat>, sender: nat, tx: Endpoint)
    requires sender < |buses| && forall i :: 0 <= i < |visits| ==> Attached(buses, visits[i])
    ensures Marked(buses, Targets(visits, sender), tx)[sender] == buses[sender]
  {
    TargetsExact(buses, visits, sender);
    MarkedExact(buses, Targets(visits, sender), tx);
    hide Marked, Targets;
  }

  lemma MarkedOneMore(buses: seq<Bus>, targets: seq<nat>, bus: nat, tx: Endpoint)
    requires bus < |buses|
    ensures Marked(buses, targets + [bus], tx)
            == Marked(buses, targets, tx)[bus := Marked(buses, targets, tx)[bus].(tx := tx)]
  {
    assert (targets + [bus])[..|targets|] == targets;
  }

  /** Whatever the hop limit does, one packet brings its sender at most one acknowledgement, and none it
      did not ask for. */
  lemma {:induction false} AtMostOneAck(
    setup: Setup, s: State, unknown: bool, visits: seq<nat>, sender: nat, info: Info, payload: seq<byte>
  )
    requires sender < |s.buses|
    requires forall i :: 0 <= i < |visits| ==> Attached(s.buses, visits[i])
    ensures var (t, ackSent) := DeliverTo(setup, s, unknown, visits, sender, info, payload);
            && t.acks == s.acks + (if ackSent then [sender] else [])
            && (ackSent ==> WantsAck(info) && Targets(visits, sender) != [])
  {
    if visits != [] {
      var n := |visits| - 1;
      assert Attached(s.buses, visits[n]);
      AtMostOneAck(setup, s, unknown, visits[..n], sender, info, payload);
      hide Transfer, Quiet, WantsAck, DropAck;
    }
  }
}
