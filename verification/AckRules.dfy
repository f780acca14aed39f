/** What a switch or router does with a packet it receives, by header bits, bus ids, devices and table
    entries alone: where the packet goes, what the copies carry, and whether the source hears of it. */
module AckRules {
  import opened Words
  import opened Packets
  import opened Layout
  import opened Routing
  import opened Delivery
  import opened RoutingRuns

  // ---------------------------------------------------------------- where the packet goes

  /** The virtual bus has this id. */
  predicate Virtual(setup: Setup, buses: seq<Bus>, id: BusId) {
    setup.virtualBus < |buses| && buses[setup.virtualBus].tx.busId == id
  }

  /** The part of the virtual bus the receiver is known to be on: the one the packet came from, if it names
      its own sender as the receiver. */
  function KnownAt(setup: Setup, s: State, bus: nat, info: Info): nat {
    if !Virtual(setup, s.buses, info.rx.busId) || ByteToInt(info.rx.id) >= |s.devices| then NO_BUS
    else if Virtual(setup, s.buses, info.tx.busId) && info.tx.id == info.rx.id then bus
    else s.devices[ByteToInt(info.rx.id)]
  }

  lemma KnownAtIs(setup: Setup, s: State, bus: nat, info: Info)
    ensures Located(setup, Sighted(setup, s, bus, info), info.rx) == KnownAt(setup, s, bus, info)
  {
    SameByte(info.tx.id, info.rx.id);
    hide ByteToInt;
  }

  lemma SameByte(a: byte, b: byte)
    ensures ByteToInt(a) == ByteToInt(b) <==> a == b
  {
  }

  function BusNamed(info: Info): BusId {
    if info.header & 0x01 != 0 then info.rx.busId else [0, 0, 0, 0]
  }

  /** An entry of the table leads to bus b, and none before it for the same id leads nowhere. */
  predicate Leads(table: seq<Route>, id: BusId, b: nat) {
    exists e :: 0 <= e < |table| && table[e] == Route(id, b) && NoEndBefore(table, id, e)
  }

  predicate NoEndBefore(table: seq<Route>, id: BusId, e: nat)
    requires e <= |table|
  {
    forall k :: 0 <= k < e && table[k].busId == id ==> table[k].via != NO_BUS
  }

  /** The search of the table visits exactly the buses its entries lead to. */
  lemma {:induction false} TableVisitsIff(table: seq<Route>, id: BusId, k: nat, b: nat)
    requires b != NO_BUS && k <= |table| && NoEndBefore(table, id, k)
    ensures b in TableVisits(table, id, k)
            <==> exists e :: k <= e < |table| && table[e] == Route(id, b) && NoEndBefore(table, id, e)
    decreases |table| - k
  {
    if k < |table| {
      var first := table[k];
      if first.busId == id && first.via == NO_BUS {
        forall e | k <= e < |table| && table[e] == Route(id, b) ensures !NoEndBefore(table, id, e) { }
      } else {
        assert NoEndBefore(table, id, k + 1);
        TableVisitsIff(table, id, k + 1, b);
        if first.busId == id {
          assert TableVisits(table, id, k) == [first.via] + TableVisits(table, id, k + 1);
          if b == first.via { assert table[k] == Route(id, b); }
        }
      }
    }
  }

  /** The buses a packet for a device not known on the virtual bus is handed to: the default gateway, those
      with the id it names, and those the table leads to, but not the one it came from. */
  lemma HandedExact(setup: Setup, s: State, bus: nat, info: Info, b: nat)
    requires Ok(setup, s) && bus < |s.buses| && b < |s.buses| && KnownAt(setup, s, bus, info) == NO_BUS
    ensures b in HandedTo(setup, s, bus, info)
            <==> b != bus && (b == setup.gateway || s.buses[b].tx.busId == BusNamed(info)
                              || Leads(s.table, BusNamed(info), b))
  {
    var id := Wanted(info);
    var t := Sighted(setup, s, bus, info);
    var learned := if setup.learns then Learn(setup, t, info.tx.busId, bus) else t;
    KnownAtIs(setup, s, bus, info);
    NamedIs(info);
    SightedOk(setup, s, bus, info);
    assert learned.buses == s.buses
           && (learned.table == s.table || learned.table == s.table + [Route(info.tx.busId, bus)]);
    assert Fitting(setup, learned);
    hide Sighted, Learn, KnownAt, Located, Wanted, Ok, Fitting, Leads, BusNamed;
    VisitsIff(setup, learned, id, b);
    VisitsAttached(setup, learned, id);
    TargetsExact(s.buses, Visits(setup, learned, id), bus);
    if b != bus { LearnedLeads(s.table, learned.table, info.tx.busId, bus, id, b); }
    hide Visits, Targets;
  }

  lemma NamedIs(info: Info)
    ensures Wanted(info) == BusNamed(info)
  {
    HeaderMasks(info.header);
    hide Shared;
  }

  lemma VisitsIff(setup: Setup, s: State, id: BusId, b: nat)
    requires b < |s.buses| < NO_BUS
    ensures b in Visits(setup, s, id)
            <==> b == setup.gateway || s.buses[b].tx.busId == id || Leads(s.table, id, b)
  {
    AttachedIff(s.buses, id, b, 0);
    TableVisitsIff(s.table, id, 0, b);
    var a, v := AttachedVisits(s.buses, id, 0), TableVisits(s.table, id, 0);
    hide AttachedVisits, TableVisits, NoEndBefore;
    assert Visits(setup, s, id) == a + v + [setup.gateway];
  }

  lemma {:induction false} AttachedIff(buses: seq<Bus>, id: BusId, b: nat, k: nat)
    requires b < |buses|
    ensures b in AttachedVisits(buses, id, k) <==> k <= b && buses[b].tx.busId == id
    decreases |buses| - k
  {
    if k < |buses| { AttachedIff(buses, id, b, k + 1); }
  }

  /** What was learned from the packet itself leads back to where it came from. */
  lemma LearnedLeads(table: seq<Route>, learned: seq<Route>, from: BusId, bus: nat, id: BusId, b: nat)
    requires learned == table || learned == table + [Route(from, bus)]
    requires b != bus
    ensures Leads(learned, id, b) <==> Leads(table, id, b)
  {
    if Leads(table, id, b) {
      var e :| 0 <= e < |table| && table[e] == Route(id, b) && NoEndBefore(table, id, e);
      assert learned[e] == Route(id, b) && NoEndBefore(learned, id, e);
    }
    if Leads(learned, id, b) {
      var e :| 0 <= e < |learned| && learned[e] == Route(id, b) && NoEndBefore(learned, id, e);
      assert e < |table| && table[e] == Route(id, b);
      forall k | 0 <= k < e && table[k].busId == id ensures table[k].via != NO_BUS { assert learned[k] == table[k]; }
      assert NoEndBefore(table, id, e);
    }
  }

  /** The entries that lead to bus b. */
  ghost function Leading(table: seq<Route>, id: BusId, b: nat, k: nat): set<nat> {
    set e: nat | k <= e < |table| && table[e] == Route(id, b) && NoEndBefore(table, id, e)
  }

  lemma LeadingEnds(table: seq<Route>, id: BusId, b: nat, k: nat)
    requires b != NO_BUS && k < |table| && table[k].busId == id && table[k].via == NO_BUS
    ensures Leading(table, id, b, k) == {}
  {
    forall e | k <= e < |table| && table[e] == Route(id, b) ensures !NoEndBefore(table, id, e) { }
  }

  lemma LeadingMore(table: seq<Route>, id: BusId, b: nat, k: nat)
    requires k < |table| && NoEndBefore(table, id, k)
    ensures Leading(table, id, b, k)
            == Leading(table, id, b, k + 1) + if table[k] == Route(id, b) then {k} else {}
    ensures k !in Leading(table, id, b, k + 1)
  {
    hide NoEndBefore;
  }

  lemma {:induction false} TableVisitsCount(table: seq<Route>, id: BusId, k: nat, b: nat)
    requires b != NO_BUS && k <= |table| && NoEndBefore(table, id, k)
    ensures multiset(TableVisits(table, id, k))[b] == |Leading(table, id, b, k)|
    decreases |table| - k
  {
    if k == |table| {
      assert Leading(table, id, b, k) == {};
    } else if table[k].busId == id && table[k].via == NO_BUS {
      LeadingEnds(table, id, b, k);
    } else {
      assert NoEndBefore(table, id, k + 1);
      assert TableVisits(table, id, k)
             == (if table[k].busId == id then [table[k].via] else []) + TableVisits(table, id, k + 1);
      hide NoEndBefore, Leading, TableVisits;
      LeadingMore(table, id, b, k);
      TableVisitsCount(table, id, k + 1, b);
      CountCons(table[k], id, TableVisits(table, id, k + 1), b);
    }
  }

  lemma CountCons(first: Route, id: BusId, rest: seq<nat>, b: nat)
    ensures multiset((if first.busId == id then [first.via] else []) + rest)[b]
            == multiset(rest)[b] + if first == Route(id, b) then 1 else 0
  {
  }

  lemma {:induction false} AttachedCount(buses: seq<Bus>, id: BusId, b: nat, k: nat)
    requires b < |buses|
    ensures multiset(AttachedVisits(buses, id, k))[b] == if k <= b && buses[b].tx.busId == id then 1 else 0
    decreases |buses| - k
  {
    if k < |buses| {
      AttachedCount(buses, id, b, k + 1);
      if buses[k].tx.busId == id {
        assert AttachedVisits(buses, id, k) == [k] + AttachedVisits(buses, id, k + 1);
      }
    }
  }

  lemma {:induction false} TargetsCount(visits: seq<nat>, sender: nat, b: nat)
    requires b != sender && b != NO_BUS
    ensures multiset(Targets(visits, sender))[b] == multiset(visits)[b]
  {
    if visits != [] {
      var n := |visits| - 1;
      TargetsCount(visits[..n], sender, b);
      assert visits == visits[..n] + [visits[n]];
    }
  }

  lemma VisitsCount(setup: Setup, s: State, id: BusId, b: nat)
    requires b < |s.buses| < NO_BUS
    ensures multiset(Visits(setup, s, id))[b]
            == (if s.buses[b].tx.busId == id then 1 else 0) + |Leading(s.table, id, b, 0)|
               + (if b == setup.gateway then 1 else 0)
  {
    AttachedCount(s.buses, id, b, 0);
    TableVisitsCount(s.table, id, 0, b);
    var a, v := AttachedVisits(s.buses, id, 0), TableVisits(s.table, id, 0);
    hide AttachedVisits, TableVisits, NoEndBefore, Leading;
    assert Visits(setup, s, id) == a + v + [setup.gateway];
  }

  lemma LearnedLeading(table: seq<Route>, learned: seq<Route>, from: BusId, bus: nat, id: BusId, b: nat)
    requires learned == table || learned == table + [Route(from, bus)]
    requires b != bus
    ensures Leading(learned, id, b, 0) == Leading(table, id, b, 0)
  {
    forall e: nat | e < |table| ensures NoEndBefore(learned, id, e) <==> NoEndBefore(table, id, e) {
      assert forall k :: 0 <= k < e ==> learned[k] == table[k];
    }
  }

  /** And how often: once for its id, once for each entry that leads there, and once as the gateway. */
  lemma HandedCount(setup: Setup, s: State, bus: nat, info: Info, b: nat)
    requires Ok(setup, s) && bus < |s.buses| && b < |s.buses| && b != bus && KnownAt(setup, s, bus, info) == NO_BUS
    ensures multiset(HandedTo(setup, s, bus, info))[b]
            == (if s.buses[b].tx.busId == BusNamed(info) then 1 else 0) + |Leading(s.table, BusNamed(info), b, 0)|
               + (if b == setup.gateway then 1 else 0)
  {
    var id := Wanted(info);
    var t := Sighted(setup, s, bus, info);
    var learned := if setup.learns then Learn(setup, t, info.tx.busId, bus) else t;
    KnownAtIs(setup, s, bus, info);
    NamedIs(info);
    SightedOk(setup, s, bus, info);
    assert learned.buses == s.buses
           && (learned.table == s.table || learned.table == s.table + [Route(info.tx.busId, bus)]);
    hide Sighted, Learn, KnownAt, Located, Wanted, Ok, Leading, BusNamed;
    VisitsCount(setup, learned, id, b);
    TargetsCount(Visits(setup, learned, id), bus, b);
    LearnedLeading(s.table, learned.table, info.tx.busId, bus, id, b);
    hide Visits, Targets;
  }

  /** A packet for a device that is known goes there alone, and nowhere if it came from there. */
  lemma HandedKnown(setup: Setup, s: State, bus: nat, info: Info)
    requires Ok(setup, s) && bus < |s.buses| && KnownAt(setup, s, bus, info) != NO_BUS
    ensures var known := KnownAt(setup, s, bus, info);
            && known < |s.buses| && HandedTo(setup, s, bus, info) == if known == bus then [] else [known]
  {
    KnownAtIs(setup, s, bus, info);
    SightedOk(setup, s, bus, info);
    LocatedAttached(setup, Sighted(setup, s, bus, info), info.rx);
    hide Sighted, KnownAt, Located, Visits, Learn, Ok;
  }

  // ---------------------------------------------------------------- within the hop limit

  /** The packet asks for an acknowledgement, and not everybody is to send one. */
  predicate Asks(info: Info) {
    info.header & 0x04 != 0 && info.rx.id != 0
  }

  /** Bus b is served in the ordinary way: only the buses with the id of the virtual one are not, as long as
      the place of the receiver is not known. */
  predicate Ordinary(setup: Setup, buses: seq<Bus>, known: nat, b: nat)
    requires b < |buses|
  {
    known != NO_BUS || !Virtual(setup, buses, buses[b].tx.busId)
  }

  predicate Served(setup: Setup, buses: seq<Bus>, known: nat, targets: seq<nat>, i: nat)
    requires i < |targets|
  {
    targets[i] < |buses| && Ordinary(setup, buses, known, targets[i])
  }

  /** Address translation: a shared packet from a local bus with a public id gets that id as its source if
      it has none, and one to the public id of a local bus gets 0.0.0.0 as its destination. Everything else
      keeps its bus ids. */
  function SourceBus(from: Bus, info: Info): BusId {
    if info.header & 0x01 != 0 && from.config & 0x01 == 0 && from.tx.busId != [0, 0, 0, 0]
       && info.tx.busId == [0, 0, 0, 0] then from.tx.busId
    else info.tx.busId
  }

  function TargetBus(to: Bus, info: Info): BusId {
    if info.header & 0x01 != 0 && to.config & 0x01 == 0 && to.tx.busId != [0, 0, 0, 0]
       && info.rx.busId == to.tx.busId then [0, 0, 0, 0]
    else info.rx.busId
  }

  lemma NatOutIs(from: Bus, info: Info)
    ensures NatOut(from, info) == info.(tx := info.tx.(busId := SourceBus(from, info)))
  {
    HeaderMasks(info.header);
    HeaderMasks(from.config);
    hide Shared;
  }

  lemma NatInIs(to: Bus, info: Info)
    ensures NatIn(to, info) == info.(rx := info.rx.(busId := TargetBus(to, info)))
  {
    HeaderMasks(info.header);
    HeaderMasks(to.config);
    hide Shared;
  }

  lemma TargetSame(to: Bus, info: Info, other: Info)
    requires info.header & 0x01 == other.header & 0x01 && info.rx == other.rx
    ensures TargetBus(to, info) == TargetBus(to, other)
  {
  }

  lemma SourceSame(from: Bus, info: Info, other: Info)
    requires info.header & 0x01 == other.header & 0x01 && info.tx == other.tx
    ensures SourceBus(from, info) == SourceBus(from, other)
  {
  }

  lemma TranslatedIs(from: Bus, to: Bus, info: Info)
    ensures Translated(from, to, info)
            == info.(tx := info.tx.(busId := SourceBus(from, info)), rx := info.rx.(busId := TargetBus(to, info)))
  {
    hide NatOut, NatIn, SourceBus, TargetBus;
    NatOutIs(from, info);
    NatInIs(to, NatOut(from, info));
    TargetSame(to, NatOut(from, info), info);
  }

  /** The copy for bus b: the packet one hop further, translated, without its acknowledgement request where b
      is not served in the ordinary way. */
  function CopyOf(
    setup: Setup, buses: seq<Bus>, known: nat, b: nat, bus: nat, info: Info, payload: seq<byte>
  ): Copy
    requires b < |buses| && bus < |buses|
  {
    Copy(b, info.(
           header := if Ordinary(setup, buses, known, b) then info.header else info.header & 0xFB,
           hops := info.hops + 1,
           tx := info.tx.(busId := SourceBus(buses[bus], info)),
           rx := info.rx.(busId := TargetBus(buses[b], info))), payload)
  }

  /** A packet within the hop limit is copied once to every bus it is handed to, in that order. Its source
      is acknowledged once if it asks for it and some bus was served in the ordinary way, and not at all
      otherwise. */
  lemma AckRule(setup: Setup, s: State, bus: nat, info: Info, payload: seq<byte>)
    requires Ok(setup, s) && bus < |s.buses| && !Dropped(info)
    ensures var r, targets := Received(setup, s, bus, info, payload), HandedTo(setup, s, bus, info);
            var known := KnownAt(setup, s, bus, info);
            && |r.copies| == |s.copies| + |targets| && s.copies <= r.copies
            && (forall i :: 0 <= i < |targets| ==>
                  targets[i] < |s.buses| && targets[i] != bus
                  && r.copies[|s.copies| + i] == CopyOf(setup, s.buses, known, targets[i], bus, info, payload))
            && r.acks == s.acks + if Asks(info) && exists i :: 0 <= i < |targets|
                                                              && Served(setup, s.buses, known, targets, i)
                                  then [bus] else []
  {
    KnownAtIs(setup, s, bus, info);
    AsksIs(info);
    if KnownAt(setup, s, bus, info) == NO_BUS {
      UnknownAcks(setup, s, bus, info, payload);
    } else {
      KnownAcks(setup, s, bus, info, payload);
    }
    hide *;
  }

  lemma AsksIs(info: Info)
    ensures WantsAck(info) <==> Asks(info)
  {
    HeaderMasks(info.header);
    hide AckRequested;
  }

  lemma UnknownAcks(setup: Setup, s: State, bus: nat, info: Info, payload: seq<byte>)
    requires Ok(setup, s) && bus < |s.buses| && !Dropped(info)
    requires Located(setup, Sighted(setup, s, bus, info), info.rx) == NO_BUS
    ensures var r, targets := Received(setup, s, bus, info, payload), HandedTo(setup, s, bus, info);
            && |r.copies| == |s.copies| + |targets| && s.copies <= r.copies
            && (forall i :: 0 <= i < |targets| ==>
                  targets[i] < |s.buses| && targets[i] != bus
                  && r.copies[|s.copies| + i] == CopyOf(setup, s.buses, NO_BUS, targets[i], bus, info, payload))
            && r.acks == s.acks + if Asks(info) && exists i :: 0 <= i < |targets|
                                                              && Served(setup, s.buses, NO_BUS, targets, i)
                                  then [bus] else []
  {
    UnknownDevice(setup, s, bus, info, payload);
    AsksIs(info);
    var targets, r := HandedTo(setup, s, bus, info), Received(setup, s, bus, info, payload);
    hide Received, Sighted, Located, Learn, Visits, Targets, CopyOf, CopyFor, Ok, Dropped, WantsAck, Asks, Wanted;
    hide OnVirtualBus, Virtual;
    forall i | 0 <= i < |targets|
      ensures targets[i] < |s.buses|
      ensures r.copies[|s.copies| + i] == CopyOf(setup, s.buses, NO_BUS, targets[i], bus, info, payload)
      ensures Served(setup, s.buses, NO_BUS, targets, i) <==> !Quiet(setup, s.buses, true, targets[i])
    {
      QuietIs(setup, s.buses, true, targets[i]);
      CopyForIs(setup, s.buses, true, targets[i], bus, info, payload);
    }
    hide Quiet, Served;
  }

  lemma QuietIs(setup: Setup, buses: seq<Bus>, unknown: bool, b: nat)
    requires b < |buses|
    ensures Quiet(setup, buses, unknown, b) <==> !Ordinary(setup, buses, if unknown then NO_BUS else 0, b)
  {
  }

  lemma CopyForIs(
    setup: Setup, buses: seq<Bus>, unknown: bool, b: nat, bus: nat, info: Info, payload: seq<byte>
  )
    requires b < |buses| && bus < |buses|
    ensures CopyFor(setup, buses, unknown, b, bus, info, payload)
            == CopyOf(setup, buses, if unknown then NO_BUS else 0, b, bus, info, payload)
  {
    QuietIs(setup, buses, unknown, b);
    hide SourceBus, TargetBus, Quiet, Ordinary, Translated, DropAck, Hopped;
    if Quiet(setup, buses, unknown, b) {
      QuietRelayed(buses[bus], buses[b], info);
    } else {
      Relayed(buses[bus], buses[b], info);
    }
  }

  lemma Relayed(from: Bus, to: Bus, info: Info)
    ensures Hopped(Translated(from, to, info))
            == info.(hops := info.hops + 1, tx := info.tx.(busId := SourceBus(from, info)),
                     rx := info.rx.(busId := TargetBus(to, info)))
  {
    TranslatedIs(from, to, info);
    hide SourceBus, TargetBus, Translated;
  }

  lemma QuietRelayed(from: Bus, to: Bus, info: Info)
    ensures Hopped(Translated(from, to, info.(header := DropAck(info.header))))
            == info.(header := info.header & 0xFB, hops := info.hops + 1,
                     tx := info.tx.(busId := SourceBus(from, info)), rx := info.rx.(busId := TargetBus(to, info)))
  {
    var quiet := info.(header := DropAck(info.header));
    AckCleared(info.header);
    ModeKept(info.header);
    hide SourceBus, TargetBus, Translated, DropAck, Hopped;
    Relayed(from, to, quiet);
    SourceSame(from, info, quiet);
    TargetSame(to, info, quiet);
  }

  lemma ModeKept(h: byte)
    ensures DropAck(h) & 0x01 == h & 0x01
  {
  }

  lemma AckCleared(h: byte)
    ensures DropAck(h) == h & 0xFB
  {
  }

  lemma KnownAcks(setup: Setup, s: State, bus: nat, info: Info, payload: seq<byte>)
    requires Ok(setup, s) && bus < |s.buses| && !Dropped(info) && KnownAt(setup, s, bus, info) != NO_BUS
    ensures var r, targets := Received(setup, s, bus, info, payload), HandedTo(setup, s, bus, info);
            var known := KnownAt(setup, s, bus, info);
            && |r.copies| == |s.copies| + |targets| && s.copies <= r.copies
            && (forall i :: 0 <= i < |targets| ==>
                  targets[i] < |s.buses| && targets[i] != bus
                  && r.copies[|s.copies| + i] == CopyOf(setup, s.buses, known, targets[i], bus, info, payload))
            && r.acks == s.acks + if Asks(info) && exists i :: 0 <= i < |targets|
                                                              && Served(setup, s.buses, known, targets, i)
                                  then [bus] else []
  {
    var known, t := KnownAt(setup, s, bus, info), Sighted(setup, s, bus, info);
    HandedKnown(setup, s, bus, info);
    KnownAtIs(setup, s, bus, info);
    AsksIs(info);
    SightedOk(setup, s, bus, info);
    SightedLogs(setup, s, bus, info);
    if known != bus {
      SentWithinLimit(setup, t, false, known, bus, false, info, payload);
      CopyForIs(setup, s.buses, false, known, bus, info, payload);
      QuietIs(setup, s.buses, false, known);
      OrdinaryKnown(setup, s.buses, known, bus, info, payload);
      assert HandedTo(setup, s, bus, info) == [known] && Served(setup, s.buses, known, [known], 0);
    }
    hide Sighted, KnownAt, Located, HandedTo, SendTo, CopyFor, Quiet, CopyOf, WantsAck, Asks, Dropped, Ok, Served;
  }

  lemma SightedLogs(setup: Setup, s: State, bus: nat, info: Info)
    ensures var t := Sighted(setup, s, bus, info); t.copies == s.copies && t.acks == s.acks
  {
  }

  lemma OrdinaryKnown(setup: Setup, buses: seq<Bus>, known: nat, bus: nat, info: Info, payload: seq<byte>)
    requires known < |buses| < NO_BUS && bus < |buses|
    ensures CopyOf(setup, buses, known, known, bus, info, payload) == CopyOf(setup, buses, 0, known, bus, info, payload)
    ensures Ordinary(setup, buses, known, known)
  {
    hide Virtual, SourceBus, TargetBus;
  }

  /** Without a virtual bus every packet that asks is acknowledged exactly if it goes anywhere, and every
      copy keeps the header. */
  lemma AckRulePlain(setup: Setup, s: State, bus: nat, info: Info, payload: seq<byte>)
    requires Ok(setup, s) && bus < |s.buses| && !Dropped(info) && setup.virtualBus >= |s.buses|
    ensures var r, targets := Received(setup, s, bus, info, payload), HandedTo(setup, s, bus, info);
            && |r.copies| == |s.copies| + |targets|
            && (forall k :: |s.copies| <= k < |r.copies| ==> r.copies[k].info.header == info.header)
            && r.acks == s.acks + if Asks(info) && targets != [] then [bus] else []
  {
    AckRule(setup, s, bus, info, payload);
    var targets, r := HandedTo(setup, s, bus, info), Received(setup, s, bus, info, payload);
    var known := KnownAt(setup, s, bus, info);
    hide Received, HandedTo, Asks, Ok, Dropped, KnownAt;
    if targets != [] { assert Served(setup, s.buses, known, targets, 0); }
    forall k | |s.copies| <= k < |r.copies| ensures r.copies[k].info.header == info.header {
      var i := k - |s.copies|;
      assert r.copies[|s.copies| + i] == CopyOf(setup, s.buses, known, targets[i], bus, info, payload);
    }
  }

  // ---------------------------------------------------------------- over the hop limit

  /** The id bus b has when the i-th bus is served: those before it were left with the source of the packet
      as their endpoint. */
  function IdThen(buses: seq<Bus>, targets: seq<nat>, source: BusId, i: nat, b: nat): BusId
    requires i <= |targets| && b < |buses|
  {
    if b in targets[..i] then source else buses[b].tx.busId
  }

  predicate ServedOver(setup: Setup, buses: seq<Bus>, known: nat, targets: seq<nat>, source: BusId, i: nat)
    requires i < |targets|
  {
    && targets[i] < |buses|
    && (known != NO_BUS || setup.virtualBus >= |buses|
        || IdThen(buses, targets, source, i, targets[i]) != IdThen(buses, targets, source, i, setup.virtualBus))
  }

  /** Over the hop limit nothing is sent. Every bus the packet would be handed to is left with its source as
      endpoint, and the source is acknowledged by the same rule, on the endpoints left so far. */
  lemma AckRuleOver(setup: Setup, s: State, bus: nat, info: Info, payload: seq<byte>)
    requires Ok(setup, s) && bus < |s.buses| && Dropped(info)
    ensures var r, targets := Received(setup, s, bus, info, payload), HandedTo(setup, s, bus, info);
            var known, source := KnownAt(setup, s, bus, info), SourceBus(s.buses[bus], info);
            && r.copies == s.copies && |r.buses| == |s.buses|
            && (forall b :: 0 <= b < |s.buses| ==>
                  r.buses[b] == if b in targets then s.buses[b].(tx := info.tx.(busId := source)) else s.buses[b])
            && r.acks == s.acks + if Asks(info) && exists i :: 0 <= i < |targets|
                                                       && ServedOver(setup, s.buses, known, targets, source, i)
                                  then [bus] else []
  {
    var targets, known := HandedTo(setup, s, bus, info), KnownAt(setup, s, bus, info);
    var tx := info.tx.(busId := SourceBus(s.buses[bus], info));
    ReceivedOverLimit(setup, s, bus, info, payload);
    KnownAtIs(setup, s, bus, info);
    AsksIs(info);
    NatOutIs(s.buses[bus], info);
    hide Received, HandedTo, KnownAt, Located, Sighted, WantsAck, Asks, Dropped, Ok, NatOut, SourceBus;
    hide ServedOver, OrdinaryAt;
    var unknown := Located(setup, Sighted(setup, s, bus, info), info.rx) == NO_BUS;
    forall i | 0 <= i < |targets|
      ensures OrdinaryAt(setup, s.buses, unknown, targets, tx, i)
              <==> ServedOver(setup, s.buses, known, targets, tx.busId, i)
    {
      ServedOverIs(setup, s.buses, known, targets, tx, i);
    }
    assert forall b :: 0 <= b < |s.buses| ==>
             Received(setup, s, bus, info, payload).buses[b]
             == if b in targets then s.buses[b].(tx := tx) else s.buses[b];
    assert AcknowledgesOver(setup, s.buses, unknown, targets, tx, info)
           <==> Asks(info) && exists i :: 0 <= i < |targets|
                                          && ServedOver(setup, s.buses, known, targets, tx.busId, i);
  }

  lemma ServedOverIs(setup: Setup, buses: seq<Bus>, known: nat, targets: seq<nat>, tx: Endpoint, i: nat)
    requires i < |targets| && forall k :: 0 <= k < |targets| ==> targets[k] < |buses|
    ensures OrdinaryAt(setup, buses, known == NO_BUS, targets, tx, i)
            <==> ServedOver(setup, buses, known, targets, tx.busId, i)
  {
    var marked := Marked(buses, targets[..i], tx);
    MarkedExact(buses, targets[..i], tx);
    assert marked[targets[i]].tx.busId == IdThen(buses, targets, tx.busId, i, targets[i]);
    if setup.virtualBus < |buses| {
      assert marked[setup.virtualBus].tx.busId == IdThen(buses, targets, tx.busId, i, setup.virtualBus);
    }
    hide Marked, IdThen;
  }
}
