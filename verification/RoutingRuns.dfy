/** What routers have learned after any run: the table of a dynamic router is a record of first
    sightings, the device positions of a virtual bus one of last sightings. */
module RoutingRuns {
  import opened Words
  import opened Packets
  import opened Routing
  import opened Delivery

  predicate Placed(events: seq<Event>, count: nat) {
    forall i :: 0 <= i < |events| ==> events[i].bus < count
  }

  /** No packet hits the hop limit. */
  predicate WithinLimit(events: seq<Event>) {
    forall i :: 0 <= i < |events| && events[i].Arrived? ==> !Dropped(events[i].info)
  }

  lemma HandledOk(setup: Setup, s: State, e: Event)
    requires Ok(setup, s) && e.bus < |s.buses|
    ensures Ok(setup, Handled(setup, s, e)) && |Handled(setup, s, e).buses| == |s.buses|
    ensures |Handled(setup, s, e).devices| == |s.devices|
  {
    hide Visits, OnVirtualBus, Wanted, Learn, Register, Located, SendTo, DeliverTo;
    match e
    case GivenUp(bus, info) =>
      RegisterOk(setup, s, info.rx.id, NO_BUS);
    case Arrived(bus, info, payload) =>
      RegisterOk(setup, s, info.tx.id, bus);
      var t := Sighted(setup, s, bus, info);
      LearnOk(setup, t, info.tx.busId, bus);
      VisitsAttached(setup, if setup.learns then Learn(setup, t, info.tx.busId, bus) else t, Wanted(info));
  }

  lemma RegisterOk(setup: Setup, s: State, device: byte, bus: nat)
    requires Ok(setup, s) && Attached(s.buses, bus)
    ensures Ok(setup, Register(s, device, bus)) && Register(s, device, bus).buses == s.buses
    ensures |Register(s, device, bus).devices| == |s.devices|
  {
  }

  lemma LearnOk(setup: Setup, s: State, id: BusId, bus: nat)
    requires Ok(setup, s) && bus < |s.buses|
    ensures Ok(setup, Learn(setup, s, id, bus)) && Learn(setup, s, id, bus).buses == s.buses
    ensures Learn(setup, s, id, bus).devices == s.devices
  {
    hide Remaining;
  }

  /** The state after a run. */
  function Ran(setup: Setup, s: State, events: seq<Event>): (r: State)
    requires Ok(setup, s) && Placed(events, |s.buses|)
    ensures Ok(setup, r) && |r.buses| == |s.buses| && |r.devices| == |s.devices|
  {
    if events == [] then s
    else
      var n := |events| - 1;
      var r := Ran(setup, s, events[..n]);
      HandledOk(setup, r, events[n]);
      Handled(setup, r, events[n])
  }

  /** Within the hop limit the attached buses keep their endpoints, and learning is all that changes. */
  lemma HandledWithinLimit(setup: Setup, s: State, e: Event)
    requires Ok(setup, s) && e.bus < |s.buses| && (e.Arrived? ==> !Dropped(e.info))
    ensures var r := Handled(setup, s, e);
            && r.buses == s.buses
            && (e.GivenUp? ==> r == Forgotten(setup, s, e.bus, e.info))
            && (e.Arrived? ==>
                  var t := Sighted(setup, s, e.bus, e.info);
                  && r.devices == t.devices
                  && r.table == if setup.learns && Located(setup, t, e.info.rx) == NO_BUS
                                then Learn(setup, t, e.info.tx.busId, e.bus).table else t.table)
  {
    match e
    case GivenUp(_, _) =>
    case Arrived(bus, info, payload) =>
      var t := Sighted(setup, s, bus, info);
      assert Ok(setup, t) && t.buses == s.buses;
      var known := Located(setup, t, info.rx);
      if known == NO_BUS {
        RoutedWithinLimit(setup, t, bus, info, payload);
      } else if known != bus {
        SentWithinLimit(setup, t, false, known, bus, false, info, payload);
      }
      hide Sighted, Located, Routed, SendTo, Learn, Dropped;
  }

  lemma RoutedWithinLimit(setup: Setup, s: State, sender: nat, info: Info, payload: seq<byte>)
    requires Ok(setup, s) && sender < |s.buses| && !Dropped(info)
    ensures var r := Routed(setup, s, sender, info, payload);
            && r.buses == s.buses && r.devices == s.devices
            && r.table == if setup.learns then Learn(setup, s, info.tx.busId, sender).table else s.table
  {
    var t := if setup.learns then Learn(setup, s, info.tx.busId, sender) else s;
    assert Ok(setup, t) && t.buses == s.buses && t.devices == s.devices;
    VisitsAttached(setup, t, Wanted(info));
    hide Learn, Visits, Wanted, Dropped;
    DeliveredWithinLimit(setup, t, true, Visits(setup, t, Wanted(info)), sender, info, payload);
  }

  // ---------------------------------------------------------------- dynamic routers

  predicate Unattached(buses: seq<Bus>, id: BusId) {
    forall b :: 0 <= b < |buses| ==> buses[b].tx.busId != id
  }

  predicate Missing(table: seq<Route>, id: BusId) {
    forall i :: 0 <= i < |table| ==> table[i].busId != id
  }

  /** The remote buses seen in a run, in the order first seen, with where each was first seen. */
  function FirstSeen(buses: seq<Bus>, events: seq<Event>): seq<Route> {
    if events == [] then []
    else
      var n := |events| - 1;
      var before := FirstSeen(buses, events[..n]);
      var e := events[n];
      if e.Arrived? && Unattached(buses, e.info.tx.busId) && Missing(before, e.info.tx.busId)
      then before + [Route(e.info.tx.busId, e.bus)] else before
  }

  predicate Sender(e: Event, id: BusId) {
    e.Arrived? && e.info.tx.busId == id
  }

  /** Event i is the first with this sender bus. */
  predicate FirstFrom(events: seq<Event>, i: nat, id: BusId)
    requires i < |events|
  {
    Sender(events[i], id) && forall j :: 0 <= j < i ==> !Sender(events[j], id)
  }

  lemma FirstSeenStep(buses: seq<Bus>, events: seq<Event>)
    requires events != []
    ensures var n := |events| - 1;
            var before, e := FirstSeen(buses, events[..n]), events[n];
            FirstSeen(buses, events)
            == if e.Arrived? && Unattached(buses, e.info.tx.busId) && Missing(before, e.info.tx.busId)
               then before + [Route(e.info.tx.busId, e.bus)] else before
  {
  }

  /** No bus is entered twice, and none that is attached. */
  lemma {:induction false} FirstSeenDistinct(buses: seq<Bus>, events: seq<Event>)
    ensures var f := FirstSeen(buses, events);
            && (forall i, j :: 0 <= i < j < |f| ==> f[i].busId != f[j].busId)
            && (forall i :: 0 <= i < |f| ==> Unattached(buses, f[i].busId))
  {
    if events != [] {
      FirstSeenStep(buses, events);
      FirstSeenDistinct(buses, events[..|events| - 1]);
      hide FirstSeen, Unattached;
    }
  }

  /** Entry r records the first packet from its bus. */
  ghost predicate Origin(events: seq<Event>, r: Route) {
    exists k :: 0 <= k < |events| && FirstFrom(events, k, r.busId) && r.via == events[k].bus
  }

  lemma OriginStays(events: seq<Event>, more: seq<Event>, r: Route)
    requires events <= more && Origin(events, r)
    ensures Origin(more, r)
  {
    var k :| 0 <= k < |events| && FirstFrom(events, k, r.busId) && r.via == events[k].bus;
    assert FirstFrom(more, k, r.busId);
  }

  /** Each entry tells where the first packet from its bus came from. */
  lemma {:induction false} FirstSeenOrigins(buses: seq<Bus>, events: seq<Event>)
    ensures forall i :: 0 <= i < |FirstSeen(buses, events)| ==> Origin(events, FirstSeen(buses, events)[i])
  {
    if events != [] {
      var n := |events| - 1;
      var e := events[n];
      var before, f := FirstSeen(buses, events[..n]), FirstSeen(buses, events);
      FirstSeenStep(buses, events);
      FirstSeenOrigins(buses, events[..n]);
      if f != before { NewIsFirst(buses, events); }
      hide FirstSeen, Unattached, Missing;
      forall i | 0 <= i < |f| ensures Origin(events, f[i]) {
        if i < |before| { OriginStays(events[..n], events, before[i]); }
      }
    }
  }

  lemma NewIsFirst(buses: seq<Bus>, events: seq<Event>)
    requires events != [] && FirstSeen(buses, events) != FirstSeen(buses, events[..|events| - 1])
    ensures Origin(events, Route(events[|events| - 1].info.tx.busId, events[|events| - 1].bus))
  {
    var n := |events| - 1;
    var id := events[n].info.tx.busId;
    FirstSeenStep(buses, events);
    FirstSeenCovers(buses, events[..n]);
    hide FirstSeen, Unattached;
    forall j | 0 <= j < n ensures !Sender(events[j], id) {
      assert Entered(buses, FirstSeen(buses, events[..n]), events[..n][j]);
    }
    assert FirstFrom(events, n, id);
  }

  /** The sender's bus of event e is attached or in the table. */
  predicate Entered(buses: seq<Bus>, table: seq<Route>, e: Event) {
    e.Arrived? && Unattached(buses, e.info.tx.busId) ==> !Missing(table, e.info.tx.busId)
  }

  /** Every sender's bus that is not attached is entered. */
  lemma {:induction false} FirstSeenCovers(buses: seq<Bus>, events: seq<Event>)
    ensures forall k :: 0 <= k < |events| ==> Entered(buses, FirstSeen(buses, events), events[k])
  {
    if events != [] {
      var n := |events| - 1;
      var before, f := FirstSeen(buses, events[..n]), FirstSeen(buses, events);
      FirstSeenCovers(buses, events[..n]);
      LastEntered(buses, events);
      hide FirstSeen, Entered;
      forall k | 0 <= k < |events| ensures Entered(buses, f, events[k]) {
        if k < n {
          assert Entered(buses, before, events[..n][k]);
          EnteredStays(buses, before, f, events[k]);
        }
      }
    }
  }

  lemma LastEntered(buses: seq<Bus>, events: seq<Event>)
    requires events != []
    ensures FirstSeen(buses, events[..|events| - 1]) <= FirstSeen(buses, events)
    ensures Entered(buses, FirstSeen(buses, events), events[|events| - 1])
  {
    var before, e := FirstSeen(buses, events[..|events| - 1]), events[|events| - 1];
    FirstSeenStep(buses, events);
    hide FirstSeen, Unattached;
    if e.Arrived? { assert (before + [Route(e.info.tx.busId, e.bus)])[|before|].busId == e.info.tx.busId; }
  }

  lemma EnteredStays(buses: seq<Bus>, table: seq<Route>, more: seq<Route>, e: Event)
    requires table <= more && Entered(buses, table, e)
    ensures Entered(buses, more, e)
  {
    hide Unattached;
    if e.Arrived? && Unattached(buses, e.info.tx.busId) {
      var i :| 0 <= i < |table| && table[i].busId == e.info.tx.busId;
      assert more[i].busId == e.info.tx.busId;
    }
  }

  lemma TableFindsIff(table: seq<Route>, id: BusId)
    requires forall i :: 0 <= i < |table| ==> table[i].via != NO_BUS
    ensures TableVisits(table, id, 0) == [] <==> Missing(table, id)
  {
    MatchingExact(table, id, 0);
    TableVisitsExact(table, id, 0);
    var m := Matching(table, id, 0);
    hide TableVisits, Matching;
    if m == [] { assert Missing(table, id); } else { assert table[m[0]].busId == id; }
  }

  /** A bus is found if and only if it is attached or in the table. */
  lemma FoundIff(s: State, id: BusId)
    requires |s.buses| < NO_BUS && forall i :: 0 <= i < |s.table| ==> s.table[i].via < |s.buses|
    ensures Remaining(s, id, 0) == [] <==> Unattached(s.buses, id) && Missing(s.table, id)
  {
    AttachedVisitsExact(s.buses, id, 0);
    TableFindsIff(s.table, id);
    var a := AttachedVisits(s.buses, id, 0);
    hide AttachedVisits, TableVisits, Missing;
    if a != [] { assert s.buses[a[0]].tx.busId == id; }
  }

  function Limited(table: seq<Route>, capacity: nat): seq<Route> {
    if |table| <= capacity then table else table[..capacity]
  }

  lemma LearnIsFirstSeen(setup: Setup, s: State, before: seq<Route>, id: BusId, bus: nat)
    requires Ok(setup, s) && s.table == Limited(before, setup.capacity)
    requires forall i :: 0 <= i < |before| ==> before[i].via < |s.buses|
    ensures Learn(setup, s, id, bus).table
            == Limited(if Unattached(s.buses, id) && Missing(before, id) then before + [Route(id, bus)] else before,
                       setup.capacity)
  {
    FoundIff(s, id);
    hide Remaining, Unattached;
  }

  lemma FirstSeenAttached(buses: seq<Bus>, events: seq<Event>)
    requires Placed(events, |buses|)
    ensures forall i :: 0 <= i < |FirstSeen(buses, events)| ==> FirstSeen(buses, events)[i].via < |buses|
  {
    FirstSeenOrigins(buses, events);
    var f := FirstSeen(buses, events);
    hide FirstSeen;
    forall i | 0 <= i < |f| ensures f[i].via < |buses| {
      var k :| 0 <= k < |events| && FirstFrom(events, k, f[i].busId) && f[i].via == events[k].bus;
    }
  }

  // ---------------------------------------------------------------- virtual buses

  /** Event e is a packet from device d of the virtual bus. */
  predicate Sighting(e: Event, id: BusId, d: nat) {
    e.Arrived? && e.info.tx.busId == id && ByteToInt(e.info.tx.id) == d
  }

  /** Event e reports device d lost on this part of the virtual bus. */
  predicate LossOn(buses: seq<Bus>, e: Event, id: BusId, d: nat, bus: nat) {
    && e.GivenUp? && e.bus == bus && e.info.rx.busId == id && ByteToInt(e.info.rx.id) == d
    && bus < |buses| && buses[bus].tx.busId == id
  }

  /** The latest packet from device d. */
  function LatestFrom(events: seq<Event>, id: BusId, d: nat): (r: Option<nat>)
    ensures match r
            case None => forall i :: 0 <= i < |events| ==> !Sighting(events[i], id, d)
            case Some(k) =>
              k < |events| && Sighting(events[k], id, d) && forall i :: k < i < |events| ==> !Sighting(events[i], id, d)
  {
    if events == [] then None
    else
      var n := |events| - 1;
      if Sighting(events[n], id, d) then Some(n) else LatestFrom(events[..n], id, d)
  }

  ghost predicate LostSince(buses: seq<Bus>, events: seq<Event>, id: BusId, d: nat, k: nat, bus: nat) {
    exists j :: k < j < |events| && LossOn(buses, events[j], id, d, bus)
  }

  /** Where device d is, judging by a run: on the bus of its latest packet, unless a connection was lost
      there since. */
  ghost function Whereabouts(buses: seq<Bus>, events: seq<Event>, id: BusId, d: nat): nat {
    match LatestFrom(events, id, d)
    case None => NO_BUS
    case Some(k) => if LostSince(buses, events, id, d, k, events[k].bus) then NO_BUS else events[k].bus
  }

  lemma WhereaboutsStep(buses: seq<Bus>, events: seq<Event>, id: BusId, d: nat)
    requires events != [] && Placed(events, |buses|) && |buses| < NO_BUS
    ensures var n := |events| - 1;
            var before := Whereabouts(buses, events[..n], id, d);
            Whereabouts(buses, events, id, d)
            == if Sighting(events[n], id, d) then events[n].bus
               else if before != NO_BUS && LossOn(buses, events[n], id, d, before) then NO_BUS
               else before
  {
    var n := |events| - 1;
    hide Sighting, LossOn;
    var latest := LatestFrom(events[..n], id, d);
    if !Sighting(events[n], id, d) && latest.Some? {
      var k, bus := latest.value, events[latest.value].bus;
      if LostSince(buses, events[..n], id, d, k, bus) {
        var j :| k < j < n && LossOn(buses, events[..n][j], id, d, bus);
        assert LossOn(buses, events[j], id, d, bus);
      }
      if LostSince(buses, events, id, d, k, bus) && !LossOn(buses, events[n], id, d, bus) {
        var j :| k < j < |events| && LossOn(buses, events[j], id, d, bus);
        assert events[..n][j] == events[j];
      }
    }
  }

  /** The device positions of a virtual bus are, after any run within the hop limit, what the run says
      about each device's whereabouts. */
  lemma {:induction false} DevicePositions(setup: Setup, s: State, events: seq<Event>, d: nat)
    requires Ok(setup, s) && Placed(events, |s.buses|) && WithinLimit(events)
    requires setup.virtualBus < |s.buses| && d < |s.devices| && s.devices[d] == NO_BUS
    ensures var r := Ran(setup, s, events);
            && r.buses == s.buses
            && r.devices[d] == Whereabouts(s.buses, events, s.buses[setup.virtualBus].tx.busId, d)
  {
    if events != [] {
      var n := |events| - 1;
      var e, id := events[n], s.buses[setup.virtualBus].tx.busId;
      var r := Ran(setup, s, events[..n]);
      DevicePositions(setup, s, events[..n], d);
      DeviceStep(setup, r, e, d);
      WhereaboutsStep(s.buses, events, id, d);
      hide Whereabouts, Handled, Sighting, LossOn;
    }
  }

  lemma DeviceStep(setup: Setup, s: State, e: Event, d: nat)
    requires Ok(setup, s) && e.bus < |s.buses| && (e.Arrived? ==> !Dropped(e.info))
    requires setup.virtualBus < |s.buses| && d < |s.devices|
    ensures var r, id := Handled(setup, s, e), s.buses[setup.virtualBus].tx.busId;
            && r.buses == s.buses && |r.devices| == |s.devices|
            && r.devices[d] == if Sighting(e, id, d) then e.bus
                               else if s.devices[d] != NO_BUS && LossOn(s.buses, e, id, d, s.devices[d]) then NO_BUS
                               else s.devices[d]
  {
    HandledWithinLimit(setup, s, e);
    hide Handled, Learn;
  }

  // ---------------------------------------------------------------- what a dynamic router learns

  /** The last packet of a run is for a device whose place on the virtual bus is known when it arrives. */
  ghost predicate LastPointed(setup: Setup, s: State, events: seq<Event>)
    requires events != []
  {
    var e := events[|events| - 1];
    && e.Arrived? && OnVirtualBus(setup, s.buses, e.info.rx.busId) && ByteToInt(e.info.rx.id) < |s.devices|
    && Whereabouts(s.buses, events, e.info.rx.busId, ByteToInt(e.info.rx.id)) != NO_BUS
  }

  /** The events of a run that get past the virtual bus. */
  ghost function Undirected(setup: Setup, s: State, events: seq<Event>): seq<Event> {
    if events == [] then []
    else
      var n := |events| - 1;
      Undirected(setup, s, events[..n]) + if LastPointed(setup, s, events) then [] else [events[n]]
  }

  lemma {:induction false} UndirectedPlaced(setup: Setup, s: State, events: seq<Event>, count: nat)
    requires Placed(events, count)
    ensures Placed(Undirected(setup, s, events), count)
  {
    if events != [] {
      UndirectedPlaced(setup, s, events[..|events| - 1], count);
      hide LastPointed;
    }
  }

  /** Without a virtual bus all events do. */
  lemma {:induction false} AllUndirected(setup: Setup, s: State, events: seq<Event>)
    requires setup.virtualBus >= |s.buses|
    ensures Undirected(setup, s, events) == events
    decreases |events|
  {
    if events == [] {
      hide LastPointed;
    } else {
      var n := |events| - 1;
      NonePointed(setup, s, events);
      hide *;
      UndirectedStep(setup, s, events);
      AllUndirected(setup, s, events[..n]);
      assert events == events[..n] + [events[n]];
    }
  }

  lemma NonePointed(setup: Setup, s: State, events: seq<Event>)
    requires setup.virtualBus >= |s.buses| && events != []
    ensures !LastPointed(setup, s, events)
  {
    hide Whereabouts;
  }

  /** Where the last packet of a run finds its receiver. */
  lemma LastLocated(setup: Setup, s: State, events: seq<Event>)
    requires Ok(setup, s) && Placed(events, |s.buses|) && WithinLimit(events) && events != []
    requires events[|events| - 1].Arrived? && forall d :: 0 <= d < |s.devices| ==> s.devices[d] == NO_BUS
    requires Ran(setup, s, events[..|events| - 1]).buses == s.buses
    ensures var e := events[|events| - 1];
            var t := Sighted(setup, Ran(setup, s, events[..|events| - 1]), e.bus, e.info);
            Located(setup, t, e.info.rx) == NO_BUS <==> !LastPointed(setup, s, events)
  {
    var n := |events| - 1;
    var e, r := events[n], Ran(setup, s, events[..n]);
    var d := ByteToInt(e.info.rx.id);
    if setup.virtualBus < |s.buses| && d < |s.devices| { DevicePositions(setup, s, events, d); }
    HandledWithinLimit(setup, r, e);
    hide Handled, Whereabouts, Sighted, Learn;
  }

  /** The table of a dynamic router that started empty holds, after any run within the hop limit, the
      remote buses in the order first seen, each with the attached bus it was first seen on, cut at the
      size of the table. On a virtual bus, packets for devices whose place is known teach it nothing. */
  lemma {:induction false} DynamicTable(setup: Setup, s: State, events: seq<Event>)
    requires Ok(setup, s) && Placed(events, |s.buses|) && WithinLimit(events)
    requires setup.learns && s.table == [] && forall d :: 0 <= d < |s.devices| ==> s.devices[d] == NO_BUS
    ensures Ran(setup, s, events).buses == s.buses
    ensures Ran(setup, s, events).table
            == Limited(FirstSeen(s.buses, Undirected(setup, s, events)), setup.capacity)
  {
    if events != [] {
      var n := |events| - 1;
      var e := events[n];
      var r := Ran(setup, s, events[..n]);
      DynamicTable(setup, s, events[..n]);
      HandledWithinLimit(setup, r, e);
      if e.Arrived? {
        LastLocated(setup, s, events);
        ArrivalLearned(setup, s, events);
      } else {
        GivenUpUnseen(setup, s, events);
      }
    }
  }

  lemma GivenUpUnseen(setup: Setup, s: State, events: seq<Event>)
    requires events != [] && events[|events| - 1].GivenUp?
    ensures FirstSeen(s.buses, Undirected(setup, s, events))
            == FirstSeen(s.buses, Undirected(setup, s, events[..|events| - 1]))
  {
    var before, e := Undirected(setup, s, events[..|events| - 1]), events[|events| - 1];
    assert (before + [e])[..|before|] == before;
    FirstSeenStep(s.buses, before + [e]);
    hide FirstSeen;
  }

  /** One packet's effect on the table. */
  lemma ArrivalLearned(setup: Setup, s: State, events: seq<Event>)
    requires Ok(setup, s) && Placed(events, |s.buses|) && events != [] && events[|events| - 1].Arrived?
    requires var r := Ran(setup, s, events[..|events| - 1]);
             r.buses == s.buses
             && r.table == Limited(FirstSeen(s.buses, Undirected(setup, s, events[..|events| - 1])), setup.capacity)
    ensures var e, r := events[|events| - 1], Ran(setup, s, events[..|events| - 1]);
            var t := Sighted(setup, r, e.bus, e.info);
            Limited(FirstSeen(s.buses, Undirected(setup, s, events)), setup.capacity)
            == if LastPointed(setup, s, events) then t.table else Learn(setup, t, e.info.tx.busId, e.bus).table
  {
    var n := |events| - 1;
    var e, r := events[n], Ran(setup, s, events[..n]);
    var t := Sighted(setup, r, e.bus, e.info);
    var before := Undirected(setup, s, events[..n]);
    UndirectedPlaced(setup, s, events[..n], |s.buses|);
    UndirectedStep(setup, s, events);
    SightedOk(setup, r, e.bus, e.info);
    hide *;
    FirstSeenAttached(s.buses, before);
    LearnIsFirstSeen(setup, t, FirstSeen(s.buses, before), e.info.tx.busId, e.bus);
    FirstSeenMore(s.buses, before, e);
  }

  lemma UndirectedStep(setup: Setup, s: State, events: seq<Event>)
    requires events != []
    ensures var n := |events| - 1;
            Undirected(setup, s, events)
            == if LastPointed(setup, s, events) then Undirected(setup, s, events[..n])
               else Undirected(setup, s, events[..n]) + [events[n]]
  {
    hide LastPointed;
  }

  lemma SightedOk(setup: Setup, s: State, bus: nat, info: Info)
    requires Ok(setup, s) && bus < |s.buses|
    ensures var t := Sighted(setup, s, bus, info); Ok(setup, t) && t.buses == s.buses && t.table == s.table
  {
  }

  lemma FirstSeenMore(buses: seq<Bus>, before: seq<Event>, e: Event)
    ensures var f := FirstSeen(buses, before);
            FirstSeen(buses, before + [e])
            == if e.Arrived? && Unattached(buses, e.info.tx.busId) && Missing(f, e.info.tx.busId)
               then f + [Route(e.info.tx.busId, e.bus)] else f
  {
    assert (before + [e])[..|before|] == before;
    FirstSeenStep(buses, before + [e]);
    hide FirstSeen;
  }

  /** A packet within the hop limit is copied to every bus the search visits, and to the default
      gateway, except to where it came from. */
  lemma RoutedCopies(setup: Setup, s: State, sender: nat, info: Info, payload: seq<byte>)
    requires Ok(setup, s) && sender < |s.buses| && !Dropped(info)
    ensures var r := Routed(setup, s, sender, info, payload);
            var learned := if setup.learns then Learn(setup, s, info.tx.busId, sender) else s;
            var targets := Targets(Visits(setup, learned, Wanted(info)), sender);
            && Flooded(setup, s.buses, true, s.copies, s.acks, r, targets, sender, info, payload)
            && (forall b :: 0 <= b < |s.buses| && b != sender && s.buses[b].tx.busId == Wanted(info) ==> b in targets)
  {
    var learned := if setup.learns then Learn(setup, s, info.tx.busId, sender) else s;
    assert Ok(setup, learned) && learned.buses == s.buses && learned.copies == s.copies && learned.acks == s.acks;
    var visits := Visits(setup, learned, Wanted(info));
    VisitsAttached(setup, learned, Wanted(info));
    MatchesVisited(setup, learned, Wanted(info));
    TargetsExact(s.buses, visits, sender);
    hide Learn, Visits, Wanted, Dropped, Targets, DeliverTo, Flooded;
    DeliveredWithinLimit(setup, learned, true, visits, sender, info, payload);
  }

  lemma MatchesVisited(setup: Setup, s: State, id: BusId)
    requires Ok(setup, s)
    ensures forall b :: 0 <= b < |s.buses| && s.buses[b].tx.busId == id ==> b in Visits(setup, s, id)
  {
    AttachedVisitsExact(s.buses, id, 0);
    var a := AttachedVisits(s.buses, id, 0);
    if |s.buses| > 0 { assert Visits(setup, s, id) == a + (TableVisits(s.table, id, 0) + [setup.gateway]); }
  }

  /** A packet for a device whose place on the virtual bus is known goes there only, and nowhere if it
      came from there. */
  lemma KnownDevice(setup: Setup, s: State, bus: nat, info: Info, payload: seq<byte>)
    requires Ok(setup, s) && bus < |s.buses| && !Dropped(info)
    requires Located(setup, Sighted(setup, s, bus, info), info.rx) != NO_BUS
    ensures var known := Located(setup, Sighted(setup, s, bus, info), info.rx);
            Received(setup, s, bus, info, payload).copies
            == s.copies + if known == bus then [] else [CopyFor(setup, s.buses, false, known, bus, info, payload)]
  {
    var t := Sighted(setup, s, bus, info);
    assert Ok(setup, t) && t.buses == s.buses && t.copies == s.copies;
    var known := Located(setup, t, info.rx);
    if known != bus { SentWithinLimit(setup, t, false, known, bus, false, info, payload); }
    hide Sighted, CopyFor, SendTo, Dropped, Located;
  }

  /** A packet for a device whose place is not known is flooded to every bus the search visits except
      the one it came from. */
  lemma UnknownDevice(setup: Setup, s: State, bus: nat, info: Info, payload: seq<byte>)
    requires Ok(setup, s) && bus < |s.buses| && !Dropped(info)
    requires Located(setup, Sighted(setup, s, bus, info), info.rx) == NO_BUS
    ensures var t := Sighted(setup, s, bus, info);
            var learned := if setup.learns then Learn(setup, t, info.tx.busId, bus) else t;
            var targets := Targets(Visits(setup, learned, Wanted(info)), bus);
            && Flooded(setup, s.buses, true, s.copies, s.acks, Received(setup, s, bus, info, payload), targets, bus,
                       info, payload)
            && (forall b :: 0 <= b < |s.buses| && b != bus && s.buses[b].tx.busId == Wanted(info) ==> b in targets)
  {
    var t := Sighted(setup, s, bus, info);
    assert Ok(setup, t) && t.buses == s.buses && t.copies == s.copies && t.acks == s.acks;
    RoutedCopies(setup, t, bus, info, payload);
    hide Sighted, Routed, Dropped, Located, Targets, Visits, Learn, Flooded;
  }

  // ---------------------------------------------------------------- over the hop limit

  /** The attached buses a packet that arrived is handed to. */
  function HandedTo(setup: Setup, s: State, bus: nat, info: Info): seq<nat> {
    var t := Sighted(setup, s, bus, info);
    var known := Located(setup, t, info.rx);
    if known == NO_BUS then
      Targets(Visits(setup, if setup.learns then Learn(setup, t, info.tx.busId, bus) else t, Wanted(info)), bus)
    else if known == bus then [] else [known]
  }

  lemma RoutedOverLimit(setup: Setup, s: State, sender: nat, info: Info, payload: seq<byte>)
    requires Ok(setup, s) && sender < |s.buses| && Dropped(info)
    ensures var r := Routed(setup, s, sender, info, payload);
            var learned := if setup.learns then Learn(setup, s, info.tx.busId, sender) else s;
            var targets, tx := Targets(Visits(setup, learned, Wanted(info)), sender), NatOut(s.buses[sender], info).tx;
            && (forall i :: 0 <= i < |targets| ==> targets[i] < |s.buses| && targets[i] != sender)
            && r.copies == s.copies && r.buses == Marked(s.buses, targets, tx)
            && r.acks == s.acks + if AcknowledgesOver(setup, s.buses, true, targets, tx, info) then [sender] else []
  {
    var learned := if setup.learns then Learn(setup, s, info.tx.busId, sender) else s;
    assert Ok(setup, learned) && learned.buses == s.buses && learned.copies == s.copies && learned.acks == s.acks;
    var visits := Visits(setup, learned, Wanted(info));
    VisitsAttached(setup, learned, Wanted(info));
    TargetsExact(s.buses, visits, sender);
    hide Learn, Visits, Wanted, Dropped, Targets, DeliverTo, AcknowledgesOver, NatOut, Marked;
    DeliveredOverLimit(setup, learned, true, visits, sender, info, payload);
  }

  /** A packet over the hop limit goes nowhere. Every attached bus it would have been handed to is left
      with its sender as endpoint, and the sender is acknowledged as if it had been forwarded. */
  lemma ReceivedOverLimit(setup: Setup, s: State, bus: nat, info: Info, payload: seq<byte>)
    requires Ok(setup, s) && bus < |s.buses| && Dropped(info)
    ensures var r := Received(setup, s, bus, info, payload);
            var targets, tx := HandedTo(setup, s, bus, info), NatOut(s.buses[bus], info).tx;
            var unknown := Located(setup, Sighted(setup, s, bus, info), info.rx) == NO_BUS;
            && r.copies == s.copies && LeftWith(s.buses, r.buses, targets, tx)
            && (forall i :: 0 <= i < |targets| ==> targets[i] < |s.buses| && targets[i] != bus)
            && r.acks == s.acks + if AcknowledgesOver(setup, s.buses, unknown, targets, tx, info) then [bus] else []
  {
    var t := Sighted(setup, s, bus, info);
    assert Ok(setup, t) && t.buses == s.buses && t.copies == s.copies && t.acks == s.acks;
    var known := Located(setup, t, info.rx);
    var targets, tx := HandedTo(setup, s, bus, info), NatOut(s.buses[bus], info).tx;
    hide Sighted, Located, Routed, Targets, Visits, Learn, Dropped, NatOut, WantsAck, SendTo, AcknowledgesOver, Wanted;
    if known == NO_BUS {
      RoutedOverLimit(setup, t, bus, info, payload);
      MarkedExact(s.buses, targets, tx);
      hide Marked;
    } else if known != bus {
      assert known < |s.buses| by { LocatedAttached(setup, t, info.rx); }
      SentOverLimit(setup, t, false, known, bus, false, info, payload);
      AlwaysAcknowledged(setup, s.buses, known, tx, info);
    } else {
      NeverAcknowledged(setup, s.buses, true, tx, info);
    }
  }

  lemma LocatedAttached(setup: Setup, s: State, rx: Endpoint)
    requires Ok(setup, s)
    ensures Attached(s.buses, Located(setup, s, rx))
  {
  }

  lemma AlwaysAcknowledged(setup: Setup, buses: seq<Bus>, bus: nat, tx: Endpoint, info: Info)
    requires bus < |buses|
    ensures AcknowledgesOver(setup, buses, false, [bus], tx, info) == WantsAck(info)
  {
    assert OrdinaryAt(setup, buses, false, [bus], tx, 0);
  }

  lemma NeverAcknowledged(setup: Setup, buses: seq<Bus>, unknown: bool, tx: Endpoint, info: Info)
    ensures !AcknowledgesOver(setup, buses, unknown, [], tx, info)
  {
  }

  /** The attached buses keep their endpoints if and only if the packet is within the hop limit, or every
      bus it would be handed to has its sender as endpoint already. */
  lemma EndpointsKept(setup: Setup, s: State, bus: nat, info: Info, payload: seq<byte>)
    requires Ok(setup, s) && bus < |s.buses|
    ensures Received(setup, s, bus, info, payload).buses == s.buses
            <==> !Dropped(info)
                 || forall i :: 0 <= i < |HandedTo(setup, s, bus, info)| ==>
                      var b := HandedTo(setup, s, bus, info)[i];
                      b < |s.buses| && s.buses[b].tx == NatOut(s.buses[bus], info).tx
  {
    var r := Received(setup, s, bus, info, payload);
    if !Dropped(info) {
      HandledWithinLimit(setup, s, Arrived(bus, info, payload));
    } else {
      ReceivedOverLimit(setup, s, bus, info, payload);
      hide Received, HandedTo, NatOut, Dropped, Sighted, Located, AcknowledgesOver;
      SameEndpoints(s.buses, r.buses, HandedTo(setup, s, bus, info), NatOut(s.buses[bus], info).tx);
    }
  }

  lemma SameEndpoints(buses: seq<Bus>, after: seq<Bus>, targets: seq<nat>, tx: Endpoint)
    requires LeftWith(buses, after, targets, tx) && forall i :: 0 <= i < |targets| ==> targets[i] < |buses|
    ensures after == buses <==> forall i :: 0 <= i < |targets| ==> buses[targets[i]].tx == tx
  {
    if after == buses {
      forall i | 0 <= i < |targets| ensures buses[targets[i]].tx == tx {
        assert targets[i] in targets && after[targets[i]] == buses[targets[i]].(tx := tx);
      }
    }
  }
}
