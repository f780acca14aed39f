/** The switch and router classes: attached buses, routing table and device positions as fields changed
    in place. Functions the source overrides along the class hierarchy are resolved here: a switch is
    a router whose table stays empty, a router without a virtual bus has none assigned. */
module RouterClass {
  import opened Words
  import opened Packets
  import opened Routing
  import opened RoutingRuns
  import opened Searching

  const MAX_BUSES: nat := 5

  function Routes(busIds: seq<BusId>, vias: seq<nat>): seq<Route>
    requires |busIds| == |vias|
  {
    seq(|busIds|, i requires 0 <= i < |busIds| => Route(busIds[i], vias[i]))
  }

  /** The packets one pass of the loop receives from the first n of the attached buses; none after a bus
      where the pass stops listening. */
  ghost function Heard(arrivals: nat -> Option<(Info, seq<byte>)>, stops: nat -> bool, n: nat): (events: seq<Event>)
    ensures forall i :: 0 <= i < |events| ==> events[i].bus < n
  {
    if n == 0 then []
    else if StopsBefore(stops, n - 1) then Heard(arrivals, stops, n - 1)
    else
      Heard(arrivals, stops, n - 1) + HeardOn(n - 1, arrivals(n - 1))
  }

  function HeardOn(bus: nat, arrival: Option<(Info, seq<byte>)>): seq<Event> {
    match arrival
    case None => []
    case Some((info, payload)) => [Arrived(bus, info, payload)]
  }

  function Stops(accepts: nat -> bool, maxPackets: nat, count: nat): nat -> bool {
    (i: nat) => maxPackets < count && accepts(i)
  }

  ghost predicate StopsBefore(stops: nat -> bool, n: nat) {
    exists i: nat :: i < n && stops(i)
  }

  /** The packets the queues of the first n buses give up in one pass. */
  function Losses(bus: nat, given: seq<Info>): seq<Event> {
    seq(|given|, i requires 0 <= i < |given| => GivenUp(bus, given[i]))
  }

  function AllLosses(losses: nat -> seq<Info>, n: nat): (events: seq<Event>)
    ensures forall i :: 0 <= i < |events| ==> events[i].bus < n
  {
    if n == 0 then [] else AllLosses(losses, n - 1) + Losses(n - 1, losses(n - 1))
  }

  /** The pass gets to bus b: no bus before it stops it. A bus stops the pass if it accepts a packet while
      the queues are shorter than the number of buses. */
  predicate GetsTo(accepts: nat -> bool, maxPackets: nat, count: nat, b: nat) {
    maxPackets >= count || forall k :: 0 <= k < b ==> !accepts(k)
  }

  /** These are exactly the packets that wait on those of the first n buses the pass gets to, in the order
      of the buses. */
  ghost predicate HeardIs(
    heard: seq<Event>, arrivals: nat -> Option<(Info, seq<byte>)>, accepts: nat -> bool, maxPackets: nat, count: nat,
    n: nat
  ) {
    && (forall i :: 0 <= i < |heard| ==>
          var e := heard[i];
          && e.Arrived? && e.bus < n && GetsTo(accepts, maxPackets, count, e.bus)
          && arrivals(e.bus) == Some((e.info, e.payload)))
    && (forall i, j :: 0 <= i < j < |heard| ==> heard[i].bus < heard[j].bus)
    && (forall b :: 0 <= b < n && GetsTo(accepts, maxPackets, count, b) && arrivals(b).Some? ==>
          Arrived(b, arrivals(b).value.0, arrivals(b).value.1) in heard)
  }

  lemma HeardMore(
    heard: seq<Event>, arrivals: nat -> Option<(Info, seq<byte>)>, accepts: nat -> bool, maxPackets: nat, count: nat,
    n: nat
  )
    requires HeardIs(heard, arrivals, accepts, maxPackets, count, n)
    ensures !GetsTo(accepts, maxPackets, count, n) ==>
              HeardIs(heard, arrivals, accepts, maxPackets, count, n + 1)
    ensures GetsTo(accepts, maxPackets, count, n) ==>
              HeardIs(heard + HeardOn(n, arrivals(n)), arrivals, accepts, maxPackets, count, n + 1)
  {
    hide GetsTo;
    if arrivals(n) == None { assert heard + HeardOn(n, arrivals(n)) == heard; }
  }

  lemma StopsIs(accepts: nat -> bool, maxPackets: nat, count: nat, b: nat)
    ensures StopsBefore(Stops(accepts, maxPackets, count), b) <==> !GetsTo(accepts, maxPackets, count, b)
  {
    if !GetsTo(accepts, maxPackets, count, b) {
      var k :| 0 <= k < b && accepts(k);
      assert Stops(accepts, maxPackets, count)(k);
    }
  }

  lemma HeardStep(
    arrivals: nat -> Option<(Info, seq<byte>)>, accepts: nat -> bool, maxPackets: nat, count: nat, n: nat
  )
    ensures var stops := Stops(accepts, maxPackets, count);
            && HeardIs(Heard(arrivals, stops, 0), arrivals, accepts, maxPackets, count, 0)
            && Heard(arrivals, stops, n + 1)
               == if GetsTo(accepts, maxPackets, count, n) then Heard(arrivals, stops, n) + HeardOn(n, arrivals(n))
                  else Heard(arrivals, stops, n)
  {
    StopsIs(accepts, maxPackets, count, n);
    hide HeardOn, GetsTo, StopsBefore;
  }

  /** What one pass hears. */
  lemma {:induction false} HeardExact(
    arrivals: nat -> Option<(Info, seq<byte>)>, accepts: nat -> bool, maxPackets: nat, count: nat, n: nat
  )
    ensures HeardIs(Heard(arrivals, Stops(accepts, maxPackets, count), n), arrivals, accepts, maxPackets, count, n)
    decreases n
  {
    hide *;
    if n == 0 {
      HeardStep(arrivals, accepts, maxPackets, count, 0);
    } else {
      var m := n - 1;
      HeardExact(arrivals, accepts, maxPackets, count, m);
      HeardStep(arrivals, accepts, maxPackets, count, m);
      HeardMore(Heard(arrivals, Stops(accepts, maxPackets, count), m), arrivals, accepts, maxPackets, count, m);
    }
  }

  /** What is given up on bus b, in order. */
  function GivenOn(events: seq<Event>, b: nat): seq<Info> {
    if events == [] then []
    else
      var e := events[|events| - 1];
      GivenOn(events[..|events| - 1], b) + if e.GivenUp? && e.bus == b then [e.info] else []
  }

  lemma {:induction false} GivenOnConcat(x: seq<Event>, y: seq<Event>, b: nat)
    ensures GivenOn(x + y, b) == GivenOn(x, b) + GivenOn(y, b)
  {
    if y == [] {
      assert x + y == x;
    } else {
      var m := |y| - 1;
      assert (x + y)[..|x + y| - 1] == x + y[..m];
      GivenOnConcat(x, y[..m], b);
    }
  }

  lemma {:induction false} GivenOnLosses(bus: nat, given: seq<Info>, b: nat)
    ensures GivenOn(Losses(bus, given), b) == if b == bus then given else []
  {
    if given != [] {
      var m := |given| - 1;
      GivenOnLosses(bus, given[..m], b);
      assert Losses(bus, given)[..m] == Losses(bus, given[..m]);
      assert given == given[..m] + [given[m]];
    }
  }

  /** Losses in the order of the buses. */
  predicate ByBus(events: seq<Event>) {
    && (forall i :: 0 <= i < |events| ==> events[i].GivenUp?)
    && forall i, j :: 0 <= i < j < |events| ==> events[i].bus <= events[j].bus
  }

  lemma ByBusMore(events: seq<Event>, bus: nat, given: seq<Info>)
    requires ByBus(events) && forall i :: 0 <= i < |events| ==> events[i].bus < bus
    ensures ByBus(events + Losses(bus, given))
  {
  }

  lemma AllLossesStep(losses: nat -> seq<Info>, n: nat, b: nat)
    ensures GivenOn(AllLosses(losses, 0), b) == [] && ByBus(AllLosses(losses, 0))
    ensures AllLosses(losses, n + 1) == AllLosses(losses, n) + Losses(n, losses(n))
  {
    hide Losses;
  }

  /** And it reports exactly what each queue gives up, in order, bus by bus. */
  lemma {:induction false} LossesExact(losses: nat -> seq<Info>, n: nat, b: nat)
    ensures GivenOn(AllLosses(losses, n), b) == (if b < n then losses(b) else []) && ByBus(AllLosses(losses, n))
    decreases n
  {
    hide *;
    if n == 0 {
      AllLossesStep(losses, 0, b);
    } else {
      var m := n - 1;
      LossesExact(losses, m, b);
      AllLossesStep(losses, m, b);
      GivenOnConcat(AllLosses(losses, m), Losses(m, losses(m)), b);
      GivenOnLosses(m, losses(m), b);
      ByBusMore(AllLosses(losses, m), m, losses(m));
    }
  }

  lemma RanGivenUp(setup: Setup, s: State, events: seq<Event>, bus: nat, info: Info)
    requires Ok(setup, s) && Placed(events, |s.buses|) && bus < |s.buses|
    ensures Placed(events + [GivenUp(bus, info)], |s.buses|)
    ensures Ran(setup, s, events + [GivenUp(bus, info)]) == Forgotten(setup, Ran(setup, s, events), bus, info)
  {
    var more := events + [GivenUp(bus, info)];
    assert more[..|events|] == events;
    hide Forgotten;
  }

  lemma RanNothing(setup: Setup, s: State)
    requires Ok(setup, s)
    ensures Ran(setup, s, []) == s
  {
  }

  lemma {:induction false} HeardNoMore(
    arrivals: nat -> Option<(Info, seq<byte>)>, stops: nat -> bool, m: nat, n: nat
  )
    requires m <= n && StopsBefore(stops, m)
    ensures Heard(arrivals, stops, n) == Heard(arrivals, stops, m)
    decreases n
  {
    if m < n { HeardNoMore(arrivals, stops, m, n - 1); }
  }

  /** A lookup by its cases: an attached bus, an entry that leads somewhere, or the end of the search. */
  lemma FindIs(s: State, id: BusId, start: nat)
    requires |s.buses| < NO_BUS && start <= NO_BUS
    ensures var attached, f := AttachedVisits(s.buses, id, start), Find(s, id, start);
            var entries := Matching(s.table, id, if start < |s.buses| then 0 else start - |s.buses|);
            && (attached != [] ==>
                  start <= attached[0] < |s.buses| && f == Lookup(attached[0], attached[0] + 1))
            && (attached == [] ==>
                  f == if start == NO_BUS || entries == [] || entries[0] >= |s.table|
                          || s.table[entries[0]].via == NO_BUS
                       then Lookup(NO_BUS, NO_BUS)
                       else Lookup(s.table[entries[0]].via, (|s.buses| + entries[0] + 1) % 256))
    ensures start >= |s.buses| ==> AttachedVisits(s.buses, id, start) == []
  {
    AttachedVisitsExact(s.buses, id, start);
    assert start >= |s.buses| ==> AttachedVisits(s.buses, id, start) == [];
    hide AttachedVisits, Matching;
  }

  // ---------------------------------------------------------------- the delivery loop, step by step

  /** Delivering to one bus more. */
  lemma DeliverMore(
    setup: Setup, s: State, unknown: bool, visits: seq<nat>, bus: nat, sender: nat, info: Info, payload: seq<byte>
  )
    requires sender < |s.buses| && Attached(s.buses, bus)
    requires forall i :: 0 <= i < |visits| ==> Attached(s.buses, visits[i])
    ensures forall i :: 0 <= i < |visits + [bus]| ==> Attached(s.buses, (visits + [bus])[i])
    ensures var (t, ackSent) := DeliverTo(setup, s, unknown, visits, sender, info, payload);
            DeliverTo(setup, s, unknown, visits + [bus], sender, info, payload)
            == if bus != NO_BUS && bus != sender then SendTo(setup, t, unknown, bus, sender, ackSent, info, payload)
               else (t, ackSent)
  {
    assert (visits + [bus])[..|visits|] == visits;
    hide SendTo;
  }

  /** The buses still to be searched are as they were. */
  predicate TailKept(before: seq<Bus>, after: seq<Bus>, start: nat) {
    |before| == |after| && forall b :: start <= b < |before| ==> after[b] == before[b]
  }

  predicate OnlyAt(before: seq<Bus>, after: seq<Bus>, at: nat) {
    |before| == |after| && forall b :: 0 <= b < |before| && b != at ==> after[b] == before[b]
  }

  lemma TailStays(before: seq<Bus>, mid: seq<Bus>, after: seq<Bus>, start: nat, next: nat, at: nat)
    requires TailKept(before, mid, start) && OnlyAt(mid, after, at) && start <= next && (next < |before| ==> at < next)
    ensures TailKept(before, after, next)
  {
  }

  lemma {:induction false} AttachedVisitsKept(before: seq<Bus>, after: seq<Bus>, id: BusId, start: nat)
    requires TailKept(before, after, start)
    ensures AttachedVisits(after, id, start) == AttachedVisits(before, id, start)
    decreases |before| - start
  {
    if start < |before| { AttachedVisitsKept(before, after, id, start + 1); }
  }

  lemma WantedIs(info: Info)
    ensures Wanted(info) == if Shared(info.header) then info.rx.busId else LOCALHOST
  {
  }

  /** One lookup of a delivery loop that makes all its visits. */
  lemma SearchStep(setup: Setup, s: State, id: BusId, visited: seq<nat>, start: nat)
    requires Fitting(setup, s) && Complete(s, id) && Open(s, id, start)
    requires start <= |s.buses| + |s.table| && start < NO_BUS
    requires Remaining(s, id, 0) == visited + Remaining(s, id, start)
    ensures var f := Find(s, id, start);
            if f.found == NO_BUS then f.next == NO_BUS && visited + [setup.gateway] == Visits(setup, s, id)
            else
              && start < f.next <= |s.buses| + |s.table| && f.next < NO_BUS && Open(s, id, f.next)
              && (f.next < |s.buses| ==> f.found < f.next) && f.found < |s.buses|
              && Remaining(s, id, 0) == (visited + [f.found]) + Remaining(s, id, f.next)
  {
    LookupSplits(s, id, start);
    FoundAttached(setup, s, id, start);
    FoundBefore(s, id, start);
    var wide := FindWide(s, id, start);
    if wide.found != NO_BUS {
      LookupReaches(s, id, start);
      assert Remaining(s, id, start)[0] == wide.found;
      Reassociate(visited, [wide.found], Remaining(s, id, wide.next));
    }
    hide FindWide, Remaining, Open, Reached;
    assert visited + [] == visited;
  }

  lemma FoundBefore(s: State, id: BusId, start: nat)
    ensures var f := FindWide(s, id, start); f.found != NO_BUS && f.next < |s.buses| ==> f.found < f.next
  {
    hide AttachedVisits, Matching;
  }

  lemma FoundInside(setup: Setup, s: State, id: BusId, start: nat)
    requires Fitting(setup, s)
    ensures Attached(s.buses, Find(s, id, start).found)
  {
    LookupSplits(s, id, start);
    FoundAttached(setup, s, id, start);
    var wide := FindWide(s, id, start);
    hide FindWide, Remaining;
    if wide.found != NO_BUS { assert Remaining(s, id, start)[0] == wide.found; }
  }

  lemma FindKept(s: State, t: State, id: BusId, start: nat)
    requires TailKept(s.buses, t.buses, start) && s.table == t.table
    ensures Find(t, id, start) == Find(s, id, start)
  {
    AttachedVisitsKept(s.buses, t.buses, id, start);
    hide AttachedVisits, Matching;
  }

  class Router {
    const buses: array<Bus>
    const remoteBusIds: array<BusId>
    const remoteVia: array<nat>
    const deviceVia: array<nat>
    const defaultGateway: nat
    const virtualBus: nat
    const learns: bool
    var tableSize: nat
    var currentBus: nat
    var unknownDeviceLocation: bool
    var copies: seq<Copy>
    var acks: seq<nat>

    function Setup(): Routing.Setup {
      Routing.Setup(defaultGateway, remoteBusIds.Length, virtualBus, learns)
    }

    function State(): Routing.State
      requires tableSize <= remoteBusIds.Length == remoteVia.Length
      reads this`tableSize, this`copies, this`acks, buses, remoteBusIds, remoteVia, deviceVia
    {
      Routing.State(buses[..], Routes(remoteBusIds[..tableSize], remoteVia[..tableSize]), deviceVia[..], copies, acks)
    }

    /** The positions of the search stay below 255 whatever is in the table. */
    predicate Roomy() {
      buses.Length + remoteBusIds.Length < NO_BUS
    }

    ghost predicate Valid()
      reads this`tableSize, this`copies, this`acks, buses, remoteBusIds, remoteVia, deviceVia
    {
      && tableSize <= remoteBusIds.Length == remoteVia.Length
      && remoteVia != deviceVia
      && Fitting(Setup(), State())
    }

    /** Connects to the buses given, as many as there is room for. */
    constructor (busesIn: seq<Bus>, gateway: nat, capacity: nat, maxDevices: nat, virtualBusIn: nat, learnsIn: bool)
      requires Attached(busesIn[..if |busesIn| > MAX_BUSES then MAX_BUSES else |busesIn|], gateway)
      requires capacity <= 255
      ensures Valid() && currentBus == NO_BUS && !unknownDeviceLocation
      ensures Setup() == Routing.Setup(gateway, capacity, virtualBusIn, learnsIn)
      ensures var s := State();
              && s.buses == busesIn[..if |busesIn| > MAX_BUSES then MAX_BUSES else |busesIn|]
              && s.table == [] && s.copies == [] && s.acks == []
              && s.devices == seq(maxDevices, i => NO_BUS)
    {
      var busCount := if |busesIn| > MAX_BUSES then MAX_BUSES else |busesIn|;
      buses := new Bus[busCount](i requires 0 <= i < busCount => busesIn[i]);
      remoteBusIds := new BusId[capacity];
      remoteVia := new nat[capacity];
      deviceVia := new nat[maxDevices](i => NO_BUS);
      defaultGateway, virtualBus, learns := gateway, virtualBusIn, learnsIn;
      tableSize, currentBus, unknownDeviceLocation := 0, NO_BUS, false;
      copies, acks := [], [];
    }

    // -------------------------------------------------------------- searching

    /** The next attached bus with this id, and where to resume. */
    method FindAttachedBusWithId(busId: BusId, startBus: nat) returns (found: nat, next: nat)
      requires Valid()
      ensures var attached := AttachedVisits(buses[..], busId, startBus);
              if attached == [] then found == NO_BUS && next == NO_BUS
              else found == attached[0] && startBus <= found < buses.Length && next == found + 1
    {
      var i := startBus;
      while i < buses.Length
        invariant AttachedVisits(buses[..], busId, startBus) == AttachedVisits(buses[..], busId, i)
        invariant startBus <= i
      {
        if busId == buses[i].tx.busId { return i, i + 1; }
        i := i + 1;
      }
      return NO_BUS, NO_BUS;
    }

    /** The attached bus the next table entry with this id leads to, and where to resume. */
    method FindBusInTable(busId: BusId, startBus: nat) returns (found: nat, next: nat)
      requires Valid() && buses.Length <= startBus
      ensures var entries := Matching(State().table, busId, startBus - buses.Length);
              if entries == [] then found == NO_BUS && next == NO_BUS
              else
                && startBus - buses.Length <= entries[0] < tableSize
                && found == State().table[entries[0]].via
                && next == (buses.Length + entries[0] + 1) % 256
    {
      var start := startBus - buses.Length;
      var i := start;
      while i < tableSize
        invariant start <= i
        invariant Matching(State().table, busId, start) == Matching(State().table, busId, i)
      {
        assert State().table[i] == Routing.Route(remoteBusIds[i], remoteVia[i]);
        if busId == remoteBusIds[i] { return remoteVia[i], (buses.Length + i + 1) % 256; }
        i := i + 1;
      }
      return NO_BUS, NO_BUS;
    }

    /** One lookup, attached buses first, then the table; where nothing is found the search is over. */
    method FindBusWithId(busId: BusId, startBus: nat) returns (found: nat, next: nat)
      requires Valid() && startBus <= NO_BUS
      ensures Lookup(found, next) == Find(State(), busId, startBus)
    {
      found, next := NO_BUS, startBus;
      FindIs(State(), busId, startBus);
      hide AttachedVisits, Matching, Find;
      if startBus < buses.Length {
        found, next := FindAttachedBusWithId(busId, startBus);
        if found == NO_BUS { next := buses.Length; }
      }
      if found == NO_BUS && next >= buses.Length && next != NO_BUS {
        found, next := FindBusInTable(busId, next);
      }
      if found == NO_BUS { next := NO_BUS; }
    }

    // -------------------------------------------------------------- sending

    /** forward, on an attached bus; what it queues is logged. */
    method Forward(bus: nat, info: Info, payload: seq<byte>)
      requires Valid() && bus < buses.Length
      modifies buses, this`copies
      ensures Valid()
      ensures var s := old(State());
              State() == if Dropped(info) then s.(buses := s.buses[bus := s.buses[bus].(tx := info.tx)])
                         else s.(copies := s.copies + [Copy(bus, Hopped(info), payload)])
    {
      var original := buses[bus].tx;
      buses[bus] := buses[bus].(tx := info.tx);
      var forwarded := info.(hops := info.hops + 1);
      if forwarded.hops > MAX_HOPS { return; }
      copies := copies + [Copy(bus, forwarded, payload)];
      buses[bus] := buses[bus].(tx := original);
      assert buses[..] == old(buses[..]);
    }

    /** Network address translation between local and shared buses. */
    method Translate(receiverBus: nat, senderBus: nat, info: Info) returns (p: Info)
      requires Valid() && receiverBus < buses.Length && senderBus < buses.Length
      ensures p == Translated(buses[senderBus], buses[receiverBus], info)
    {
      hide Shared;
      p := info;
      if Shared(info.header) && !Shared(buses[senderBus].config) && buses[senderBus].tx.busId != LOCALHOST
         && info.tx.busId == LOCALHOST
      {
        p := p.(tx := p.tx.(busId := buses[senderBus].tx.busId));
      }
      if Shared(info.header) && !Shared(buses[receiverBus].config) && buses[receiverBus].tx.busId != LOCALHOST
         && info.rx.busId == buses[receiverBus].tx.busId
      {
        p := p.(rx := p.rx.(busId := LOCALHOST));
      }
    }

    /** Translates addresses between local and shared buses and forwards, after one acknowledgement to
        the sender if it asked for it and has not had it. */
    method SendAcknowledged(payload: seq<byte>, receiverBus: nat, senderBus: nat, ackSentBefore: bool, info: Info)
      returns (ackSent: bool)
      requires Valid() && receiverBus < buses.Length && senderBus < buses.Length
      modifies this`currentBus, this`copies, this`acks, buses
      ensures Valid() && currentBus == old(currentBus)
      ensures forall b :: 0 <= b < buses.Length && b != receiverBus ==> buses[b] == old(buses[b])
      ensures var s := old(State());
              var acknowledged := if !ackSentBefore && WantsAck(info) then s.(acks := s.acks + [senderBus]) else s;
              State() == Transfer(acknowledged, receiverBus, senderBus, info, payload)
      ensures ackSent == (ackSentBefore || WantsAck(info))
    {
      hide AckRequested, Dropped, Hopped, Translated;
      ackSent := ackSentBefore;
      if !ackSent && AckRequested(info.header) && info.rx.id != BROADCAST {
        acks := acks + [senderBus];
        ackSent := true;
      }
      var sendBus := currentBus;
      currentBus := receiverBus;
      var p := Translate(receiverBus, senderBus, info);
      Forward(receiverBus, p, payload);
      currentBus := sendBus;
    }

    method IsVirtualBus(busId: BusId) returns (virtual: bool)
      requires Valid()
      ensures virtual == OnVirtualBus(Setup(), State().buses, busId)
    {
      virtual := virtualBus < buses.Length && buses[virtualBus].tx.busId == busId;
    }

    /** The acknowledgement is neither sent nor asked for where the receiver's place is not known. */
    method SendPacket(payload: seq<byte>, receiverBus: nat, senderBus: nat, ackSentBefore: bool, info: Info)
      returns (ackSent: bool)
      requires Valid() && receiverBus < buses.Length && senderBus < buses.Length
      modifies this`currentBus, this`copies, this`acks, buses
      ensures Valid() && currentBus == old(currentBus)
      ensures forall b :: 0 <= b < buses.Length && b != receiverBus ==> buses[b] == old(buses[b])
      ensures (State(), ackSent)
              == SendTo(Setup(), old(State()), unknownDeviceLocation, receiverBus, senderBus, ackSentBefore, info,
                        payload)
    {
      hide Transfer, WantsAck, DropAck;
      ackSent := ackSentBefore;
      var virtual := IsVirtualBus(buses[receiverBus].tx.busId);
      if unknownDeviceLocation && virtual {
        var unused := SendAcknowledged(payload, receiverBus, senderBus, true, info.(header := DropAck(info.header)));
      } else {
        ackSent := SendAcknowledged(payload, receiverBus, senderBus, ackSent, info);
      }
    }

    method ForwardPacket(payload: seq<byte>, receiverBus: nat, senderBus: nat, ackSentBefore: bool, info: Info)
      returns (ackSent: bool)
      requires Valid() && Attached(buses[..], receiverBus) && senderBus < buses.Length
      modifies this`currentBus, this`copies, this`acks, buses
      ensures Valid() && currentBus == old(currentBus)
      ensures forall b :: 0 <= b < buses.Length && b != receiverBus ==> buses[b] == old(buses[b])
      ensures (State(), ackSent)
              == if receiverBus != NO_BUS && receiverBus != senderBus then
                   SendTo(Setup(), old(State()), unknownDeviceLocation, receiverBus, senderBus, ackSentBefore, info,
                          payload)
                 else (old(State()), ackSentBefore)
    {
      hide SendTo;
      ackSent := ackSentBefore;
      if receiverBus != NO_BUS && receiverBus != senderBus {
        ackSent := SendPacket(payload, receiverBus, senderBus, ackSent, info);
      }
    }

    // -------------------------------------------------------------- delivering

    /** One round of the delivery loop: the next match, or the default gateway if there is none, is
        forwarded to. */
    method DeliverNext(payload: seq<byte>, info: Info, startSearch: nat, ackSentBefore: bool)
      returns (receiverBus: nat, next: nat, ackSent: bool)
      requires Valid() && currentBus < buses.Length && startSearch <= NO_BUS
      modifies this`currentBus, this`copies, this`acks, buses
      ensures Valid() && currentBus == old(currentBus)
      ensures var s := old(State());
              var f := Find(s, Wanted(info), startSearch);
              && next == f.next && receiverBus == (if f.found == NO_BUS then defaultGateway else f.found)
              && Attached(buses[..], receiverBus)
              && (State(), ackSent)
                 == if receiverBus != NO_BUS && receiverBus != currentBus then
                      SendTo(Setup(), s, unknownDeviceLocation, receiverBus, currentBus, ackSentBefore, info, payload)
                    else (s, ackSentBefore)
      ensures OnlyAt(old(buses[..]), buses[..], receiverBus)
    {
      WantedIs(info);
      FoundInside(Setup(), State(), Wanted(info), startSearch);
      hide SendTo, Find, Shared, Wanted;
      receiverBus, next := FindBusWithId(if Shared(info.header) then info.rx.busId else LOCALHOST, startSearch);
      if receiverBus == NO_BUS { receiverBus := defaultGateway; }
      ackSent := ForwardPacket(payload, receiverBus, currentBus, ackSentBefore, info);
    }

    /** Where the position stays below 255, the delivery loop ends, and hands the packet to each bus the
        search finds and then to the default gateway, leaving out the bus it came from. Elsewhere it does
        not; see LoopCompletes. */
    method Deliver(payload: seq<byte>, info: Info)
      requires Valid() && currentBus < buses.Length && Complete(State(), Wanted(info))
      modifies this`currentBus, this`copies, this`acks, buses
      ensures Valid() && currentBus == old(currentBus)
      ensures var s := old(State());
              var visits := Visits(Setup(), s, Wanted(info));
              && (forall i :: 0 <= i < |visits| ==> Attached(s.buses, visits[i]))
              && State() == DeliverTo(Setup(), s, unknownDeviceLocation, visits, currentBus, info, payload).0
    {
      ghost var s, id := State(), Wanted(info);
      VisitsAttached(Setup(), s, id);
      assert Open(s, id, 0);
      assert [] + Remaining(s, id, 0) == Remaining(s, id, 0);
      assert TailKept(s.buses, s.buses, 0);
      assert DeliverTo(Setup(), s, unknownDeviceLocation, [], currentBus, info, payload) == (s, false);
      hide SendTo, Remaining, Wanted, Find, Open, Complete, TailKept, OnlyAt, Visits, DeliverTo;
      var startSearch, ackSent := 0, false;
      ghost var visited: seq<nat> := [];
      while startSearch != NO_BUS
        invariant Valid() && currentBus == old(currentBus)
        invariant |State().buses| == |s.buses| && State().table == s.table
        invariant if startSearch != NO_BUS then
                    && startSearch <= buses.Length + tableSize && startSearch < NO_BUS && Open(s, id, startSearch)
                    && TailKept(s.buses, State().buses, startSearch)
                    && Remaining(s, id, 0) == visited + Remaining(s, id, startSearch)
                  else visited == Visits(Setup(), s, id)
        invariant forall i :: 0 <= i < |visited| ==> Attached(s.buses, visited[i])
        invariant (State(), ackSent)
                  == DeliverTo(Setup(), s, unknownDeviceLocation, visited, currentBus, info, payload)
        decreases startSearch != NO_BUS, buses.Length + tableSize - startSearch
      {
        ghost var start, t := startSearch, State();
        FindKept(s, t, id, startSearch);
        SearchStep(Setup(), s, id, visited, startSearch);
        var receiverBus;
        receiverBus, startSearch, ackSent := DeliverNext(payload, info, startSearch, ackSent);
        if startSearch != NO_BUS { TailStays(s.buses, t.buses, State().buses, start, startSearch, receiverBus); }
        DeliverMore(Setup(), s, unknownDeviceLocation, visited, receiverBus, currentBus, info, payload);
        visited := visited + [receiverBus];
      }
    }

    // -------------------------------------------------------------- the routing table

    method Add(busId: BusId, viaAttachedBus: nat)
      requires Valid() && Attached(buses[..], viaAttachedBus)
      modifies this`tableSize, remoteBusIds, remoteVia
      ensures Valid()
      ensures var s := old(State());
              State() == if |s.table| == Setup().capacity then s
                         else s.(table := s.table + [Route(busId, viaAttachedBus)])
    {
      if tableSize < remoteBusIds.Length {
        remoteBusIds[tableSize] := busId;
        remoteVia[tableSize] := viaAttachedBus;
        tableSize := tableSize + 1;
        assert State().table == old(State().table) + [Route(busId, viaAttachedBus)];
      }
    }

    method AddSenderToRoutingTable(info: Info, senderBus: nat)
      requires Valid() && senderBus < buses.Length
      modifies this`tableSize, remoteBusIds, remoteVia
      ensures Valid() && State() == Learn(Setup(), old(State()), info.tx.busId, senderBus)
    {
      LookupSplits(State(), info.tx.busId, 0);
      hide Remaining, FindWide;
      var found, next := FindBusWithId(info.tx.busId, 0);
      if found == NO_BUS { Add(info.tx.busId, senderBus); }
    }

    /** The receiver function below the virtual bus: a dynamic router learns before it delivers. */
    method RoutePacket(payload: seq<byte>, info: Info)
      requires Valid() && Roomy() && currentBus < buses.Length && unknownDeviceLocation
      modifies this`tableSize, remoteBusIds, remoteVia, this`currentBus, this`copies, this`acks, buses
      ensures Valid() && currentBus == old(currentBus)
      ensures State() == Routed(Setup(), old(State()), currentBus, info, payload)
    {
      hide Learn, DeliverTo, Visits;
      if learns { AddSenderToRoutingTable(info, currentBus); }
      RoomyIsComplete(State(), Wanted(info));
      Deliver(payload, info);
    }

    // -------------------------------------------------------------- the virtual bus

    method FindVbusWithDevice(busId: BusId, deviceId: byte) returns (bus: nat)
      requires Valid()
      ensures bus == if OnVirtualBus(Setup(), State().buses, busId) && ByteToInt(deviceId) < |State().devices|
                     then State().devices[ByteToInt(deviceId)] else NO_BUS
    {
      var virtual := IsVirtualBus(busId);
      if !virtual || ByteToInt(deviceId) >= deviceVia.Length { return NO_BUS; }
      return deviceVia[ByteToInt(deviceId)];
    }

    method RegisterDeviceOnVbus(deviceId: byte, attachedBus: nat)
      requires Valid() && Attached(buses[..], attachedBus)
      modifies deviceVia
      ensures Valid() && State() == Register(old(State()), deviceId, attachedBus)
    {
      if ByteToInt(deviceId) < deviceVia.Length { deviceVia[ByteToInt(deviceId)] := attachedBus; }
    }

    /** The receiver callback: `info` and `payload` arrived from the current bus. */
    method ReceiverFunction(payload: seq<byte>, info: Info)
      requires Valid() && Roomy() && currentBus < buses.Length && !unknownDeviceLocation
      modifies this`tableSize, this`currentBus, this`unknownDeviceLocation, this`copies, this`acks
      modifies buses, remoteBusIds, remoteVia, deviceVia
      ensures Valid() && currentBus == old(currentBus) && !unknownDeviceLocation
      ensures State() == Received(Setup(), old(State()), currentBus, info, payload)
    {
      hide SendTo, Routed, Register;
      var virtual := IsVirtualBus(info.tx.busId);
      if virtual { RegisterDeviceOnVbus(info.tx.id, currentBus); }
      var receiverBus := FindVbusWithDevice(info.rx.busId, info.rx.id);
      if receiverBus != NO_BUS {
        if receiverBus != currentBus {
          var ackSent := ForwardPacket(payload, receiverBus, currentBus, false, info);
        }
      } else {
        unknownDeviceLocation := true;
        RoutePacket(payload, info);
        unknownDeviceLocation := false;
      }
    }

    /** The error callback when the queue of the current bus gave a packet up; `info` is that packet's. */
    method HandleSendError(info: Info)
      requires Valid() && currentBus < buses.Length
      modifies deviceVia
      ensures Valid() && State() == Forgotten(Setup(), old(State()), currentBus, info)
    {
      var virtual := IsVirtualBus(buses[currentBus].tx.busId);
      if virtual {
        var receiverVirtual := IsVirtualBus(info.rx.busId);
        if ByteToInt(info.rx.id) < deviceVia.Length && receiverVirtual {
          if deviceVia[ByteToInt(info.rx.id)] == currentBus { RegisterDeviceOnVbus(info.rx.id, NO_BUS); }
        }
      }
    }

    // -------------------------------------------------------------- the loop

    /** receive, on the current bus; a packet accepted goes to the receiver callback. */
    method ReceiveBus(arrival: Option<(Info, seq<byte>)>, ghost events: seq<Event>, ghost s: Routing.State)
      requires Valid() && Roomy() && currentBus < buses.Length && !unknownDeviceLocation && Ok(Setup(), s)
      requires Placed(events, |s.buses|) && State() == Ran(Setup(), s, events)
      modifies this`tableSize, this`currentBus, this`unknownDeviceLocation, this`copies, this`acks
      modifies buses, remoteBusIds, remoteVia, deviceVia
      ensures Valid() && currentBus == old(currentBus) && !unknownDeviceLocation
      ensures Placed(events + HeardOn(currentBus, arrival), |s.buses|)
      ensures State() == Ran(Setup(), s, events + HeardOn(currentBus, arrival))
    {
      hide Received;
      match arrival {
        case None =>
          assert events + [] == events;
        case Some((info, payload)) =>
          ghost var more := events + [Arrived(currentBus, info, payload)];
          assert more[..|events|] == events;
          ReceiverFunction(payload, info);
      }
    }

    /** Listens to each attached bus in turn, until one stops the pass. */
    method ReceiveAll(arrivals: nat -> Option<(Info, seq<byte>)>, stops: nat -> bool)
      requires Valid() && Roomy() && !unknownDeviceLocation
      modifies this`tableSize, this`currentBus, this`unknownDeviceLocation, this`copies, this`acks
      modifies buses, remoteBusIds, remoteVia, deviceVia
      ensures Valid() && !unknownDeviceLocation
      ensures State() == Ran(Setup(), old(State()), Heard(arrivals, stops, buses.Length))
    {
      hide Ran, HeardOn, Fitting;
      ghost var s := State();
      ghost var events := [];
      RanNothing(Setup(), s);
      currentBus := 0;
      while currentBus < buses.Length
        invariant Valid() && !unknownDeviceLocation && currentBus <= buses.Length
        invariant !StopsBefore(stops, currentBus) && events == Heard(arrivals, stops, currentBus)
        invariant Placed(events, |s.buses|) && State() == Ran(Setup(), s, events)
        decreases buses.Length - currentBus
      {
        ReceiveBus(arrivals(currentBus), events, s);
        events := events + HeardOn(currentBus, arrivals(currentBus));
        assert events == Heard(arrivals, stops, currentBus + 1);
        if stops(currentBus) {
          HeardNoMore(arrivals, stops, currentBus + 1, buses.Length);
          return;
        }
        currentBus := currentBus + 1;
      }
    }

    /** Reports what the queue of the current bus gives up in one update. */
    method UpdateBus(given: seq<Info>, ghost events: seq<Event>, ghost s: Routing.State)
      requires Valid() && currentBus < buses.Length && Ok(Setup(), s)
      requires Placed(events, |s.buses|) && State() == Ran(Setup(), s, events)
      modifies deviceVia
      ensures Valid() && Placed(events + Losses(currentBus, given), |s.buses|)
      ensures State() == Ran(Setup(), s, events + Losses(currentBus, given))
    {
      hide Ran, Forgotten, Fitting, Ok, Placed;
      ghost var more := events;
      assert events + Losses(currentBus, given)[..0] == events;
      for i := 0 to |given|
        invariant Valid() && more == events + Losses(currentBus, given)[..i]
        invariant Placed(more, |s.buses|) && State() == Ran(Setup(), s, more)
      {
        ghost var next := more + [GivenUp(currentBus, given[i])];
        RanGivenUp(Setup(), s, more, currentBus, given[i]);
        assert next == events + Losses(currentBus, given)[..i + 1];
        HandleSendError(given[i]);
        more := next;
      }
      assert Losses(currentBus, given)[..|given|] == Losses(currentBus, given);
    }

    /** Updates the queue of each attached bus. */
    method UpdateAll(losses: nat -> seq<Info>, ghost events: seq<Event>, ghost s: Routing.State)
      requires Valid() && Ok(Setup(), s)
      requires Placed(events, |s.buses|) && State() == Ran(Setup(), s, events)
      modifies this`currentBus, deviceVia
      ensures Valid() && Placed(events + AllLosses(losses, buses.Length), |s.buses|)
      ensures State() == Ran(Setup(), s, events + AllLosses(losses, buses.Length))
    {
      hide Ran, Losses, Fitting;
      currentBus := 0;
      ghost var more := events;
      assert events + AllLosses(losses, 0) == events;
      while currentBus < buses.Length
        invariant Valid() && currentBus <= buses.Length && more == events + AllLosses(losses, currentBus)
        invariant Placed(more, |s.buses|) && State() == Ran(Setup(), s, more)
        decreases buses.Length - currentBus
      {
        UpdateBus(losses(currentBus), more, s);
        more := more + Losses(currentBus, losses(currentBus));
        assert more == events + AllLosses(losses, currentBus + 1);
        currentBus := currentBus + 1;
      }
    }

    /** One pass over the attached buses: each is listened to in turn, until one that accepts a packet
        stops the pass because the queues are short; then the queue of each is updated. */
    method Loop(
      arrivals: nat -> Option<(Info, seq<byte>)>, accepts: nat -> bool, losses: nat -> seq<Info>, maxPackets: nat
    )
      requires Valid() && Roomy() && !unknownDeviceLocation
      modifies this`tableSize, this`currentBus, this`unknownDeviceLocation, this`copies, this`acks
      modifies buses, remoteBusIds, remoteVia, deviceVia
      ensures Valid() && currentBus == NO_BUS && !unknownDeviceLocation
      ensures var count := buses.Length;
              State() == Ran(Setup(), old(State()),
                             Heard(arrivals, Stops(accepts, maxPackets, count), count) + AllLosses(losses, count))
    {
      hide Ran, Heard, AllLosses;
      ghost var s := State();
      var stops := Stops(accepts, maxPackets, buses.Length);
      ReceiveAll(arrivals, stops);
      UpdateAll(losses, Heard(arrivals, stops, buses.Length), s);
      currentBus := NO_BUS;
    }
  }
}
