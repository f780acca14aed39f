/** The switches and routers of PJON as plain values: where a packet goes, what is sent there, and what
    is learned from it. One state describes the whole family: a switch is a router with an empty
    table, and a router without a virtual bus is one whose virtual bus is not assigned. */
module Routing {
  import opened Words
  import opened Packets

  /** PJON_NOT_ASSIGNED as the position of an attached bus. */
  const NO_BUS: nat := 255

  datatype Bus = Bus(tx: Endpoint, config: byte)

  /** An entry of the routing table: a remote bus and the attached bus it is behind. */
  datatype Route = Route(busId: BusId, via: nat)

  /** A packet handed to an attached bus to be queued. */
  datatype Copy = Copy(bus: nat, info: Info, payload: seq<byte>)

  datatype Setup = Setup(gateway: nat, capacity: nat, virtualBus: nat, learns: bool)

  /** `copies` and `acks` log the packets forwarded and the buses an acknowledgement was sent to. */
  datatype State = State(
    buses: seq<Bus>, table: seq<Route>, devices: seq<nat>, copies: seq<Copy>, acks: seq<nat>)

  predicate Attached(buses: seq<Bus>, bus: nat) {
    bus < |buses| || bus == NO_BUS
  }

  /** What the types of the fields demand. */
  predicate Fitting(setup: Setup, s: State) {
    && |s.buses| < NO_BUS && |s.table| <= setup.capacity <= 255
    && Attached(s.buses, setup.gateway)
    && (forall i :: 0 <= i < |s.table| ==> Attached(s.buses, s.table[i].via))
    && (forall i :: 0 <= i < |s.devices| ==> Attached(s.buses, s.devices[i]))
  }

  /** Besides, the positions of the search stay below 255 whatever the table will hold. */
  predicate Ok(setup: Setup, s: State) {
    Fitting(setup, s) && |s.buses| + setup.capacity < NO_BUS
  }

  // ---------------------------------------------------------------- where a packet goes

  /** Attached buses with this id, from position k on. */
  function AttachedVisits(buses: seq<Bus>, id: BusId, k: nat): seq<nat>
    decreases |buses| - k
  {
    if k >= |buses| then []
    else if buses[k].tx.busId == id then [k] + AttachedVisits(buses, id, k + 1)
    else AttachedVisits(buses, id, k + 1)
  }

  /** The attached buses that table entries with this id lead to, from entry k on, up to the first that
      leads nowhere. */
  function TableVisits(table: seq<Route>, id: BusId, k: nat): seq<nat>
    decreases |table| - k
  {
    if k >= |table| then []
    else if table[k].busId != id then TableVisits(table, id, k + 1)
    else if table[k].via == NO_BUS then []
    else [table[k].via] + TableVisits(table, id, k + 1)
  }

  /** What a search resumed at `start` has yet to find. Positions run over the attached buses and then
      over the table. */
  function Remaining(s: State, id: BusId, start: nat): seq<nat> {
    if start < |s.buses| then AttachedVisits(s.buses, id, start) + TableVisits(s.table, id, 0)
    else TableVisits(s.table, id, start - |s.buses|)
  }

  /** Positions of the table entries with this id, from k on. */
  function Matching(table: seq<Route>, id: BusId, k: nat): seq<nat>
    decreases |table| - k
  {
    if k >= |table| then []
    else if table[k].busId == id then [k] + Matching(table, id, k + 1)
    else Matching(table, id, k + 1)
  }

  /** What one lookup returns: the bus found, and the position to resume at, which is NO_BUS where the
      search ends. */
  datatype Lookup = Lookup(found: nat, next: nat)

  /** One lookup, if positions were unbounded. */
  function FindWide(s: State, id: BusId, start: nat): Lookup {
    var attached := AttachedVisits(s.buses, id, start);
    var entries := Matching(s.table, id, if start < |s.buses| then 0 else start - |s.buses|);
    if attached != [] then Lookup(attached[0], attached[0] + 1)
    else if entries == [] || entries[0] >= |s.table| || s.table[entries[0]].via == NO_BUS then Lookup(NO_BUS, NO_BUS)
    else Lookup(s.table[entries[0]].via, |s.buses| + entries[0] + 1)
  }

  /** One lookup: the position is a byte, and 255 ends the search. */
  function Find(s: State, id: BusId, start: nat): Lookup {
    var wide := FindWide(s, id, start);
    if start == NO_BUS || wide.found == NO_BUS then Lookup(NO_BUS, NO_BUS) else Lookup(wide.found, wide.next % 256)
  }

  /** The bus id a packet is routed by. */
  function Wanted(info: Info): BusId {
    if Shared(info.header) then info.rx.busId else LOCALHOST
  }

  /** The buses the delivery loop looks at, in order: every match, and at the end the default gateway,
      whether there was a match or not. */
  function Visits(setup: Setup, s: State, id: BusId): seq<nat> {
    Remaining(s, id, 0) + [setup.gateway]
  }

  /** Those of them that are handed a copy. */
  function Targets(visits: seq<nat>, sender: nat): seq<nat> {
    if visits == [] then []
    else
      var n := |visits| - 1;
      Targets(visits[..n], sender) + if visits[n] != NO_BUS && visits[n] != sender then [visits[n]] else []
  }

  // ---------------------------------------------------------------- what is sent there

  /** Address translation for a shared packet that leaves a local bus known by a public id. */
  function NatOut(from: Bus, info: Info): Info {
    if Shared(info.header) && !Shared(from.config) && from.tx.busId != LOCALHOST && info.tx.busId == LOCALHOST
    then info.(tx := info.tx.(busId := from.tx.busId)) else info
  }

  /** Address translation for a shared packet that enters a local bus through its public id. */
  function NatIn(to: Bus, info: Info): Info {
    if Shared(info.header) && !Shared(to.config) && to.tx.busId != LOCALHOST && info.rx.busId == to.tx.busId
    then info.(rx := info.rx.(busId := LOCALHOST)) else info
  }

  function Translated(from: Bus, to: Bus, info: Info): Info {
    NatIn(to, NatOut(from, info))
  }

  /** Handing a packet to an attached bus: it leaves one hop further, or, over the hop limit, leaves its
      sender behind as the endpoint of that bus. */
  function Transfer(s: State, receiver: nat, sender: nat, info: Info, payload: seq<byte>): (r: State)
    requires receiver < |s.buses| && sender < |s.buses|
    ensures |r.buses| == |s.buses| && r.table == s.table && r.devices == s.devices && r.acks == s.acks
  {
    var p := Translated(s.buses[sender], s.buses[receiver], info);
    if Dropped(p) then s.(buses := s.buses[receiver := s.buses[receiver].(tx := p.tx)])
    else s.(copies := s.copies + [Copy(receiver, Hopped(p), payload)])
  }

  predicate OnVirtualBus(setup: Setup, buses: seq<Bus>, id: BusId) {
    setup.virtualBus < |buses| && buses[setup.virtualBus].tx.busId == id
  }

  /** A packet for a device whose place on the virtual bus is not known goes out without asking for, or
      sending, an acknowledgement. */
  predicate Quiet(setup: Setup, buses: seq<Bus>, unknown: bool, receiver: nat)
    requires receiver < |buses|
  {
    unknown && OnVirtualBus(setup, buses, buses[receiver].tx.busId)
  }

  predicate WantsAck(info: Info) {
    AckRequested(info.header) && info.rx.id != BROADCAST
  }

  function SendTo(
    setup: Setup, s: State, unknown: bool, receiver: nat, sender: nat, ackSent: bool, info: Info, payload: seq<byte>
  ): (r: (State, bool))
    requires receiver < |s.buses| && sender < |s.buses|
    ensures |r.0.buses| == |s.buses| && r.0.table == s.table && r.0.devices == s.devices
  {
    if Quiet(setup, s.buses, unknown, receiver) then
      (Transfer(s, receiver, sender, info.(header := DropAck(info.header)), payload), ackSent)
    else if !ackSent && WantsAck(info) then
      (Transfer(s.(acks := s.acks + [sender]), receiver, sender, info, payload), true)
    else (Transfer(s, receiver, sender, info, payload), ackSent)
  }

  /** The delivery loop over the buses visited. */
  function DeliverTo(
    setup: Setup, s: State, unknown: bool, visits: seq<nat>, sender: nat, info: Info, payload: seq<byte>
  ): (r: (State, bool))
    requires sender < |s.buses| && forall i :: 0 <= i < |visits| ==> Attached(s.buses, visits[i])
    ensures |r.0.buses| == |s.buses| && r.0.table == s.table && r.0.devices == s.devices
  {
    if visits == [] then (s, false)
    else
      var n := |visits| - 1;
      var (t, ackSent) := DeliverTo(setup, s, unknown, visits[..n], sender, info, payload);
      assert Attached(s.buses, visits[n]);
      if visits[n] != NO_BUS && visits[n] != sender then
        SendTo(setup, t, unknown, visits[n], sender, ackSent, info, payload)
      else (t, ackSent)
  }

  // ---------------------------------------------------------------- what is learned

  /** A dynamic router adds the sender's bus to its table unless it can find it. */
  function Learn(setup: Setup, s: State, id: BusId, sender: nat): (r: State) {
    if Remaining(s, id, 0) == [] && |s.table| < setup.capacity then s.(table := s.table + [Route(id, sender)]) else s
  }

  function Register(s: State, device: byte, bus: nat): State {
    if ByteToInt(device) < |s.devices| then s.(devices := s.devices[ByteToInt(device) := bus]) else s
  }

  /** The part of the virtual bus a device was seen on. */
  function Located(setup: Setup, s: State, rx: Endpoint): nat {
    if OnVirtualBus(setup, s.buses, rx.busId) && ByteToInt(rx.id) < |s.devices| then s.devices[ByteToInt(rx.id)]
    else NO_BUS
  }

  // ---------------------------------------------------------------- the whole router

  /** A packet arrived from an attached bus, or the queue of an attached bus gave a packet up. */
  datatype Event = Arrived(bus: nat, info: Info, payload: seq<byte>) | GivenUp(bus: nat, info: Info)

  function Sighted(setup: Setup, s: State, bus: nat, info: Info): State {
    if OnVirtualBus(setup, s.buses, info.tx.busId) then Register(s, info.tx.id, bus) else s
  }

  function Routed(setup: Setup, s: State, sender: nat, info: Info, payload: seq<byte>): State
    requires Ok(setup, s) && sender < |s.buses|
  {
    var t := if setup.learns then Learn(setup, s, info.tx.busId, sender) else s;
    VisitsAttached(setup, t, Wanted(info));
    DeliverTo(setup, t, true, Visits(setup, t, Wanted(info)), sender, info, payload).0
  }

  function Received(setup: Setup, s: State, bus: nat, info: Info, payload: seq<byte>): State
    requires Ok(setup, s) && bus < |s.buses|
  {
    var t := Sighted(setup, s, bus, info);
    var known := Located(setup, t, info.rx);
    if known == NO_BUS then Routed(setup, t, bus, info, payload)
    else if known == bus then t
    else SendTo(setup, t, false, known, bus, false, info, payload).0
  }

  /** A connection lost to a device takes back where it was seen, if it was lost on that bus. */
  function Forgotten(setup: Setup, s: State, bus: nat, info: Info): State
    requires bus < |s.buses|
  {
    if OnVirtualBus(setup, s.buses, s.buses[bus].tx.busId) && Located(setup, s, info.rx) == bus
    then Register(s, info.rx.id, NO_BUS) else s
  }

  function Handled(setup: Setup, s: State, e: Event): (r: State)
    requires Ok(setup, s) && e.bus < |s.buses|
  {
    match e
    case Arrived(bus, info, payload) => Received(setup, s, bus, info, payload)
    case GivenUp(bus, info) => Forgotten(setup, s, bus, info)
  }

  // ---------------------------------------------------------------- searching

  lemma {:induction false} TableVisitsAttached(buses: seq<Bus>, table: seq<Route>, id: BusId, k: nat)
    requires forall i :: 0 <= i < |table| ==> Attached(buses, table[i].via)
    ensures forall i :: 0 <= i < |TableVisits(table, id, k)| ==> TableVisits(table, id, k)[i] < |buses|
    decreases |table| - k
  {
    if k < |table| {
      assert Attached(buses, table[k].via);
      TableVisitsAttached(buses, table, id, k + 1);
    }
  }

  /** Searching the attached buses from k on finds exactly the positions with that id, in order. */
  lemma {:induction false} AttachedVisitsExact(buses: seq<Bus>, id: BusId, k: nat)
    ensures var v := AttachedVisits(buses, id, k);
            && (forall i :: 0 <= i < |v| ==> k <= v[i] < |buses|)
            && (forall i :: 0 <= i < |v| ==> buses[v[i]].tx.busId == id)
            && (forall i, j :: 0 <= i < j < |v| ==> v[i] < v[j])
            && (forall b :: k <= b < |buses| && buses[b].tx.busId == id ==> b in v)
    decreases |buses| - k
  {
    if k < |buses| {
      var v, rest := AttachedVisits(buses, id, k), AttachedVisits(buses, id, k + 1);
      AttachedVisitsExact(buses, id, k + 1);
      forall b | k <= b < |buses| && buses[b].tx.busId == id ensures b in v {
        if b > k { assert b in rest; }
      }
    }
  }

  lemma {:induction false} MatchingExact(table: seq<Route>, id: BusId, k: nat)
    ensures var m := Matching(table, id, k);
            && (forall i :: 0 <= i < |m| ==> k <= m[i] < |table| && table[m[i]].busId == id)
            && (forall i, j :: 0 <= i < j < |m| ==> m[i] < m[j])
            && (forall e :: k <= e < |table| && table[e].busId == id ==> e in m)
    decreases |table| - k
  {
    if k < |table| {
      var m, rest := Matching(table, id, k), Matching(table, id, k + 1);
      MatchingExact(table, id, k + 1);
      forall e | k <= e < |table| && table[e].busId == id ensures e in m {
        if e > k { assert e in rest; }
      }
    }
  }

  /** The entries at positions `m` lead to `v`, in order, as far as they lead anywhere. */
  predicate LeadTo(table: seq<Route>, id: BusId, m: seq<nat>, v: seq<nat>) {
    && |v| <= |m|
    && (forall i :: 0 <= i < |v| ==> m[i] < |table| && table[m[i]] == Route(id, v[i]))
    && (|v| < |m| ==> m[|v|] < |table| && table[m[|v|]].via == NO_BUS)
  }

  lemma LeadToMore(table: seq<Route>, id: BusId, k: nat, m: seq<nat>, v: seq<nat>)
    requires k < |table| && table[k].busId == id && LeadTo(table, id, m, v)
    ensures LeadTo(table, id, [k] + m, [table[k].via] + v)
  {
    var m', v' := [k] + m, [table[k].via] + v;
    forall i | 0 <= i < |v'| ensures m'[i] < |table| && table[m'[i]] == Route(id, v'[i]) {
      if i > 0 { assert m'[i] == m[i - 1] && v'[i] == v[i - 1]; }
    }
    assert |v'| < |m'| ==> m'[|v'|] == m[|v|];
  }

  /** Searching the table from k on goes where the matching entries lead. */
  lemma {:induction false} TableVisitsExact(table: seq<Route>, id: BusId, k: nat)
    ensures LeadTo(table, id, Matching(table, id, k), TableVisits(table, id, k))
    decreases |table| - k
  {
    if k < |table| {
      TableVisitsExact(table, id, k + 1);
      if table[k].busId == id && table[k].via != NO_BUS {
        LeadToMore(table, id, k, Matching(table, id, k + 1), TableVisits(table, id, k + 1));
        hide LeadTo;
      }
    }
  }

  lemma {:induction false} AttachedVisitsAttached(buses: seq<Bus>, id: BusId, k: nat)
    ensures forall i :: 0 <= i < |AttachedVisits(buses, id, k)| ==> AttachedVisits(buses, id, k)[i] < |buses|
    decreases |buses| - k
  {
    if k < |buses| { AttachedVisitsAttached(buses, id, k + 1); }
  }

  lemma BothBelow(a: seq<nat>, b: seq<nat>, n: nat)
    requires (forall i :: 0 <= i < |a| ==> a[i] < n) && (forall i :: 0 <= i < |b| ==> b[i] < n)
    ensures forall i :: 0 <= i < |a + b| ==> (a + b)[i] < n
  {
  }

  /** Only attached buses are found. */
  lemma FoundAttached(setup: Setup, s: State, id: BusId, start: nat)
    requires Fitting(setup, s)
    ensures forall i :: 0 <= i < |Remaining(s, id, start)| ==> Remaining(s, id, start)[i] < |s.buses|
  {
    AttachedVisitsAttached(s.buses, id, start);
    TableVisitsAttached(s.buses, s.table, id, if start < |s.buses| then 0 else start - |s.buses|);
    TableVisitsAttached(s.buses, s.table, id, 0);
    hide AttachedVisits, TableVisits;
    BothBelow(AttachedVisits(s.buses, id, start), TableVisits(s.table, id, 0), |s.buses|);
  }

  lemma VisitsAttached(setup: Setup, s: State, id: BusId)
    requires Fitting(setup, s)
    ensures forall i :: 0 <= i < |Visits(setup, s, id)| ==> Attached(s.buses, Visits(setup, s, id)[i])
  {
    FoundAttached(setup, s, id, 0);
    hide Remaining;
    var r := Remaining(s, id, 0);
    forall i | 0 <= i < |r| + 1 ensures Attached(s.buses, (r + [setup.gateway])[i]) {
      if i < |r| { assert (r + [setup.gateway])[i] == r[i]; }
    }
  }
}
