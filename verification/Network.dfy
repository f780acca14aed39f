/** Any network of switches and routers, loops and default gateways included: a shared packet causes
    only so many forwards. */
module Network {
  import opened Words
  import opened Packets
  import opened Routing
  import opened RoutingRuns
  import opened Translation

  // ---------------------------------------------------------------- one router

  /** The copy `c` is a descendant of a packet: one hop further, within the limit, in the same mode and
      with the same payload. */
  predicate Descends(c: Copy, info: Info, payload: seq<byte>) {
    c.info.hops == info.hops + 1 && !Dropped(info) && Shared(c.info.header) == Shared(info.header)
    && c.payload == payload
  }

  /** At most `max` copies were added, all descendants. */
  predicate Forwards(before: seq<Copy>, after: seq<Copy>, max: nat, info: Info, payload: seq<byte>) {
    && before <= after && |after| <= |before| + max
    && forall i :: |before| <= i < |after| ==> Descends(after[i], info, payload)
  }

  lemma DropAckKeepsMode(h: byte)
    ensures Shared(DropAck(h)) == Shared(h)
  {
    DropAckBits(h);
  }

  lemma TransferForwards(s: State, receiver: nat, sender: nat, info: Info, payload: seq<byte>)
    requires receiver < |s.buses| && sender < |s.buses|
    ensures Forwards(s.copies, Transfer(s, receiver, sender, info, payload).copies, 1, info, payload)
  {
    hide Shared;
  }

  lemma QuietForwards(before: seq<Copy>, after: seq<Copy>, max: nat, info: Info, payload: seq<byte>)
    requires Forwards(before, after, max, info.(header := DropAck(info.header)), payload)
    ensures Forwards(before, after, max, info, payload)
  {
    DropAckKeepsMode(info.header);
    hide Shared, DropAck;
  }

  lemma SendForwards(
    setup: Setup, s: State, unknown: bool, receiver: nat, sender: nat, ackSent: bool, info: Info, payload: seq<byte>
  )
    requires receiver < |s.buses| && sender < |s.buses|
    ensures Forwards(s.copies, SendTo(setup, s, unknown, receiver, sender, ackSent, info, payload).0.copies, 1, info,
                     payload)
  {
    var quiet := info.(header := DropAck(info.header));
    hide Transfer, DropAck, Quiet, WantsAck, Forwards;
    if Quiet(setup, s.buses, unknown, receiver) {
      TransferForwards(s, receiver, sender, quiet, payload);
      QuietForwards(s.copies, Transfer(s, receiver, sender, quiet, payload).copies, 1, info, payload);
    } else if !ackSent && WantsAck(info) {
      TransferForwards(s.(acks := s.acks + [sender]), receiver, sender, info, payload);
    } else {
      TransferForwards(s, receiver, sender, info, payload);
    }
  }

  lemma {:induction false} DeliverForwards(
    setup: Setup, s: State, unknown: bool, visits: seq<nat>, sender: nat, info: Info, payload: seq<byte>
  )
    requires sender < |s.buses| && forall i :: 0 <= i < |visits| ==> Attached(s.buses, visits[i])
    ensures Forwards(s.copies, DeliverTo(setup, s, unknown, visits, sender, info, payload).0.copies, |visits|, info,
                     payload)
  {
    if visits != [] {
      var n := |visits| - 1;
      assert Attached(s.buses, visits[n]);
      DeliverForwards(setup, s, unknown, visits[..n], sender, info, payload);
      var (t, ackSent) := DeliverTo(setup, s, unknown, visits[..n], sender, info, payload);
      if visits[n] != NO_BUS && visits[n] != sender {
        SendForwards(setup, t, unknown, visits[n], sender, ackSent, info, payload);
      }
      hide SendTo, Descends;
    }
  }

  lemma {:induction false} SearchesShort(s: State, id: BusId, k: nat)
    ensures k <= |s.buses| ==> |AttachedVisits(s.buses, id, k)| <= |s.buses| - k
    ensures k <= |s.table| ==> |TableVisits(s.table, id, k)| <= |s.table| - k
    decreases |s.buses| + |s.table| - k
  {
    if k < |s.buses| || k < |s.table| { SearchesShort(s, id, k + 1); }
  }

  /** The number of copies a router can make of one packet. */
  function FanOut(setup: Setup, count: nat): nat {
    count + setup.capacity + 1
  }

  lemma VisitsShort(setup: Setup, s: State, id: BusId)
    requires Ok(setup, s)
    ensures |Visits(setup, s, id)| <= FanOut(setup, |s.buses|)
  {
    SearchesShort(s, id, 0);
  }

  /** Whatever a router has learned, every copy it makes of a packet is a descendant, and there are only
      so many. */
  lemma RouterForwards(setup: Setup, s: State, bus: nat, info: Info, payload: seq<byte>)
    requires Ok(setup, s) && bus < |s.buses|
    ensures Forwards(s.copies, Received(setup, s, bus, info, payload).copies, FanOut(setup, |s.buses|), info, payload)
  {
    var t := Sighted(setup, s, bus, info);
    assert Ok(setup, t) && t.copies == s.copies && |t.buses| == |s.buses|;
    var known := Located(setup, t, info.rx);
    if known == NO_BUS {
      var learned := if setup.learns then Learn(setup, t, info.tx.busId, bus) else t;
      assert Ok(setup, learned) && learned.copies == s.copies && |learned.buses| == |s.buses|;
      var visits := Visits(setup, learned, Wanted(info));
      VisitsAttached(setup, learned, Wanted(info));
      VisitsShort(setup, learned, Wanted(info));
      DeliverForwards(setup, learned, true, visits, bus, info, payload);
      hide Learn, Visits, Wanted, DeliverTo, Descends, Sighted, Located;
    } else if known != bus {
      SendForwards(setup, t, false, known, bus, false, info, payload);
    }
    hide Descends, Sighted, Located, SendTo, Routed;
  }

  // ---------------------------------------------------------------- hops on the wire

  /** A packet is dropped exactly from 15 hops on, except that the count wraps at 255. */
  lemma HopLimit(info: Info)
    ensures Dropped(info) <==> 15 <= ByteToInt(info.hops) < 255
    ensures !Dropped(info) && ByteToInt(info.hops) < 255 ==> ByteToInt(Hopped(info).hops) == ByteToInt(info.hops) + 1
  {
  }

  /** Shared packets carry their hop count. */
  lemma HopsOnWire(info: Info, tx: Endpoint, c: Composer, length: nat)
    requires Shared(info.header)
    ensures Shared(OnWire(Composed(info, tx, c), length).header)
    ensures OnWire(Composed(info, tx, c), length).hops == info.hops
  {
    ComposedKeeps(info, tx, c);
    FinalHeaderBits(Composed(info, tx, c), length);
    hide Shared, FinalHeader, Composed;
  }

  /** Local packets do not: the hop limit never stops them. */
  lemma LocalHopsLost(info: Info, length: nat)
    requires !Shared(info.header)
    ensures OnWire(info, length).hops == 0 && !Dropped(OnWire(info, length))
  {
    FinalHeaderBits(info, length);
    hide Shared, FinalHeader;
  }

  // ---------------------------------------------------------------- the network

  datatype Node = Node(setup: Setup, state: State)

  /** A packet about to be received by a router from one of its attached buses. */
  datatype Flight = Flight(node: nat, bus: nat, info: Info, payload: seq<byte>)

  datatype World = World(nodes: seq<Node>, air: seq<Flight>)

  /** How far the routers of a network can spread a packet: the copies one makes of it, and how often a
      copy is received, counting every listener on the bus and every retransmission. */
  datatype Spread = Spread(fanOut: nat, receptions: nat)

  predicate NodeOk(n: Node, spread: Spread) {
    Ok(n.setup, n.state) && FanOut(n.setup, |n.state.buses|) <= spread.fanOut
  }

  predicate FlightOk(nodes: seq<Node>, f: Flight) {
    f.node < |nodes| && f.bus < |nodes[f.node].state.buses| && Shared(f.info.header) && f.info.hops <= MAX_HOPS
  }

  predicate WorldOk(w: World, spread: Spread) {
    && (forall i :: 0 <= i < |w.nodes| ==> NodeOk(w.nodes[i], spread))
    && (forall i :: 0 <= i < |w.air| ==> FlightOk(w.nodes, w.air[i]))
  }

  /** The flight is a reception of the copy, as some attached bus composed it, anywhere in the network. */
  ghost predicate Hears(nodes: seq<Node>, f: Flight, c: Copy) {
    && f.node < |nodes| && f.bus < |nodes[f.node].state.buses| && f.payload == c.payload
    && exists relay: Composer :: f.info == OnWire(Composed(c.info, c.info.tx, relay), |c.payload|)
  }

  function Concat(heard: seq<seq<Flight>>): seq<Flight> {
    if heard == [] then [] else Concat(heard[..|heard| - 1]) + heard[|heard| - 1]
  }

  /** What can happen: a router receives a packet, and each copy it makes is heard in some places; or a
      packet is lost; or a router learns that a packet was given up. */
  datatype Happening =
    | Receive(at: nat, heard: seq<seq<Flight>>)
    | Lose(at: nat)
    | GiveUp(node: nat, bus: nat, info: Info)

  function Without(air: seq<Flight>, i: nat): seq<Flight>
    requires i < |air|
  {
    air[..i] + air[i + 1..]
  }

  function After(n: Node, f: Flight): State
    requires Ok(n.setup, n.state) && f.bus < |n.state.buses|
  {
    Received(n.setup, n.state, f.bus, f.info, f.payload)
  }

  ghost predicate Possible(w: World, h: Happening, spread: Spread)
    requires WorldOk(w, spread)
  {
    match h
    case Lose(i) => i < |w.air|
    case GiveUp(n, bus, _) => n < |w.nodes| && bus < |w.nodes[n].state.buses|
    case Receive(i, heard) =>
      i < |w.air| && NodeOk(w.nodes[w.air[i].node], spread) && FlightOk(w.nodes, w.air[i])
      && var n := w.nodes[w.air[i].node];
         var before, after := n.state.copies, After(n, w.air[i]).copies;
         && |before| + |heard| == |after|
         && forall j :: 0 <= j < |heard| ==>
              |heard[j]| <= spread.receptions
              && forall k :: 0 <= k < |heard[j]| ==> Hears(w.nodes, heard[j][k], after[|before| + j])
  }

  ghost function Next(w: World, h: Happening, spread: Spread): World
    requires WorldOk(w, spread) && Possible(w, h, spread)
  {
    match h
    case Lose(i) => w.(air := Without(w.air, i))
    case GiveUp(n, bus, info) =>
      assert NodeOk(w.nodes[n], spread);
      var node := w.nodes[n];
      w.(nodes := w.nodes[n := node.(state := Forgotten(node.setup, node.state, bus, info))])
    case Receive(i, heard) =>
      var f := w.air[i];
      var node := w.nodes[f.node];
      World(w.nodes[f.node := node.(state := After(node, f))], Without(w.air, i) + Concat(heard))
  }

  // ---------------------------------------------------------------- weights

  function Power(base: nat, n: nat): nat {
    if n == 0 then 1 else base * Power(base, n - 1)
  }

  function Times(a: nat, b: nat): nat {
    a * b
  }

  function Base(spread: Spread): nat {
    1 + spread.fanOut * spread.receptions
  }

  /** How many receptions a packet in flight can still cause, itself included. */
  function Weight(f: Flight, spread: Spread): nat {
    if ByteToInt(f.info.hops) > 15 then 1 else Power(Base(spread), 16 - ByteToInt(f.info.hops))
  }

  function TotalWeight(air: seq<Flight>, spread: Spread): nat {
    if air == [] then 0 else TotalWeight(air[..|air| - 1], spread) + Weight(air[|air| - 1], spread)
  }

  lemma {:induction false} WeightOfConcatenation(a: seq<Flight>, b: seq<Flight>, spread: Spread)
    ensures TotalWeight(a + b, spread) == TotalWeight(a, spread) + TotalWeight(b, spread)
  {
    hide Weight;
    if b == [] {
      assert a + b == a;
    } else {
      assert (a + b)[..|a + b| - 1] == a + b[..|b| - 1];
      WeightOfConcatenation(a, b[..|b| - 1], spread);
    }
  }

  lemma WeightWithout(air: seq<Flight>, i: nat, spread: Spread)
    requires i < |air|
    ensures TotalWeight(air, spread) == TotalWeight(Without(air, i), spread) + Weight(air[i], spread)
  {
    hide Weight;
    var f := [air[i]];
    assert f[..0] == [];
    assert air == (air[..i] + f) + air[i + 1..];
    WeightOfConcatenation(air[..i] + f, air[i + 1..], spread);
    WeightOfConcatenation(air[..i], f, spread);
    WeightOfConcatenation(air[..i], air[i + 1..], spread);
  }

  lemma {:induction false} WeightBounded(air: seq<Flight>, w: nat, spread: Spread)
    requires forall i :: 0 <= i < |air| ==> Weight(air[i], spread) <= w
    ensures TotalWeight(air, spread) <= Times(|air|, w)
  {
    hide Weight;
    if air != [] {
      WeightBounded(air[..|air| - 1], w, spread);
      assert |air| * w == (|air| - 1) * w + w;
    }
  }

  lemma {:induction false} PowerPositive(base: nat, n: nat)
    requires base > 0
    ensures Power(base, n) > 0
  {
    if n > 0 { PowerPositive(base, n - 1); }
  }

  // ---------------------------------------------------------------- every step loses weight

  /** Flights of a network that weigh at most `w` each. */
  ghost predicate AllLight(nodes: seq<Node>, air: seq<Flight>, spread: Spread, w: nat) {
    forall i :: 0 <= i < |air| ==> FlightOk(nodes, air[i]) && Weight(air[i], spread) <= w
  }

  lemma {:induction false} ConcatLight(nodes: seq<Node>, heard: seq<seq<Flight>>, spread: Spread, w: nat)
    requires forall j :: 0 <= j < |heard| ==>
               |heard[j]| <= spread.receptions && AllLight(nodes, heard[j], spread, w)
    ensures |Concat(heard)| <= Times(|heard|, spread.receptions) && AllLight(nodes, Concat(heard), spread, w)
  {
    hide Weight, FlightOk;
    if heard != [] {
      var n := |heard| - 1;
      ConcatLight(nodes, heard[..n], spread, w);
      assert |heard| * spread.receptions == n * spread.receptions + spread.receptions;
      var before, last := Concat(heard[..n]), heard[n];
      forall i | 0 <= i < |before + last|
        ensures FlightOk(nodes, (before + last)[i]) && Weight((before + last)[i], spread) <= w
      {
        if i < |before| {
          assert (before + last)[i] == before[i];
        } else {
          assert (before + last)[i] == last[i - |before|];
        }
      }
    }
  }

  /** A reception of a copy weighs the next smaller power. */
  lemma ChildLight(nodes: seq<Node>, f: Flight, c: Copy, child: Flight, spread: Spread)
    requires FlightOk(nodes, f) && Descends(c, f.info, f.payload) && Hears(nodes, child, c)
    ensures FlightOk(nodes, child) && ByteToInt(f.info.hops) <= 14
    ensures Weight(child, spread) == Power(Base(spread), 15 - ByteToInt(f.info.hops))
  {
    var relay: Composer :| child.info == OnWire(Composed(c.info, c.info.tx, relay), |c.payload|);
    HopLimit(f.info);
    LimitAsInt(f.info.hops);
    LimitAsInt(c.info.hops);
    HopsOnWire(c.info, c.info.tx, relay, |c.payload|);
    hide Shared, Dropped, Power, Base, OnWire, Composed;
  }

  lemma LimitAsInt(h: byte)
    ensures h <= MAX_HOPS <==> ByteToInt(h) <= 15
  {
  }

  /** The flights heard of the copies made of a packet, copy by copy. */
  ghost predicate HeardOf(nodes: seq<Node>, f: Flight, copies: seq<Copy>, heard: seq<seq<Flight>>, spread: Spread) {
    && FlightOk(nodes, f) && |heard| == |copies| <= spread.fanOut
    && forall j :: 0 <= j < |heard| ==> HeardOfCopy(nodes, f, copies[j], heard[j], spread)
  }

  ghost predicate HeardOfCopy(nodes: seq<Node>, f: Flight, c: Copy, heard: seq<Flight>, spread: Spread) {
    && Descends(c, f.info, f.payload) && |heard| <= spread.receptions
    && forall k :: 0 <= k < |heard| ==> Hears(nodes, heard[k], c)
  }

  lemma ReceiveHeard(w: World, i: nat, heard: seq<seq<Flight>>, spread: Spread)
    requires WorldOk(w, spread) && Possible(w, Receive(i, heard), spread)
    ensures exists copies :: HeardOf(w.nodes, w.air[i], copies, heard, spread)
  {
    var f := w.air[i];
    var n := w.nodes[f.node];
    RouterForwards(n.setup, n.state, f.bus, f.info, f.payload);
    NodeFan(n, spread);
    var before, after := n.state.copies, After(n, f).copies;
    hide Received, Shared, Hears, Dropped, Descends, NodeOk, FlightOk, Ok;
    var copies := after[|before|..];
    forall j | 0 <= j < |heard| ensures HeardOfCopy(w.nodes, f, copies[j], heard[j], spread) {
      assert copies[j] == after[|before| + j];
    }
    assert HeardOf(w.nodes, f, copies, heard, spread);
  }

  lemma NodeFan(n: Node, spread: Spread)
    requires NodeOk(n, spread)
    ensures FanOut(n.setup, |n.state.buses|) <= spread.fanOut
  {
  }

  /** All that is heard after a reception weighs less than the packet received. */
  lemma HeardLight(nodes: seq<Node>, f: Flight, copies: seq<Copy>, heard: seq<seq<Flight>>, spread: Spread)
    requires HeardOf(nodes, f, copies, heard, spread)
    ensures forall k :: 0 <= k < |Concat(heard)| ==> FlightOk(nodes, Concat(heard)[k])
    ensures TotalWeight(Concat(heard), spread) + 1 <= Weight(f, spread)
  {
    if heard == [] {
      hide Weight, FlightOk, HeardOfCopy;
      WeightPositive(f, spread);
    } else {
      FirstWithin(nodes, f, copies[0], heard[0], spread);
      var light := Power(Base(spread), 15 - ByteToInt(f.info.hops));
      hide Weight, TotalWeight, FlightOk, Base, Power, Concat, Times, ByteToInt, HeardOfCopy, AllLight;
      forall j | 0 <= j < |heard|
        ensures |heard[j]| <= spread.receptions && AllLight(nodes, heard[j], spread, light)
      {
        ChildrenLight(nodes, f, copies[j], heard[j], spread);
      }
      ConcatLight(nodes, heard, spread, light);
      ConcatOutweighed(nodes, f, |heard|, Concat(heard), light, spread);
    }
  }

  lemma WeightPositive(f: Flight, spread: Spread)
    ensures Weight(f, spread) >= 1
  {
    if ByteToInt(f.info.hops) <= 15 { PowerPositive(Base(spread), 16 - ByteToInt(f.info.hops)); }
  }

  lemma FirstWithin(nodes: seq<Node>, f: Flight, c: Copy, heard: seq<Flight>, spread: Spread)
    requires FlightOk(nodes, f) && HeardOfCopy(nodes, f, c, heard, spread)
    ensures ByteToInt(f.info.hops) <= 14
  {
    hide Shared;
    DescendsWithin(c, f);
  }

  lemma ConcatOutweighed(nodes: seq<Node>, f: Flight, copies: nat, air: seq<Flight>, light: nat, spread: Spread)
    requires ByteToInt(f.info.hops) <= 14 && light == Power(Base(spread), 15 - ByteToInt(f.info.hops))
    requires copies <= spread.fanOut && |air| <= Times(copies, spread.receptions)
    requires AllLight(nodes, air, spread, light)
    ensures forall k :: 0 <= k < |air| ==> FlightOk(nodes, air[k])
    ensures TotalWeight(air, spread) + 1 <= Weight(f, spread)
  {
    hide Weight, TotalWeight, FlightOk, Base, Power, Times, ByteToInt;
    WeightBounded(air, light, spread);
    Outweighs(f, copies, |air|, light, TotalWeight(air, spread), spread);
  }

  lemma DescendsWithin(c: Copy, f: Flight)
    requires Descends(c, f.info, f.payload) && f.info.hops <= MAX_HOPS
    ensures ByteToInt(f.info.hops) <= 14
  {
    HopLimit(f.info);
    LimitAsInt(f.info.hops);
  }

  lemma ChildrenLight(nodes: seq<Node>, f: Flight, c: Copy, heard: seq<Flight>, spread: Spread)
    requires FlightOk(nodes, f) && HeardOfCopy(nodes, f, c, heard, spread) && ByteToInt(f.info.hops) <= 14
    ensures |heard| <= spread.receptions
    ensures AllLight(nodes, heard, spread, Power(Base(spread), 15 - ByteToInt(f.info.hops)))
  {
    hide Hears, Weight, FlightOk, Descends, Base, Power;
    forall k | 0 <= k < |heard|
      ensures FlightOk(nodes, heard[k])
              && Weight(heard[k], spread) <= Power(Base(spread), 15 - ByteToInt(f.info.hops))
    {
      ChildLight(nodes, f, c, heard[k], spread);
    }
  }

  lemma Outweighs(f: Flight, copies: nat, receptions: nat, light: nat, total: nat, spread: Spread)
    requires ByteToInt(f.info.hops) <= 14 && light == Power(Base(spread), 15 - ByteToInt(f.info.hops))
    requires copies <= spread.fanOut && receptions <= Times(copies, spread.receptions)
    requires total <= Times(receptions, light)
    ensures total + 1 <= Weight(f, spread)
  {
    PowerPositive(Base(spread), 15 - ByteToInt(f.info.hops));
    Products(copies, spread.fanOut, spread.receptions, receptions, light, total);
  }

  lemma Products(copies: nat, fanOut: nat, each: nat, receptions: nat, light: nat, total: nat)
    requires light > 0 && copies <= fanOut && receptions <= copies * each && total <= receptions * light
    ensures total + 1 <= (1 + fanOut * each) * light
  {
    MulMono(copies, fanOut, each);
    MulMono(receptions, fanOut * each, light);
    OneMore(fanOut * each, light);
  }

  lemma MulMono(a: nat, b: nat, c: nat)
    requires a <= b
    ensures a * c <= b * c
  {
    assert b * c == a * c + (b - a) * c;
  }

  lemma FlightPlace(nodes: seq<Node>, f: Flight)
    requires FlightOk(nodes, f)
    ensures f.node < |nodes| && f.bus < |nodes[f.node].state.buses|
  {
  }

  lemma FlightsStay(nodes: seq<Node>, n: nat, s: State, air: seq<Flight>)
    requires n < |nodes| && |s.buses| == |nodes[n].state.buses|
    requires forall i :: 0 <= i < |air| ==> FlightOk(nodes, air[i])
    ensures forall i :: 0 <= i < |air| ==> FlightOk(nodes[n := nodes[n].(state := s)], air[i])
  {
    hide Shared;
    var nodes' := nodes[n := nodes[n].(state := s)];
    forall i | 0 <= i < |air| ensures FlightOk(nodes', air[i]) {
      assert FlightOk(nodes, air[i]);
    }
  }

  /** Everything that can happen keeps the network in order, and each reception takes at least one from
      the total weight of what is in flight. */
  lemma StepLosesWeight(w: World, h: Happening, spread: Spread)
    requires WorldOk(w, spread) && Possible(w, h, spread)
    ensures var w' := Next(w, h, spread);
            && WorldOk(w', spread)
            && TotalWeight(w'.air, spread) + (if h.Receive? then 1 else 0) <= TotalWeight(w.air, spread)
            && (h.Receive? ==> |h.heard| <= spread.fanOut)
  {
    hide Weight, TotalWeight, FlightOk, Received, Forgotten, Base, Hears, Concat, HeardOfCopy;
    match h
    case Lose(i) =>
      WeightWithout(w.air, i, spread);
    case GiveUp(n, bus, info) =>
      var node := w.nodes[n];
      assert NodeOk(node, spread);
      HandledOk(node.setup, node.state, GivenUp(bus, info));
      FlightsStay(w.nodes, n, Forgotten(node.setup, node.state, bus, info), w.air);
    case Receive(i, heard) =>
      var f := w.air[i];
      FlightPlace(w.nodes, f);
      var node := w.nodes[f.node];
      var air := Without(w.air, i) + Concat(heard);
      ReceiveHeard(w, i, heard, spread);
      var copies :| HeardOf(w.nodes, f, copies, heard, spread);
      HeardLight(w.nodes, f, copies, heard, spread);
      WeightWithout(w.air, i, spread);
      WeightOfConcatenation(Without(w.air, i), Concat(heard), spread);
      HandledOk(node.setup, node.state, Arrived(f.bus, f.info, f.payload));
      FlightsStay(w.nodes, f.node, After(node, f), air);
  }

  // ---------------------------------------------------------------- whole runs

  ghost predicate Run(w: World, happenings: seq<Happening>, spread: Spread)
    decreases |happenings|
  {
    happenings == []
    || (WorldOk(w, spread) && Possible(w, happenings[0], spread)
        && Run(Next(w, happenings[0], spread), happenings[1..], spread))
  }

  /** Receptions by routers in a run, and copies made at them. */
  function Receptions(happenings: seq<Happening>): nat {
    if happenings == [] then 0 else (if happenings[0].Receive? then 1 else 0) + Receptions(happenings[1..])
  }

  function CopiesMade(happenings: seq<Happening>): nat {
    if happenings == [] then 0
    else (if happenings[0].Receive? then |happenings[0].heard| else 0) + CopiesMade(happenings[1..])
  }

  /** In any network, loops and gateways included, and whatever its routers learn on the way, shared
      packets within the hop limit are received by routers only so often. */
  lemma {:induction false} FinitelyManyReceptions(w: World, happenings: seq<Happening>, spread: Spread)
    requires WorldOk(w, spread) && Run(w, happenings, spread)
    ensures Receptions(happenings) <= TotalWeight(w.air, spread)
    decreases |happenings|
  {
    hide Next, Possible, WorldOk, TotalWeight;
    if happenings != [] {
      StepLosesWeight(w, happenings[0], spread);
      FinitelyManyReceptions(Next(w, happenings[0], spread), happenings[1..], spread);
    }
  }

  /** Each reception makes no more copies than a router can. */
  lemma {:induction false} CopiesPerReception(w: World, happenings: seq<Happening>, spread: Spread)
    requires WorldOk(w, spread) && Run(w, happenings, spread)
    ensures CopiesMade(happenings) <= Receptions(happenings) * spread.fanOut
    decreases |happenings|
  {
    hide Next, Possible, WorldOk, TotalWeight;
    if happenings != [] {
      StepLosesWeight(w, happenings[0], spread);
      CopiesPerReception(Next(w, happenings[0], spread), happenings[1..], spread);
      OneMore(Receptions(happenings[1..]), spread.fanOut);
    }
  }

  lemma OneMore(a: nat, b: nat)
    ensures (1 + a) * b == b + a * b
  {
  }

  /** One packet with h hops behind it causes at most as many forwards as the fan-out of the routers times the
      total spread of a router to the power of 16 - h. */
  lemma FinitelyManyForwards(nodes: seq<Node>, f: Flight, happenings: seq<Happening>, spread: Spread)
    requires WorldOk(World(nodes, [f]), spread) && Run(World(nodes, [f]), happenings, spread)
    ensures ByteToInt(f.info.hops) <= 15
    ensures Receptions(happenings) <= Power(Base(spread), 16 - ByteToInt(f.info.hops))
    ensures CopiesMade(happenings) <= Power(Base(spread), 16 - ByteToInt(f.info.hops)) * spread.fanOut
  {
    var w := World(nodes, [f]);
    assert FlightOk(w.nodes, w.air[0]);
    LimitAsInt(f.info.hops);
    FinitelyManyReceptions(w, happenings, spread);
    CopiesPerReception(w, happenings, spread);
    assert [f][..0] == [];
    assert TotalWeight([], spread) == 0;
    MulMono(Receptions(happenings), Power(Base(spread), 16 - ByteToInt(f.info.hops)), spread.fanOut);
  }
}
