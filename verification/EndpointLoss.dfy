/** A switch whose attached bus loses its endpoint to a packet over the hop limit. */
module EndpointLoss {
  import opened Words
  import opened Packets
  import opened Routing
  import opened Delivery
  import opened RoutingRuns

  /** A switch between two shared buses, without a gateway. */
  const PAIR := Setup(NO_BUS, 0, NO_BUS, false)

  function PairOf(near: Endpoint, far: Endpoint): State {
    State([Bus(near, MODE_BIT | TX_INFO_BIT), Bus(far, MODE_BIT | TX_INFO_BIT)], [], [], [], [])
  }

  const NEAR := Endpoint(NOT_ASSIGNED, [1, 0, 0, 0], NO_MAC)
  const FAR := Endpoint(NOT_ASSIGNED, [2, 0, 0, 0], NO_MAC)

  /** A packet from a device of the near bus to one of the far bus. */
  function Across(hops: byte): Info {
    Info(NEAR.(id := 7), FAR.(id := 9), MODE_BIT | TX_INFO_BIT, hops, 0, NO_PORT)
  }

  lemma AcrossHanded(s: State, hops: byte)
    requires |s.buses| == 2 && s.table == [] && s.devices == []
    ensures HandedTo(PAIR, s, 0, Across(hops)) == if s.buses[1].tx.busId == FAR.busId then [1] else []
  {
    var info := Across(hops);
    assert Shared(info.header) && Wanted(info) == FAR.busId;
    hide Shared;
    var a := AttachedVisits(s.buses, FAR.busId, 0);
    assert AttachedVisits(s.buses, FAR.busId, 2) == [];
    assert TableVisits([], FAR.busId, 0) == [];
    var last := if s.buses[1].tx.busId == FAR.busId then [1] else [];
    var first := if s.buses[0].tx.busId == FAR.busId then [0] else [];
    assert AttachedVisits(s.buses, FAR.busId, 1) == last;
    assert a == first + last;
    var v := Visits(PAIR, s, FAR.busId);
    assert v == first + last + [NO_BUS];
    assert Targets([], 0) == [] && Targets(first, 0) == [];
    assert (first + last)[..|first + last| - |last|] == first;
    assert Targets(first + last, 0) == last;
    assert v[..|v| - 1] == first + last;
  }

  lemma PairKeeps(s: State, info: Info, payload: seq<byte>)
    requires Ok(PAIR, s) && |s.buses| == 2
    ensures var r := Received(PAIR, s, 0, info, payload); r.table == s.table && r.devices == s.devices
  {
    VisitsAttached(PAIR, s, Wanted(info));
    hide DeliverTo, Visits, Wanted;
  }

  predicate Pair(s: State) {
    Ok(PAIR, s) && |s.buses| == 2 && s.table == [] && s.devices == []
  }

  lemma AcrossCopied(s: State, payload: seq<byte>)
    requires Pair(s)
    ensures |Received(PAIR, s, 0, Across(0), payload).copies|
            == |s.copies| + if s.buses[1].tx.busId == FAR.busId then 1 else 0
  {
    assert !Dropped(Across(0));
    AcrossHanded(s, 0);
    UnknownDevice(PAIR, s, 0, Across(0), payload);
    hide Received, Dropped, Visits, Targets, Learn, Acknowledges, CopyFor, Wanted;
  }

  lemma AcrossMarked(s: State, payload: seq<byte>)
    requires Pair(s) && Shared(s.buses[0].config) && s.buses[1].tx.busId == FAR.busId
    ensures var r := Received(PAIR, s, 0, Across(15), payload);
            Pair(r) && r.copies == s.copies && r.buses == [s.buses[0], s.buses[1].(tx := Across(15).tx)]
  {
    assert Dropped(Across(15)) && Shared(Across(15).header);
    AcrossHanded(s, 15);
    HandledOk(PAIR, s, Arrived(0, Across(15), payload));
    ReceivedOverLimit(PAIR, s, 0, Across(15), payload);
    PairKeeps(s, Across(15), payload);
    hide Received, HandedTo, Shared, Dropped, AcknowledgesOver, Ok;
  }

  /** A packet of 15 hops from the near bus leaves the far bus with the id of the near one: the next packet
      to the far bus, which would have been forwarded before, goes nowhere. */
  lemma EndpointLost(payload: seq<byte>)
    ensures var s := PairOf(NEAR, FAR);
            && Ok(PAIR, s)
            && var r := Received(PAIR, s, 0, Across(15), payload);
               && r.buses == PairOf(NEAR, NEAR.(id := 7)).buses != s.buses
               && Ok(PAIR, r)
               && Received(PAIR, r, 0, Across(0), payload).copies == []
               && |Received(PAIR, s, 0, Across(0), payload).copies| == 1
  {
    var s := PairOf(NEAR, FAR);
    assert Shared(s.buses[0].config);
    assert [1, 0, 0, 0][0] as byte != [2, 0, 0, 0][0];
    AcrossCopied(s, payload);
    AcrossMarked(s, payload);
    var r := Received(PAIR, s, 0, Across(15), payload);
    AcrossCopied(r, payload);
    hide Received, Shared;
  }
}
