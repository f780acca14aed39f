/** Two devices over a lossy medium: updates of the one whose frames reach the other or are lost, and any
    other bytes in between. Every such run is a run of the retransmission protocol, so what is proved of
    those holds of the devices. */
module DeviceRuns {
  import opened Words
  import opened Packets
  import opened PacketCodec
  import opened Reception
  import opened SendQueue
  import opened Pjon
  import opened Protocol
  import QueueRuns

  /** What becomes of one slot in an update: whether it is due, whether the medium is free, whether its frame
      and the acknowledgement to it are lost, and, for a packet to somebody else, whether that is answered. */
  datatype Fate = Fate(due: bool, canStart: bool, frameLost: bool, ackLost: bool, answered: bool, now: nat)

  function MomentOf(f: Fate, response: bool): Moment {
    Moment(f.due, f.canStart, response, f.now)
  }

  /** The update transmits the slot. */
  predicate Transmits(s: Slot, f: Fate) {
    Occupied(s) && f.due && s.state != ACK && f.canStart
  }

  // ---------------------------------------------------------------- one slot, as values

  /** What the visit of slot i, which holds job i, does to the network. */
  ghost predicate Visited(
    dev: Device, n: Net, i: nat, f: Fate, stale: seq<byte>, response: bool, n': Net, max: nat
  )
    requires i < |n.jobs| && n.recent != [] && |stale| >= 35
  {
    var slot := n.jobs[i].slot;
    && |slot.content| >= 2 && slot.length <= |slot.content|
    && var r := SlotUpdate(slot, MomentOf(f, response), true, true, max);
       var heard := Transmits(slot, f) && !f.frameLost;
       var o := Reaction(dev, n.recent, slot.content[..slot.length], stale);
       && response == (heard && o.responded && !f.ackLost)
       && n' == Net(n.jobs[i := n.jobs[i].(slot := r.0)], if heard then o.recent else n.recent,
                    n.log + (if heard then Logged(dev, n.recent, o) else []),
                    n.acked + if r.1 == Acked then {i} else {})
  }

  /** That is an attempt of the protocol. */
  lemma VisitIsStep(
    dev: Device, n: Net, i: nat, f: Fate, stale: seq<byte>, response: bool, n': Net, max: nat
  )
    requires i < |n.jobs| && n.recent != [] && |stale| >= 35 && JobsOk(dev, |stale|, n.jobs)
    requires Visited(dev, n, i, f, stale, response, n', max)
    ensures n' == Step(dev, n, Attempt(i, f.due, f.canStart, f.frameLost, f.ackLost, f.now, stale), |stale|, max)
  {
    var j := n.jobs[i];
    assert JobOk(dev, |stale|, j);
    assert n.log + [] == n.log && n.acked + {} == n.acked;
    if Occupied(j.slot) {
      JobFrame(dev, |stale|, j);
      JobWaits(dev, |stale|, j);
    } else {
      assert n.jobs[i := j.(slot := j.slot)] == n.jobs;
    }
    hide JobOk, Reaction, Logged, UpdateSlot, SendCode;
    assert !Occupied(j.slot) || !f.due ==> n' == n by {
      SlotUpdateIdle(j.slot, MomentOf(f, response), true, true, max);
    }
  }

  lemma JobWaits(dev: Device, bytes: nat, j: Job)
    requires JobOk(dev, bytes, j) && Occupied(j.slot)
    ensures j.slot.state != ACK
  {
    hide FinalHeader, PacketLength, Packet, Latched, Addressed, AckRequested, HasId, Sized;
  }

  // ---------------------------------------------------------------- the callback

  /** The payloads the callback got with this key. */
  function Calls(received: seq<(seq<byte>, Info)>, key: Key): seq<seq<byte>> {
    if received == [] then []
    else
      var (payload, info) := received[|received| - 1];
      Calls(received[..|received| - 1], key) + if HasId(info.header) && KeyOf(info) == key then [payload] else []
  }

  /** The callback was called as often as the log says. */
  ghost predicate Tallied(received: seq<(seq<byte>, Info)>, log: seq<Entry>) {
    forall key :: |Calls(received, key)| == Deliveries(log, key)
  }

  /** What an outcome hands to the callback. */
  function Handed(o: Outcome): seq<(seq<byte>, Info)> {
    if o.payload.Some? && o.info.Some? then [(o.payload.value, o.info.value)] else []
  }

  lemma TalliedMore(dev: Device, recent: seq<Record>, received: seq<(seq<byte>, Info)>, log: seq<Entry>, o: Outcome)
    requires Tallied(received, log) && !dev.router && (o.payload.Some? ==> o.info.Some?)
    ensures Tallied(received + Handed(o), log + Logged(dev, recent, o))
  {
    hide HasId, KeyOf, Known;
    forall key ensures |Calls(received + Handed(o), key)| == Deliveries(log + Logged(dev, recent, o), key) {
      assert |Calls(received, key)| == Deliveries(log, key);
      CallsMore(received, o, key);
      DeliveriesMore(dev, recent, log, o, key);
    }
  }

  lemma CallsMore(received: seq<(seq<byte>, Info)>, o: Outcome, key: Key)
    ensures Calls(received + Handed(o), key)
            == Calls(received, key)
               + if o.payload.Some? && o.info.Some? && HasId(o.info.value.header) && KeyOf(o.info.value) == key
                 then [o.payload.value] else []
  {
    hide HasId, KeyOf;
    var more := received + Handed(o);
    if Handed(o) == [] {
      assert more == received;
    } else {
      assert more[..|more| - 1] == received;
    }
  }

  lemma DeliveriesMore(dev: Device, recent: seq<Record>, log: seq<Entry>, o: Outcome, key: Key)
    requires !dev.router
    ensures Deliveries(log + Logged(dev, recent, o), key)
            == Deliveries(log, key)
               + if o.info.Some? && HasId(o.info.value.header) && KeyOf(o.info.value) == key && o.payload.Some?
                 then 1 else 0
  {
    hide HasId, KeyOf, Known;
    var more := log + Logged(dev, recent, o);
    if o.info == None {
      assert more == log;
    } else {
      assert more[..|more| - 1] == log;
    }
  }

  lemma PayloadHasInfo(dev: Device, recent: seq<Record>, stream: seq<byte>, stale: seq<byte>)
    requires |stale| >= 35 && recent != []
    ensures var o := Reaction(dev, recent, stream, stale); (o.payload.Some? ==> o.info.Some?) && |o.recent| == |recent|
  {
    var responded, payload := ReactionIs(dev, recent, stream, stale);
    var info := Accepted(dev, stream, stale);
    hide *;
    if info.Some? { ConcludePayload(dev, recent, responded, info.value, payload); }
  }

  /** A device hears some bytes. */
  method Hear(b: PJON, stream: seq<byte>, cuts: nat -> nat) returns (responded: bool)
    requires b.Valid()
    modifies b.data, b.recentPacketIds, b`responses, b`lastPacketInfo, b`received
    ensures b.Valid() && b.Dev() == old(b.Dev())
    ensures var o := Reaction(b.Dev(), old(b.recentPacketIds[..]), stream, b.data[..]);
            && b.recentPacketIds[..] == o.recent && responded == o.responded && (o.payload.Some? ==> o.info.Some?)
            && b.received == old(b.received) + Handed(o)
  {
    hide Reaction;
    var before := b.responses;
    ghost var recent := b.recentPacketIds[..];
    var code := b.Receive(stream, cuts);
    responded := b.responses > before;
    PayloadHasInfo(b.Dev(), recent, stream, b.data[..]);
  }

  // ---------------------------------------------------------------- runs

  /** The network got from n0 to n by these events, none of which concerns the key of job i but its own
      attempts. */
  ghost predicate Reaches(dev: Device, n0: Net, events: seq<Protocol.Event>, n: Net, bytes: nat, max: nat, i: nat) {
    && Runnable(dev, n0, events, bytes, max) && n == RunNet(dev, n0, events, bytes, max)
    && OwnRun(dev, n0.jobs, i, events) && SamePackets(n0.jobs, n.jobs)
  }

  predicate SamePackets(jobs: seq<Job>, jobs': seq<Job>) {
    && |jobs| == |jobs'|
    && forall k :: 0 <= k < |jobs| ==> jobs'[k].packet == jobs[k].packet && jobs'[k].payload == jobs[k].payload
  }

  lemma {:induction false} RunOneMore(
    dev: Device, n: Net, events: seq<Protocol.Event>, e: Protocol.Event, bytes: nat, max: nat
  )
    requires Runnable(dev, n, events + [e], bytes, max) && EventOk(e, bytes, |n.jobs|)
    ensures Runnable(dev, n, events, bytes, max)
    ensures var m := RunNet(dev, n, events, bytes, max);
            && m.recent != [] && JobsOk(dev, bytes, m.jobs) && |m.jobs| == |n.jobs|
            && RunNet(dev, n, events + [e], bytes, max) == Step(dev, m, e, bytes, max)
    decreases |events|
  {
    hide JobsOk, Step, EventOk;
    var more := events + [e];
    assert forall k :: 0 <= k < |events| ==> events[k] == more[k];
    if events == [] {
      assert more[0] == e && more[1..] == [];
    } else {
      assert more[0] == events[0] && more[1..] == events[1..] + [e];
      StepKeepsJobs(dev, n, events[0], bytes, max);
      forall k | 0 <= k < |more| - 1
        ensures EventOk(more[1..][k], bytes, |n.jobs|)
      {
        assert EventOk(more[k + 1], bytes, |n.jobs|);
      }
      RunOneMore(dev, Step(dev, n, events[0], bytes, max), events[1..], e, bytes, max);
    }
  }

  lemma ReachesMore(
    dev: Device, n0: Net, events: seq<Protocol.Event>, n: Net, e: Protocol.Event, bytes: nat, max: nat, i: nat
  )
    requires Reaches(dev, n0, events, n, bytes, max, i) && EventOk(e, bytes, |n0.jobs|) && OwnKey(dev, n0.jobs, i, e)
    ensures n.recent != [] && bytes >= 35 && JobsOk(dev, bytes, n.jobs) && |n.jobs| == |n0.jobs|
    ensures Reaches(dev, n0, events + [e], Step(dev, n, e, bytes, max), bytes, max, i)
  {
    var more := events + [e];
    hide JobsOk, Step, EventOk, OwnKey, RunNet;
    assert forall k :: 0 <= k < |events| ==> events[k] == more[k];
    forall k | 0 <= k < |more|
      ensures EventOk(more[k], bytes, |n0.jobs|) && OwnKey(dev, n0.jobs, i, more[k])
    {
      if k < |events| { assert EventOk(events[k], bytes, |n0.jobs|) && OwnKey(dev, n0.jobs, i, events[k]); }
    }
    RunOneMore(dev, n0, events, e, bytes, max);
    StepKeepsJobs(dev, n, e, bytes, max);
  }

  // ---------------------------------------------------------------- what the callback gets for one job

  /** Whatever is called with this key gets this payload. */
  predicate Genuine(received: seq<(seq<byte>, Info)>, key: Key, payload: seq<byte>) {
    forall p :: p in Calls(received, key) ==> p == payload
  }

  /** No receiver with a buffer of this size takes the bytes for a packet with this key. */
  ghost predicate Apart(dev: Device, bytes: nat, stream: seq<byte>, key: Key)
    requires bytes >= 35
  {
    forall stale: seq<byte> :: |stale| == bytes && Accepted(dev, stream, stale).Some? ==>
      KeyOf(Accepted(dev, stream, stale).value) != key
  }

  lemma OutcomeInfo(dev: Device, recent: seq<Record>, stream: seq<byte>, stale: seq<byte>)
    requires |stale| >= 35 && recent != []
    ensures Reaction(dev, recent, stream, stale).info == Accepted(dev, stream, stale)
  {
    var responded, payload := ReactionIs(dev, recent, stream, stale);
    var info := Accepted(dev, stream, stale);
    hide Reaction, Accepted, Conclude;
    if info.Some? { ConcludeResponds(dev, recent, responded, info.value, payload); }
  }

  lemma GenuineMore(received: seq<(seq<byte>, Info)>, o: Outcome, key: Key, payload: seq<byte>)
    requires Genuine(received, key, payload)
    requires o.info.Some? && KeyOf(o.info.value) == key ==> o.payload in {None, Some(payload)}
    ensures Genuine(received + Handed(o), key, payload)
  {
    hide HasId, KeyOf, Calls;
    CallsMore(received, o, key);
  }

  /** The frame of a job brings its own payload, under its own key. */
  lemma AttemptGenuine(dev: Device, recent: seq<Record>, j: Job, stale: seq<byte>)
    requires JobOk(dev, |stale|, j) && Occupied(j.slot) && recent != [] && |stale| >= 35
    requires dev.halfDuplex && !dev.router && j.slot.length <= |j.slot.content|
    ensures var o := Reaction(dev, recent, j.slot.content[..j.slot.length], stale);
            o.payload in {None, Some(j.payload)} && o.info.Some? && KeyOf(o.info.value) == JobKey(j)
  {
    hide *;
    AttemptArrives(dev, recent, j, stale);
    var h := FinalHeader(j.packet, |j.payload|);
    ConcludePayload(dev, recent, true, Protocol.Received(j.packet, h), j.payload);
  }

  lemma ConcludePayload(dev: Device, recent: seq<Record>, responded: bool, info: Info, payload: seq<byte>)
    requires recent != []
    ensures var o := Conclude(dev, recent, responded, info, payload);
            o.payload in {None, Some(payload)} && o.info == Some(info) && |o.recent| == |recent|
  {
    hide HasId, Known;
  }

  /** Nobody uses the key of job i: not the other jobs; and the receiver listens to its port. */
  ghost predicate Alone(dev: Device, jobs: seq<Job>, mine: nat -> bool, i: nat)
    requires i < |jobs|
  {
    && mine(i) && Protocol.Listens(dev, jobs[i])
    && forall k :: 0 <= k < |jobs| && mine(k) && k != i ==> JobKey(jobs[k]) != JobKey(jobs[i])
  }

  lemma KeyKept(jobs: seq<Job>, jobs': seq<Job>, k: nat)
    requires SamePackets(jobs, jobs') && k < |jobs|
    ensures JobKey(jobs'[k]) == JobKey(jobs[k]) && jobs'[k].payload == jobs[k].payload
  {
    hide Received, KeyOf, FinalHeader;
  }

  /** Where a run of two devices stands for job i. */
  ghost predicate Stands(
    dev: Device, n0: Net, events: seq<Protocol.Event>, n: Net, bytes: nat, max: nat, i: nat,
    received: seq<(seq<byte>, Info)>
  ) {
    && Reaches(dev, n0, events, n, bytes, max, i) && i < |n0.jobs| && bytes >= 35
    && Tallied(received, n.log) && Genuine(received, JobKey(n0.jobs[i]), n0.jobs[i].payload)
  }

  /** A visit of the slot of a job. */
  lemma MineStands(
    dev: Device, n0: Net, events: seq<Protocol.Event>, n: Net, bytes: nat, max: nat, i: nat,
    received: seq<(seq<byte>, Info)>, mine: nat -> bool, k: nat, f: Fate, stale: seq<byte>, response: bool, n': Net
  )
    requires Stands(dev, n0, events, n, bytes, max, i, received) && Alone(dev, n0.jobs, mine, i) && mine(k)
    requires dev.halfDuplex && !dev.router && |stale| == bytes
    requires k < |n.jobs| && n.recent != [] && Visited(dev, n, k, f, stale, response, n', max)
    ensures var e := Attempt(k, f.due, f.canStart, f.frameLost, f.ackLost, f.now, stale);
            var slot := n.jobs[k].slot;
            var heard := Transmits(slot, f) && !f.frameLost;
            var o := Reaction(dev, n.recent, slot.content[..slot.length], stale);
            Stands(dev, n0, events + [e], n', bytes, max, i, received + (if heard then Handed(o) else []))
  {
    var j := n.jobs[k];
    var e := Attempt(k, f.due, f.canStart, f.frameLost, f.ackLost, f.now, stale);
    var o := Reaction(dev, n.recent, j.slot.content[..j.slot.length], stale);
    var key := JobKey(n0.jobs[i]);
    assert OwnKey(dev, n0.jobs, i, e) && EventOk(e, bytes, |n0.jobs|);
    KeyKept(n0.jobs, n.jobs, k);
    hide Reaction, JobKey, KeyOf, RunNet, Step, Runnable, OwnRun, Tallied, Genuine, Accepted, OwnKey, UpdateSlot;
    hide SamePackets, Alone, Protocol.Listens, EventOk;
    ReachesMore(dev, n0, events, n, e, bytes, max, i);
    VisitIsStep(dev, n, k, f, stale, response, n', max);
    if Transmits(j.slot, f) && !f.frameLost {
      assert JobOk(dev, bytes, j);
      AttemptGenuine(dev, n.recent, j, stale);
      PayloadHasInfo(dev, n.recent, j.slot.content[..j.slot.length], stale);
      TalliedMore(dev, n.recent, received, n.log, o);
      GenuineMore(received, o, key, n0.jobs[i].payload);
    } else {
      assert received + [] == received && n.log + [] == n.log;
    }
  }

  /** Other bytes are heard. */
  lemma ForeignStands(
    dev: Device, n0: Net, events: seq<Protocol.Event>, n: Net, bytes: nat, max: nat, i: nat,
    received: seq<(seq<byte>, Info)>, stream: seq<byte>, stale: seq<byte>
  )
    requires Stands(dev, n0, events, n, bytes, max, i, received) && Apart(dev, bytes, stream, JobKey(n0.jobs[i]))
    requires !dev.router && |stale| == bytes && n.recent != []
    ensures var o := Reaction(dev, n.recent, stream, stale);
            && Stands(dev, n0, events + [Foreign(stream, stale)], Arrive(dev, n, stream, stale), bytes, max, i,
                      received + Handed(o))
            && Arrive(dev, n, stream, stale).jobs == n.jobs && Arrive(dev, n, stream, stale).acked == n.acked
            && Arrive(dev, n, stream, stale).recent == o.recent
  {
    var e := Foreign(stream, stale);
    var o := Reaction(dev, n.recent, stream, stale);
    assert OwnKey(dev, n0.jobs, i, e) && EventOk(e, bytes, |n0.jobs|);
    assert Accepted(dev, stream, stale).Some? ==> KeyOf(Accepted(dev, stream, stale).value) != JobKey(n0.jobs[i]);
    hide Reaction, JobKey, KeyOf, RunNet, Runnable, OwnRun, Tallied, Genuine, Accepted, OwnKey, SamePackets, Apart;
    hide Logged, EventOk;
    ReachesMore(dev, n0, events, n, e, bytes, max, i);
    OutcomeInfo(dev, n.recent, stream, stale);
    PayloadHasInfo(dev, n.recent, stream, stale);
    TalliedMore(dev, n.recent, received, n.log, o);
    GenuineMore(received, o, JobKey(n0.jobs[i]), n0.jobs[i].payload);
  }

  // ---------------------------------------------------------------- one update, slot by slot

  /** A slot visited by an update. */
  function VisitedSlot(s: Slot, f: Fate, response: bool, max: nat): (Slot, SendQueue.Event)
    requires |s.content| >= 2
  {
    SlotUpdate(s, MomentOf(f, response), true, true, max)
  }

  /** The slots are fit to be visited. */
  predicate Readable(slots: seq<Slot>) {
    forall k :: 0 <= k < |slots| ==> |slots[k].content| >= 2 && slots[k].length <= |slots[k].content|
  }

  /** The jobs of the network are in the slots that are mine; it has free ones in place of the others. */
  ghost predicate Matches(slots: seq<Slot>, jobs: seq<Job>, mine: nat -> bool) {
    && |slots| == |jobs|
    && forall k :: 0 <= k < |slots| ==> if mine(k) then jobs[k].slot == slots[k] else !Occupied(jobs[k].slot)
  }

  /** The same when the first slots have been visited and heard, and those acknowledged meanwhile. */
  ghost predicate HalfWay(
    slots: seq<Slot>, n1: Net, n: Net, fates: nat -> Fate, responses: seq<bool>, mine: nat -> bool, max: nat
  )
    requires Readable(slots)
  {
    && |n.jobs| == |slots| && |responses| <= |slots|
    && (forall k :: 0 <= k < |slots| ==> HalfSlot(slots[k], n.jobs[k].slot, fates(k), responses, mine(k), k, max))
    && (forall k :: k in n.acked <==> k in n1.acked || NewlyAcked(slots, fates, responses, mine, max, k))
  }

  predicate HalfSlot(
    s: Slot, t: Slot, f: Fate, responses: seq<bool>, mine: bool, k: nat, max: nat
  )
    requires |s.content| >= 2
  {
    if !mine then !Occupied(t) else if k < |responses| then t == VisitedSlot(s, f, responses[k], max).0 else t == s
  }

  predicate NewlyAcked(
    slots: seq<Slot>, fates: nat -> Fate, responses: seq<bool>, mine: nat -> bool, max: nat, k: nat
  )
    requires Readable(slots)
  {
    k < |responses| && k < |slots| && mine(k) && VisitedSlot(slots[k], fates(k), responses[k], max).1 == Acked
  }

  lemma HalfStarts(slots: seq<Slot>, n: Net, fates: nat -> Fate, mine: nat -> bool, max: nat)
    requires Readable(slots) && Matches(slots, n.jobs, mine)
    ensures HalfWay(slots, n, n, fates, [], mine, max)
  {
  }

  /** The slot of a job has been visited. */
  lemma HalfMine(
    slots: seq<Slot>, n1: Net, n: Net, fates: nat -> Fate, responses: seq<bool>, mine: nat -> bool, max: nat,
    response: bool, n': Net
  )
    requires Readable(slots) && HalfWay(slots, n1, n, fates, responses, mine, max)
    requires |responses| < |slots| && mine(|responses|)
    requires var k := |responses|;
             var r := VisitedSlot(slots[k], fates(k), response, max);
             n'.jobs == n.jobs[k := n.jobs[k].(slot := r.0)] && n'.acked == n.acked + if r.1 == Acked then {k} else {}
    ensures HalfWay(slots, n1, n', fates, responses + [response], mine, max)
  {
    var more, m := responses + [response], |responses|;
    hide VisitedSlot;
    forall k | 0 <= k < |slots|
      ensures HalfSlot(slots[k], n'.jobs[k].slot, fates(k), more, mine(k), k, max)
    {
      assert HalfSlot(slots[k], n.jobs[k].slot, fates(k), responses, mine(k), k, max);
    }
    forall k: nat | k != m
      ensures NewlyAcked(slots, fates, more, mine, max, k) <==> NewlyAcked(slots, fates, responses, mine, max, k)
    {
    }
    assert NewlyAcked(slots, fates, more, mine, max, m)
           <==> VisitedSlot(slots[m], fates(m), response, max).1 == Acked;
    assert !NewlyAcked(slots, fates, responses, mine, max, m);
  }

  /** Another slot has been visited. */
  lemma HalfOther(
    slots: seq<Slot>, n1: Net, n: Net, fates: nat -> Fate, responses: seq<bool>, mine: nat -> bool, max: nat,
    response: bool, n': Net
  )
    requires Readable(slots) && HalfWay(slots, n1, n, fates, responses, mine, max)
    requires |responses| < |slots| && !mine(|responses|) && n'.jobs == n.jobs && n'.acked == n.acked
    ensures HalfWay(slots, n1, n', fates, responses + [response], mine, max)
  {
    var more, m := responses + [response], |responses|;
    hide VisitedSlot;
    forall k | 0 <= k < |slots|
      ensures HalfSlot(slots[k], n'.jobs[k].slot, fates(k), more, mine(k), k, max)
    {
      assert HalfSlot(slots[k], n.jobs[k].slot, fates(k), responses, mine(k), k, max);
    }
    forall k: nat
      ensures NewlyAcked(slots, fates, more, mine, max, k) <==> NewlyAcked(slots, fates, responses, mine, max, k)
    {
    }
  }

  /** The other device hears the frame of a slot, if there is one and it is not lost. `response` is what the
      sender gets: for its own packets whether the acknowledgement reaches it. */
  method HearSlot(b: PJON, slot: Slot, mine: bool, f: Fate, cuts: nat -> nat) returns (response: bool)
    requires b.Valid() && slot.length <= |slot.content|
    modifies b.data, b.recentPacketIds, b`responses, b`lastPacketInfo, b`received
    ensures b.Valid() && b.Dev() == old(b.Dev())
    ensures var heard := Transmits(slot, f) && !f.frameLost;
            var o := Reaction(b.Dev(), old(b.recentPacketIds[..]), slot.content[..slot.length], b.data[..]);
            && b.recentPacketIds[..] == (if heard then o.recent else old(b.recentPacketIds[..]))
            && b.received == old(b.received) + (if heard then Handed(o) else [])
            && response == (if mine then heard && o.responded && !f.ackLost else f.answered)
  {
    hide Reaction, Handed;
    response := false;
    if Transmits(slot, f) && !f.frameLost {
      var responded := Hear(b, slot.content[..slot.length], cuts);
      response := responded && !f.ackLost;
    }
    if !mine { response := f.answered; }
  }

  /** The frames an update transmits from the first n slots: what the other device hears is some of these. */
  function Transmitted(slots: seq<Slot>, fates: nat -> Fate, n: nat): seq<seq<byte>>
    requires Readable(slots) && n <= |slots|
  {
    if n == 0 then []
    else
      Transmitted(slots, fates, n - 1)
      + if Transmits(slots[n - 1], fates(n - 1)) then [slots[n - 1].content[..slots[n - 1].length]] else []
  }

  lemma {:induction false} SendsTransmitted(
    slots: seq<Slot>, fates: nat -> Fate, responses: seq<bool>, n: nat
  )
    requires Readable(slots) && n <= |slots|
    ensures Sends(slots, Moments(fates, responses), true, n) == Transmitted(slots, fates, n)
    decreases n
  {
    if n > 0 { SendsTransmitted(slots, fates, responses, n - 1); }
  }

  /** The other slots send nothing that could be taken for the packet of job i. */
  ghost predicate OthersApart(dev: Device, bytes: nat, slots: seq<Slot>, mine: nat -> bool, key: Key)
    requires bytes >= 35 && Readable(slots)
  {
    forall k :: 0 <= k < |slots| && !mine(k) && Occupied(slots[k]) ==>
      Apart(dev, bytes, slots[k].content[..slots[k].length], key)
  }

  /** The network after the visit of slot k, whose frame was heard with this outcome, or not at all. */
  ghost function AfterSlot(
    dev: Device, n: Net, slot: Slot, mine: bool, k: nat, f: Fate, o: Outcome, response: bool, max: nat
  ): Net
    requires |slot.content| >= 2 && k < |n.jobs|
  {
    var heard := Transmits(slot, f) && !f.frameLost;
    var recent := if heard then o.recent else n.recent;
    var log := n.log + if heard then Logged(dev, n.recent, o) else [];
    if mine then
      var r := VisitedSlot(slot, f, response, max);
      Net(n.jobs[k := n.jobs[k].(slot := r.0)], recent, log, n.acked + if r.1 == Acked then {k} else {})
    else Net(n.jobs, recent, log, n.acked)
  }

  /** One slot more. */
  lemma SlotStands(
    dev: Device, n0: Net, events: seq<Protocol.Event>, n1: Net, n: Net, bytes: nat, max: nat, i: nat,
    received: seq<(seq<byte>, Info)>, slots: seq<Slot>, fates: nat -> Fate, responses: seq<bool>, mine: nat -> bool,
    stale: seq<byte>, response: bool
  ) returns (events': seq<Protocol.Event>)
    requires Stands(dev, n0, events, n, bytes, max, i, received) && Alone(dev, n0.jobs, mine, i)
    requires dev.halfDuplex && !dev.router && |stale| == bytes && n.recent != []
    requires Readable(slots) && OthersApart(dev, bytes, slots, mine, JobKey(n0.jobs[i]))
    requires HalfWay(slots, n1, n, fates, responses, mine, max) && |responses| < |slots|
    requires var k := |responses|;
             var heard := Transmits(slots[k], fates(k)) && !fates(k).frameLost;
             var o := Reaction(dev, n.recent, slots[k].content[..slots[k].length], stale);
             response == if mine(k) then heard && o.responded && !fates(k).ackLost else fates(k).answered
    ensures var k := |responses|;
            var heard := Transmits(slots[k], fates(k)) && !fates(k).frameLost;
            var o := Reaction(dev, n.recent, slots[k].content[..slots[k].length], stale);
            var n' := AfterSlot(dev, n, slots[k], mine(k), k, fates(k), o, response, max);
            && Stands(dev, n0, events', n', bytes, max, i, received + if heard then Handed(o) else [])
            && HalfWay(slots, n1, n', fates, responses + [response], mine, max)
  {
    var k := |responses|;
    var slot, f := slots[k], fates(k);
    var o := Reaction(dev, n.recent, slot.content[..slot.length], stale);
    var n' := AfterSlot(dev, n, slot, mine(k), k, f, o, response, max);
    assert HalfSlot(slot, n.jobs[k].slot, f, responses, mine(k), k, max);
    hide Reaction, JobKey, Reaches, Tallied, Genuine, Apart, Logged, SlotUpdate, HalfWay, Handed, Alone;
    if mine(k) {
      HalfMine(slots, n1, n, fates, responses, mine, max, response, n');
      MineStands(dev, n0, events, n, bytes, max, i, received, mine, k, f, stale, response, n');
      events' := events + [Attempt(k, f.due, f.canStart, f.frameLost, f.ackLost, f.now, stale)];
    } else {
      HalfOther(slots, n1, n, fates, responses, mine, max, response, n');
      if Transmits(slot, f) && !f.frameLost {
        var stream := slot.content[..slot.length];
        ForeignStands(dev, n0, events, n, bytes, max, i, received, stream, stale);
        events' := events + [Foreign(stream, stale)];
      } else {
        assert received + [] == received && n.log + [] == n.log;
        events' := events;
      }
    }
  }

  /** The device and its network agree on the records, and it has called its callback with these. */
  ghost predicate Mirrors(b: PJON, n: Net, before: seq<(seq<byte>, Info)>, got: seq<(seq<byte>, Info)>)
    reads b, b.recentPacketIds
  {
    n.recent == b.recentPacketIds[..] && b.received == before + got
  }

  /** The other device hears what an update sends, slot by slot. */
  method HearUpdate(
    b: PJON, slots: seq<Slot>, fates: nat -> Fate, mine: nat -> bool, cuts: nat -> nat, ghost n0: Net,
    ghost events: seq<Protocol.Event>, ghost n1: Net, ghost max: nat, ghost i: nat,
    ghost before: seq<(seq<byte>, Info)>, ghost got: seq<(seq<byte>, Info)>
  ) returns (
      responses: seq<bool>, ghost events': seq<Protocol.Event>, ghost n: Net, ghost got': seq<(seq<byte>, Info)>)
    requires b.Valid() && b.halfDuplex && !b.router && Mirrors(b, n1, before, got)
    requires Stands(b.Dev(), n0, events, n1, b.data.Length, max, i, got) && Alone(b.Dev(), n0.jobs, mine, i)
    requires Readable(slots) && OthersApart(b.Dev(), b.data.Length, slots, mine, JobKey(n0.jobs[i]))
    requires Matches(slots, n1.jobs, mine)
    modifies b.data, b.recentPacketIds, b`responses, b`lastPacketInfo, b`received
    ensures b.Valid() && b.Dev() == old(b.Dev()) && Mirrors(b, n, before, got')
    ensures Stands(b.Dev(), n0, events', n, b.data.Length, max, i, got')
    ensures |responses| == |slots| && HalfWay(slots, n1, n, fates, responses, mine, max)
  {
    ghost var dev, bytes := b.Dev(), b.data.Length;
    HalfStarts(slots, n1, fates, mine, max);
    hide Stands, Alone, OthersApart, HalfWay, Matches, AfterSlot, Reaction, Handed, Transmits;
    responses, events', n, got' := [], events, n1, got;
    while |responses| < |slots|
      invariant b.Valid() && b.Dev() == dev && Mirrors(b, n, before, got')
      invariant Stands(dev, n0, events', n, bytes, max, i, got')
      invariant |responses| <= |slots| && HalfWay(slots, n1, n, fates, responses, mine, max)
      decreases |slots| - |responses|
    {
      var k := |responses|;
      ghost var recent := b.recentPacketIds[..];
      var response := HearSlot(b, slots[k], mine(k), fates(k), cuts);
      ghost var stale := b.data[..];
      events' := SlotStands(dev, n0, events', n1, n, bytes, max, i, got', slots, fates, responses, mine, stale,
                            response);
      n, got' := HeardSlot(dev, n, slots[k], mine(k), k, fates(k), stale, response, max, before, got');
      responses := responses + [response];
    }
  }

  /** The network and the calls after one slot. */
  lemma HeardSlot(
    dev: Device, n: Net, slot: Slot, mine: bool, k: nat, f: Fate, stale: seq<byte>, response: bool, max: nat,
    before: seq<(seq<byte>, Info)>, got: seq<(seq<byte>, Info)>
  ) returns (n': Net, got': seq<(seq<byte>, Info)>)
    requires |slot.content| >= 2 && slot.length <= |slot.content| && k < |n.jobs|
    requires |stale| >= 35 && n.recent != []
    ensures var heard := Transmits(slot, f) && !f.frameLost;
            var o := Reaction(dev, n.recent, slot.content[..slot.length], stale);
            && n' == AfterSlot(dev, n, slot, mine, k, f, o, response, max)
            && n'.recent == (if heard then o.recent else n.recent)
            && got' == got + (if heard then Handed(o) else [])
            && before + got' == (before + got) + (if heard then Handed(o) else [])
  {
    var heard := Transmits(slot, f) && !f.frameLost;
    var o := Reaction(dev, n.recent, slot.content[..slot.length], stale);
    hide Reaction, Handed, Logged, VisitedSlot, Transmits;
    n' := AfterSlot(dev, n, slot, mine, k, f, o, response, max);
    got' := got + if heard then Handed(o) else [];
  }

  // ---------------------------------------------------------------- the queue meanwhile

  /** What a sender can tell of the one-shot packet in slot i: it is still queued, or was acknowledged, or
      its loss was reported. */
  predicate Settled(slots: seq<Slot>, acked: set<nat>, errors: seq<Error>, i: nat) {
    && i < |slots| && (Occupied(slots[i]) ==> slots[i].timing == 0)
    && (Occupied(slots[i]) || i in acked || ConnectionLost(i) in errors)
  }

  /** The moments are those of these fates and responses. */
  ghost predicate Timed(moments: nat -> Moment, fates: nat -> Fate, responses: seq<bool>) {
    forall k :: 0 <= k < |responses| ==> moments(k) == MomentOf(fates(k), responses[k])
  }

  lemma SweptMatches(
    slots: seq<Slot>, n1: Net, n: Net, fates: nat -> Fate, responses: seq<bool>, mine: nat -> bool, max: nat,
    moments: nat -> Moment
  )
    requires Readable(slots) && |responses| == |slots| && HalfWay(slots, n1, n, fates, responses, mine, max)
    requires Timed(moments, fates, responses)
    ensures Matches(Swept(slots, moments, true, true, max, |slots|), n.jobs, mine)
  {
    hide SlotUpdate;
    var swept := Swept(slots, moments, true, true, max, |slots|);
    forall k | 0 <= k < |slots| ensures if mine(k) then n.jobs[k].slot == swept[k] else !Occupied(n.jobs[k].slot) {
      assert HalfSlot(slots[k], n.jobs[k].slot, fates(k), responses, mine(k), k, max);
    }
  }

  lemma SlotSettles(s: Slot, f: Fate, response: bool, max: nat)
    requires |s.content| >= 2 && s.length <= |s.content|
    ensures var (t, event) := VisitedSlot(s, f, response, max);
            && t.content == s.content && t.length <= |t.content|
            && (Occupied(t) ==> Occupied(s) && t.length == s.length && t.timing == s.timing)
            && (Occupied(s) && s.timing == 0 && !Occupied(t) ==> event in {Acked, Lost})
  {
  }

  /** An update of the queue keeps all that, and what the other slots hold. */
  lemma SweptSettles(
    slots: seq<Slot>, n1: Net, n: Net, fates: nat -> Fate, responses: seq<bool>, mine: nat -> bool, max: nat,
    moments: nat -> Moment, errors: seq<Error>, i: nat
  )
    requires Readable(slots) && |responses| == |slots| && HalfWay(slots, n1, n, fates, responses, mine, max)
    requires Timed(moments, fates, responses) && mine(i) && Settled(slots, n1.acked, errors, i)
    ensures Settled(Swept(slots, moments, true, true, max, |slots|), n.acked,
                    errors + Losses(slots, moments, true, true, max, |slots|), i)
  {
    var r := VisitedSlot(slots[i], fates(i), responses[i], max);
    SlotSettles(slots[i], fates(i), responses[i], max);
    assert moments(i) == MomentOf(fates(i), responses[i]);
    assert r == SlotUpdate(slots[i], moments(i), true, true, max);
    assert i in n.acked <==> i in n1.acked || NewlyAcked(slots, fates, responses, mine, max, i);
    QueueRuns.LossesAt(slots, moments, true, max, |slots|, i);
    hide SlotUpdate, HalfSlot, Losses, VisitedSlot, MomentOf;
    assert r.1 == Lost ==> ConnectionLost(i) in Losses(slots, moments, true, true, max, |slots|);
  }

  lemma SweptOthers(
    dev: Device, bytes: nat, slots: seq<Slot>, mine: nat -> bool, key: Key, fates: nat -> Fate, responses: seq<bool>,
    moments: nat -> Moment, max: nat
  )
    requires bytes >= 35 && Readable(slots) && OthersApart(dev, bytes, slots, mine, key)
    requires |responses| == |slots| && Timed(moments, fates, responses)
    ensures var swept := Swept(slots, moments, true, true, max, |slots|);
            Readable(swept) && OthersApart(dev, bytes, swept, mine, key)
  {
    hide SlotUpdate, Apart;
    var swept := Swept(slots, moments, true, true, max, |slots|);
    forall k | 0 <= k < |slots|
      ensures swept[k].content == slots[k].content && swept[k].length <= |swept[k].content|
      ensures Occupied(swept[k]) ==> Occupied(slots[k]) && swept[k].length == slots[k].length
    {
      SlotSettles(slots[k], fates(k), responses[k], max);
    }
  }

  // ---------------------------------------------------------------- two devices

  /** What a run has come to: the events and the network they made, what the callback of the receiver got,
      and what the sender reported. */
  datatype Account = Account(
    events: seq<Protocol.Event>, n: Net, got: seq<(seq<byte>, Info)>, reported: seq<Error>)

  /** A sender whose slots chosen by `mine` hold jobs for the receiver, and the account of both from n0 on. */
  ghost predicate Accounts(
    a: PJON, b: PJON, mine: nat -> bool, i: nat, n0: Net, before: seq<(seq<byte>, Info)>, errors: seq<Error>,
    c: Account
  )
    requires b.Valid() && a.Valid()
    reads a, a.packets, b, b.packets, b.recentPacketIds
  {
    && Stands(b.Dev(), n0, c.events, c.n, b.data.Length, a.maxAttempts, i, c.got) && mine(i)
    && Mirrors(b, c.n, before, c.got) && a.errors == errors + c.reported
    && Matches(a.packets[..], c.n.jobs, mine) && Settled(a.packets[..], c.n.acked, c.reported, i)
    && Readable(a.packets[..]) && OthersApart(b.Dev(), b.data.Length, a.packets[..], mine, JobKey(n0.jobs[i]))
  }

  /** Both devices are as a run needs them, and share no memory. */
  ghost predicate Ready(a: PJON, b: PJON)
    reads a, a.packets, b, b.packets
  {
    && a.Valid() && b.Valid() && a.halfDuplex && a.autoDelete && b.halfDuplex && !b.router && a != b
    && {a.data as object, a.packets as object, a.recentPacketIds as object}
       !! {b.data as object, b.packets as object, b.recentPacketIds as object}
  }

  /** One update of the sender, whose frames the receiver hears or not. */
  method UpdateHeard(
    a: PJON, b: PJON, fates: nat -> Fate, mine: nat -> bool, cuts: nat -> nat, ghost n0: Net, ghost i: nat,
    ghost before: seq<(seq<byte>, Info)>, ghost errors: seq<Error>, ghost c: Account
  ) returns (ghost c': Account)
    requires Ready(a, b) && i < |n0.jobs| && Alone(b.Dev(), n0.jobs, mine, i)
    requires Accounts(a, b, mine, i, n0, before, errors, c)
    modifies a.packets, a`sent, a`errors
    modifies b.data, b.recentPacketIds, b`responses, b`lastPacketInfo, b`received
    ensures Ready(a, b) && b.Dev() == old(b.Dev()) && Accounts(a, b, mine, i, n0, before, errors, c')
    ensures Readable(old(a.packets[..]))
    ensures a.sent == old(a.sent) + Transmitted(old(a.packets[..]), fates, a.packets.Length)
  {
    var slots := a.packets[..];
    ghost var max := a.maxAttempts;
    assert Readable(slots);
    hide Stands, Alone, OthersApart, HalfWay, Matches, Settled, Readable, Mirrors, JobKey, Sends, Transmitted;
    ghost var events, n, got;
    var responses;
    responses, events, n, got := HearUpdate(b, slots, fates, mine, cuts, n0, c.events, c.n, max, i, before, c.got);
    var moments := Moments(fates, responses);
    RoundValues(b.Dev(), b.data.Length, slots, c.n, n, fates, responses, mine, max, moments, c.reported, i,
                JobKey(n0.jobs[i]));
    SendsTransmitted(slots, fates, responses, |slots|);
    c' := SendUpdate(a, b, moments, mine, n0, i, before, errors, Account(events, n, got, c.reported));
  }

  function Moments(fates: nat -> Fate, responses: seq<bool>): nat -> Moment {
    (k: nat) => MomentOf(fates(k), k < |responses| && responses[k])
  }

  lemma RoundValues(
    dev: Device, bytes: nat, slots: seq<Slot>, n1: Net, n: Net, fates: nat -> Fate, responses: seq<bool>,
    mine: nat -> bool, max: nat, moments: nat -> Moment, reported: seq<Error>, i: nat, key: Key
  )
    requires bytes >= 35 && Readable(slots) && OthersApart(dev, bytes, slots, mine, key) && mine(i)
    requires |responses| == |slots| && HalfWay(slots, n1, n, fates, responses, mine, max)
    requires moments == Moments(fates, responses) && Settled(slots, n1.acked, reported, i)
    ensures AfterUpdate(dev, bytes, slots, n, mine, max, moments, reported, i, key)
  {
    assert Timed(moments, fates, responses);
    hide *;
    SweptMatches(slots, n1, n, fates, responses, mine, max, moments);
    SweptSettles(slots, n1, n, fates, responses, mine, max, moments, reported, i);
    SweptOthers(dev, bytes, slots, mine, key, fates, responses, moments, max);
    AfterUpdateIs(dev, bytes, slots, n, mine, max, moments, reported, i, key);
  }

  /** What an update makes of the queue agrees with the network. */
  ghost predicate AfterUpdate(
    dev: Device, bytes: nat, slots: seq<Slot>, n: Net, mine: nat -> bool, max: nat, moments: nat -> Moment,
    reported: seq<Error>, i: nat, key: Key
  )
    requires bytes >= 35 && Readable(slots)
  {
    var swept := Swept(slots, moments, true, true, max, |slots|);
    && Matches(swept, n.jobs, mine) && Readable(swept) && OthersApart(dev, bytes, swept, mine, key)
    && Settled(swept, n.acked, reported + Losses(slots, moments, true, true, max, |slots|), i)
  }

  lemma AfterUpdateIs(
    dev: Device, bytes: nat, slots: seq<Slot>, n: Net, mine: nat -> bool, max: nat, moments: nat -> Moment,
    reported: seq<Error>, i: nat, key: Key
  )
    requires bytes >= 35 && Readable(slots)
    requires var swept := Swept(slots, moments, true, true, max, |slots|);
             && Matches(swept, n.jobs, mine) && Readable(swept) && OthersApart(dev, bytes, swept, mine, key)
             && Settled(swept, n.acked, reported + Losses(slots, moments, true, true, max, |slots|), i)
    ensures AfterUpdate(dev, bytes, slots, n, mine, max, moments, reported, i, key)
  {
    hide Swept, Matches, OthersApart, Settled, Losses;
  }

  /** The sender updates its queue at moments that agree with the network. */
  method SendUpdate(
    a: PJON, b: PJON, moments: nat -> Moment, mine: nat -> bool, ghost n0: Net, ghost i: nat,
    ghost before: seq<(seq<byte>, Info)>, ghost errors: seq<Error>, ghost c: Account
  ) returns (ghost c': Account)
    requires Ready(a, b) && i < |n0.jobs| && mine(i) && a.errors == errors + c.reported
    requires Mirrors(b, c.n, before, c.got)
    requires Stands(b.Dev(), n0, c.events, c.n, b.data.Length, a.maxAttempts, i, c.got)
    requires Readable(a.packets[..])
    requires AfterUpdate(b.Dev(), b.data.Length, a.packets[..], c.n, mine, a.maxAttempts, moments, c.reported, i,
                         JobKey(n0.jobs[i]))
    modifies a.packets, a`sent, a`errors
    ensures Ready(a, b) && b.Dev() == old(b.Dev()) && Accounts(a, b, mine, i, n0, before, errors, c')
    ensures a.sent == old(a.sent) + Sends(old(a.packets[..]), moments, true, a.packets.Length)
  {
    hide Stands, OthersApart, Matches, Settled, Readable, Mirrors, JobKey, Swept, Losses, Sends;
    ghost var losses := Losses(a.packets[..], moments, true, true, a.maxAttempts, a.packets.Length);
    c' := c.(reported := c.reported + losses);
    Reassociate(errors, c.reported, losses);
    var left := UpdateAside(a, b, moments, c.n, before, c.got);
  }

  /** An update of the sender leaves the receiver alone. */
  method UpdateAside(
    a: PJON, b: PJON, moments: nat -> Moment, ghost n: Net, ghost before: seq<(seq<byte>, Info)>,
    ghost got: seq<(seq<byte>, Info)>
  ) returns (left: nat)
    requires Ready(a, b) && Mirrors(b, n, before, got)
    modifies a.packets, a`sent, a`errors
    ensures Ready(a, b) && b.Dev() == old(b.Dev()) && Mirrors(b, n, before, got)
    ensures a.packets[..] == Swept(old(a.packets[..]), moments, true, true, a.maxAttempts, a.packets.Length)
    ensures a.errors == old(a.errors) + Losses(old(a.packets[..]), moments, true, true, a.maxAttempts,
                                               a.packets.Length)
    ensures a.sent == old(a.sent) + Sends(old(a.packets[..]), moments, true, a.packets.Length)
  {
    hide Swept, Losses, Sends, Count;
    left := a.Update(moments);
  }

  /** Other bytes reach the receiver. */
  method NoiseHeard(
    a: PJON, b: PJON, stream: seq<byte>, mine: nat -> bool, cuts: nat -> nat, ghost n0: Net, ghost i: nat,
    ghost before: seq<(seq<byte>, Info)>, ghost errors: seq<Error>, ghost c: Account
  ) returns (ghost c': Account)
    requires Ready(a, b) && i < |n0.jobs| && Accounts(a, b, mine, i, n0, before, errors, c)
    requires Apart(b.Dev(), b.data.Length, stream, JobKey(n0.jobs[i]))
    modifies b.data, b.recentPacketIds, b`responses, b`lastPacketInfo, b`received
    ensures Ready(a, b) && b.Dev() == old(b.Dev()) && Accounts(a, b, mine, i, n0, before, errors, c')
  {
    ghost var dev, recent, got, key := b.Dev(), b.recentPacketIds[..], c.got, JobKey(n0.jobs[i]);
    hide Stands, OthersApart, Matches, Settled, Readable, JobKey, Reaction, Handed, Apart, Arrive;
    var responded := Hear(b, stream, cuts);
    ghost var stale := b.data[..];
    ghost var o := Reaction(dev, recent, stream, stale);
    ForeignStands(dev, n0, c.events, c.n, |stale|, a.maxAttempts, i, got, stream, stale);
    Reassociate(before, got, Handed(o));
    c' := c.(events := c.events + [Foreign(stream, stale)], n := Arrive(dev, c.n, stream, stale),
             got := got + Handed(o));
  }

  datatype Act = Pass(fates: nat -> Fate) | Noise(stream: seq<byte>)

  /** The sender's queue holds these jobs for the receiver, job i a one-shot packet whose key is its own and
      not on record; nothing else that may reach the receiver has that key. */
  ghost predicate Begins(a: PJON, b: PJON, jobs: seq<Job>, mine: nat -> bool, i: nat, acts: seq<Act>)
    requires Ready(a, b)
    reads a, a.packets, b, b.packets, b.recentPacketIds
  {
    && i < |jobs| && Matches(a.packets[..], jobs, mine) && JobsOk(b.Dev(), b.data.Length, jobs)
    && Alone(b.Dev(), jobs, mine, i) && Occupied(jobs[i].slot) && jobs[i].slot.timing == 0
    && !HasKey(b.recentPacketIds[..], JobKey(jobs[i])) && Readable(a.packets[..])
    && OthersApart(b.Dev(), b.data.Length, a.packets[..], mine, JobKey(jobs[i]))
    && forall k :: 0 <= k < |acts| && acts[k].Noise? ==>
         Apart(b.Dev(), b.data.Length, acts[k].stream, JobKey(jobs[i]))
  }

  lemma RunBegins(dev: Device, n0: Net, bytes: nat, max: nat, i: nat)
    requires n0.recent != [] && bytes >= 35 && JobsOk(dev, bytes, n0.jobs) && max < 255 && i < |n0.jobs|
    requires n0.log == []
    ensures Stands(dev, n0, [], n0, bytes, max, i, [])
  {
    hide JobsOk, JobKey;
  }

  /** What a run comes to for job i. */
  lemma RunEnds(
    dev: Device, n0: Net, events: seq<Protocol.Event>, n: Net, bytes: nat, max: nat, i: nat,
    got: seq<(seq<byte>, Info)>, slots: seq<Slot>, reported: seq<Error>
  )
    requires Stands(dev, n0, events, n, bytes, max, i, got) && !dev.router && dev.halfDuplex
    requires n0.log == [] && n0.acked == {} && !HasKey(n0.recent, JobKey(n0.jobs[i]))
    requires Settled(slots, n.acked, reported, i)
    ensures var calls := Calls(got, JobKey(n0.jobs[i]));
            && (!Occupied(slots[i]) && ConnectionLost(i) !in reported ==> calls != [])
            && (forall p :: p in calls ==> p == n0.jobs[i].payload)
            && (WithinWindow(n.log, JobKey(n0.jobs[i]), |n0.recent|) ==> |calls| <= 1)
  {
    hide JobKey, RunNet, Runnable, OwnRun, HasKey, Calls, Deliveries, WithinWindow, FilterLaw, SamePackets;
    LossyDelivery(dev, n0, events, bytes, max, i);
    assert |Calls(got, JobKey(n0.jobs[i]))| == Deliveries(n.log, JobKey(n0.jobs[i]));
  }

  /** The devices themselves deliver over a lossy medium. Take any updates of the sender, frames and
      acknowledgements lost at will, the medium busy at will, and any other bytes in between. If the
      packet in slot i has left the queue and no loss was reported for that slot, the callback of the
      receiver got it. Whatever the callback got under its key is its payload; and as long as its copies
      stay within the window of recorded ids, the callback got it at most once. */
  method RunDevices(
    a: PJON, b: PJON, acts: seq<Act>, mine: nat -> bool, cuts: nat -> nat, ghost jobs: seq<Job>, ghost i: nat
  ) returns (ghost c: Account)
    requires Ready(a, b) && Begins(a, b, jobs, mine, i, acts)
    modifies a.packets, a`sent, a`errors
    modifies b.data, b.recentPacketIds, b`responses, b`lastPacketInfo, b`received
    ensures Ready(a, b) && b.Dev() == old(b.Dev())
    ensures b.received == old(b.received) + c.got && a.errors == old(a.errors) + c.reported
    ensures i < a.packets.Length
    ensures var calls := Calls(c.got, JobKey(jobs[i]));
            && (!Occupied(a.packets[i]) && ConnectionLost(i) !in c.reported ==> calls != [])
            && (forall p :: p in calls ==> p == jobs[i].payload)
            && (WithinWindow(c.n.log, JobKey(jobs[i]), b.recentPacketIds.Length) ==> |calls| <= 1)
    ensures Reaches(b.Dev(), Net(jobs, old(b.recentPacketIds[..]), [], {}), c.events, c.n, b.data.Length,
                    a.maxAttempts, i)
  {
    ghost var dev, n0 := b.Dev(), Net(jobs, b.recentPacketIds[..], [], {});
    ghost var before, errors := b.received, a.errors;
    ghost var bytes, max := b.data.Length, a.maxAttempts;
    RunBegins(dev, n0, bytes, max, i);
    c := Account([], n0, [], []);
    assert Settled(a.packets[..], {}, [], i) && Accounts(a, b, mine, i, n0, before, errors, c);
    assert forall k :: 0 <= k < |acts| && acts[k].Noise? ==> Apart(dev, bytes, acts[k].stream, JobKey(jobs[i]));
    assert !HasKey(n0.recent, JobKey(jobs[i])) && Alone(dev, jobs, mine, i);
    hide Stands, Accounts, JobKey, Alone, Apart, HasKey, Begins, Ready;
    for k := 0 to |acts|
      invariant Ready(a, b) && b.Dev() == dev && Accounts(a, b, mine, i, n0, before, errors, c)
    {
      match acts[k]
      case Pass(fates) => c := UpdateHeard(a, b, fates, mine, cuts, n0, i, before, errors, c);
      case Noise(stream) => c := NoiseHeard(a, b, stream, mine, cuts, n0, i, before, errors, c);
    }
    AccountsEnd(a, b, mine, i, n0, before, errors, c);
  }

  lemma AccountsEnd(
    a: PJON, b: PJON, mine: nat -> bool, i: nat, n0: Net, before: seq<(seq<byte>, Info)>, errors: seq<Error>,
    c: Account
  )
    requires Ready(a, b) && Accounts(a, b, mine, i, n0, before, errors, c) && i < |n0.jobs|
    requires n0.log == [] && n0.acked == {} && !HasKey(n0.recent, JobKey(n0.jobs[i]))
    ensures b.received == before + c.got && a.errors == errors + c.reported && i < a.packets.Length
    ensures var calls := Calls(c.got, JobKey(n0.jobs[i]));
            && (!Occupied(a.packets[i]) && ConnectionLost(i) !in c.reported ==> calls != [])
            && (forall p :: p in calls ==> p == n0.jobs[i].payload)
            && (WithinWindow(c.n.log, JobKey(n0.jobs[i]), |n0.recent|) ==> |calls| <= 1)
    ensures Reaches(b.Dev(), n0, c.events, c.n, b.data.Length, a.maxAttempts, i)
  {
    RunEnds(b.Dev(), n0, c.events, c.n, b.data.Length, a.maxAttempts, i, c.got, a.packets[..], c.reported);
    hide Reaches, Matches, OthersApart, Readable, Tallied, Genuine, JobKey, HasKey, Calls, WithinWindow;
    assert a.packets[..][i] == a.packets[i];
  }
}
