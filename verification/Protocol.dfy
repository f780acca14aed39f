/** Retransmission over a lossy medium: queued packets are sent until acknowledged or given up, frames
    and acknowledgements get lost, other traffic arrives, and the receiver filters duplicates. */
module Protocol {
  import opened Words
  import opened Packets
  import opened PacketCodec
  import opened PacketTools
  import opened Reception
  import opened SendQueue

  // ---------------------------------------------------------------- what a receiver sees

  /** The info a receiver reads from a packet composed under header h, its unused fields at their
      defaults. */
  function Received(info: Info, h: byte): Info {
    Info(
      Endpoint(if HasTx(h) then info.tx.id else NOT_ASSIGNED,
               if Shared(h) && HasTx(h) then info.tx.busId else LOCALHOST,
               if HasMac(h) then info.tx.mac else NO_MAC),
      Endpoint(info.rx.id, if Shared(h) then info.rx.busId else LOCALHOST, if HasMac(h) then info.rx.mac else NO_MAC),
      h,
      if Shared(h) then info.hops else 0,
      if HasId(h) then info.id else 0,
      if HasPort(h) then info.port else NO_PORT)
  }

  /** Every reception of a composed packet, whatever else is in the buffer, has the same effect on the
      duplicate filter and on delivery. */
  lemma SameConclusion(dev: Device, recent: seq<Record>, info: Info, h: byte, parsed: Info, payload: seq<byte>)
    requires Carries(info, h, parsed) && recent != []
    ensures var o, o' := Conclude(dev, recent, true, parsed, payload),
                         Conclude(dev, recent, true, Received(info, h), payload);
            o.code == o'.code && o.payload == o'.payload && o.recent == o'.recent
  {
    hide Shared, HasTx, HasMac, HasId, HasPort;
    assert RecordOf(parsed) == RecordOf(Received(info, h)) && KeyOf(parsed) == KeyOf(Received(info, h));
  }

  /** A frame sent from a slot that holds a composed packet, when it is not lost, is read completely by a
      device it is addressed to, acknowledged, and then judged as the fields composed. */
  lemma AttemptArrives(dev: Device, recent: seq<Record>, j: Job, stale: seq<byte>)
    requires JobOk(dev, |stale|, j) && Occupied(j.slot) && recent != [] && |stale| >= 35
    requires dev.halfDuplex && !dev.router
    ensures j.slot.length <= |j.slot.content|
    ensures var h := FinalHeader(j.packet, |j.payload|);
            var o := Reaction(dev, recent, j.slot.content[..j.slot.length], stale);
            var o' := Conclude(dev, recent, true, Received(j.packet, h), j.payload);
            && o.responded && o.code == o'.code && o.payload == o'.payload && o.recent == o'.recent
            && o.info.Some? && o.info == Accepted(dev, j.slot.content[..j.slot.length], stale)
            && KeyOf(o.info.value) == JobKey(j) && HasId(o.info.value.header)
            && o.info.value.port == Received(j.packet, h).port
  {
    var p, payload, n := j.packet, j.payload, j.slot.length;
    var h := FinalHeader(p, |payload|);
    hide FinalHeader, PacketLength, Packet, Latched, Passes, Addressed, Judge, Conclude, Parsed, Carries;
    hide AckRequested, Received, HasId, Read, KeyOf, HeaderCrcOk, TrailerOk, MacOk, Overhead, CrcOverhead, HasCrc32;
    ComposedLength(p, payload);
    PrefixIs(Packet(p, payload), j.slot.content);
    var frame := j.slot.content[..n];
    assert frame == Packet(p, payload);
    AddressedPasses(dev, p, h);
    ComposedRead(dev, p, payload, frame, |stale|);
    var buffer := Filled(frame, stale, n);
    FilledFront(frame, stale);
    ComposedJudged(dev, recent, p, payload, buffer);
    SameConclusion(dev, recent, p, h, Parsed(buffer), payload);
    ConcludeResponds(dev, recent, true, Parsed(buffer), payload);
    SameKey(p, h, Parsed(buffer));
    var r, l := ReactionIs(dev, recent, frame, stale);
  }

  lemma PrefixIs(p: seq<byte>, content: seq<byte>)
    requires p <= content
    ensures content[..|p|] == p
  {
  }

  lemma FilledFront(frame: seq<byte>, stale: seq<byte>)
    requires |frame| <= |stale|
    ensures frame <= Filled(frame, stale, |frame|)
  {
  }

  lemma SameKey(info: Info, h: byte, parsed: Info)
    requires Carries(info, h, parsed)
    ensures KeyOf(parsed) == KeyOf(Received(info, h)) && parsed.header == h && parsed.port == Received(info, h).port
  {
    hide Shared, HasTx, HasMac, HasId, HasPort;
  }

  lemma AddressedPasses(dev: Device, info: Info, h: byte)
    requires Addressed(dev, info, h)
    ensures Passes(dev, info, h)
  {
  }

  // ---------------------------------------------------------------- the network

  /** A queued packet: its slot, and what was composed into it. */
  datatype Job = Job(slot: Slot, packet: Info, payload: seq<byte>)

  /** One packet accepted by the receiver: its key, whether the filter applied, whether it was recorded
      as new, and whether the callback got it. */
  datatype Entry = Entry(key: Key, filtered: bool, saved: bool, delivered: bool)

  datatype Net = Net(jobs: seq<Job>, recent: seq<Record>, log: seq<Entry>, acked: set<nat>)

  /** An update of a slot, during which frame and acknowledgement may be lost; or any other bytes
      reaching the receiver, intact, damaged or cut short. `stale` is what its buffer held before. */
  datatype Event =
    | Attempt(job: nat, due: bool, canStart: bool, frameLost: bool, ackLost: bool, now: nat, stale: seq<byte>)
    | Foreign(stream: seq<byte>, stale: seq<byte>)

  /** The job's slot, unless it is free, holds the packet composed, which asks this device, with a buffer of
      this size, for an acknowledgement and carries an id. Every slot a packet was dispatched to is one; see
      DispatchedIsJob. */
  predicate JobOk(dev: Device, bytes: nat, j: Job) {
    Occupied(j.slot) ==>
      var h := FinalHeader(j.packet, |j.payload|);
      && |j.payload| >= 1 && Sized(j.packet, |j.payload|) && !Latched(j.packet, |j.payload|)
      && PacketLength(j.packet, |j.payload|) < bytes
      && Packet(j.packet, j.payload) <= j.slot.content
      && AckRequested(h) && HasId(h) && Addressed(dev, j.packet, h)
      && j.slot.state != ACK && j.slot.length == PacketLength(j.packet, |j.payload|)
  }

  predicate JobsOk(dev: Device, bytes: nat, jobs: seq<Job>) {
    forall i :: 0 <= i < |jobs| ==> JobOk(dev, bytes, jobs[i])
  }

  function JobKey(j: Job): Key {
    KeyOf(Received(j.packet, FinalHeader(j.packet, |j.payload|)))
  }

  /** What dispatching leaves in a slot is a job, for every device the packet is addressed to. */
  lemma DispatchedIsJob(
    dev: Device, bytes: nat, packet: Info, payload: seq<byte>, before: seq<byte>, slot: Slot
  )
    requires |payload| >= 1 && Sized(packet, |payload|) && !Latched(packet, |payload|)
    requires PacketLength(packet, |payload|) < bytes && ComposedInto(slot.content, before, packet, payload)
    requires slot.length == PacketLength(packet, |payload|) && slot.state == TO_BE_SENT
    requires var h := FinalHeader(packet, |payload|); AckRequested(h) && HasId(h) && Addressed(dev, packet, h)
    ensures JobOk(dev, bytes, Job(slot, packet, payload))
  {
    hide FinalHeader, PacketLength, Packet, Latched, Addressed, ComposedInto, AckRequested, HasId, Sized;
    ComposedIntoPrefix(slot.content, before, packet, payload);
  }

  predicate EventOk(e: Event, bytes: nat, jobs: nat) {
    |e.stale| == bytes && (e.Attempt? ==> e.job < jobs)
  }

  ghost function Logged(dev: Device, recent: seq<Record>, o: Outcome): seq<Entry> {
    if o.info == None then []
    else
      var filtered := !dev.router && HasId(o.info.value.header);
      [Entry(KeyOf(o.info.value), filtered, filtered && !Known(recent, o.info.value), o.payload.Some?)]
  }

  /** What an accepted packet with this info does to the receiver. */
  ghost function Noted(dev: Device, n: Net, info: Info, payload: seq<byte>): Net
    requires n.recent != []
  {
    var o := Conclude(dev, n.recent, true, info, payload);
    n.(recent := o.recent, log := n.log + Logged(dev, n.recent, o))
  }

  lemma ArriveIs(dev: Device, n: Net, stream: seq<byte>, stale: seq<byte>) returns (payload: seq<byte>)
    requires n.recent != [] && |stale| >= 35
    ensures Arrive(dev, n, stream, stale) == match Accepted(dev, stream, stale)
                                             case None => n
                                             case Some(info) => Noted(dev, n, info, payload)
  {
    var responded;
    responded, payload := ReactionIs(dev, n.recent, stream, stale);
    hide Accepted, Reaction, Known, HasId, KeyOf;
    assert n.log + [] == n.log;
  }

  ghost function Arrive(dev: Device, n: Net, stream: seq<byte>, stale: seq<byte>): Net
    requires n.recent != [] && |stale| >= 35
  {
    var o := Reaction(dev, n.recent, stream, stale);
    n.(recent := o.recent, log := n.log + Logged(dev, n.recent, o))
  }

  ghost function Step(dev: Device, n: Net, e: Event, bytes: nat, max: nat): Net
    requires n.recent != [] && bytes >= 35 && JobsOk(dev, bytes, n.jobs) && EventOk(e, bytes, |n.jobs|)
  {
    match e
    case Foreign(stream, stale) => Arrive(dev, n, stream, stale)
    case Attempt(i, due, canStart, frameLost, ackLost, now, stale) =>
      var j := n.jobs[i];
      if !Occupied(j.slot) || !due then n
      else
        JobFrame(dev, bytes, j);
        var frame := j.slot.content[..j.slot.length];
        var arrives := canStart && !frameLost;
        var n' := if arrives then Arrive(dev, n, frame, stale) else n;
        var response := arrives && Reaction(dev, n.recent, frame, stale).responded && !ackLost;
        var code := SendCode(j.slot.content, true, canStart, response);
        var (slot, event) := UpdateSlot(j.slot, due, code, true, now, max);
        n'.(jobs := n'.jobs[i := n'.jobs[i].(slot := slot)], acked := n'.acked + if event == Acked then {i} else {})
  }

  /** The bytes of a job: its frame is the packet, addressed to one device and asking for an
      acknowledgement. */
  lemma JobFrame(dev: Device, bytes: nat, j: Job)
    requires JobOk(dev, bytes, j) && Occupied(j.slot)
    ensures |j.slot.content| >= 2 && j.slot.length <= |j.slot.content|
    ensures j.slot.content[0] != BROADCAST && AckRequested(j.slot.content[1])
  {
    hide FinalHeader, PacketLength, Packet, Latched, Addressed, AckRequested, HasId, StoredLength, HeaderCrcOk;
    ComposedFront(j.packet, j.payload, j.slot.content);
    ComposedLength(j.packet, j.payload);
    FinalHeaderBits(j.packet, |j.payload|);
  }

  // ---------------------------------------------------------------- the duplicate filter

  /** Number of packets recorded as new since the one with this key was last recorded. */
  function Since(log: seq<Entry>, key: Key): Option<nat> {
    if log == [] then None
    else
      var e := log[|log| - 1];
      if e.saved && e.key == key then Some(0)
      else
        match Since(log[..|log| - 1], key)
        case None => None
        case Some(n) => Some(if e.saved then n + 1 else n)
  }

  ghost predicate HasKey(recent: seq<Record>, key: Key) {
    exists i :: 0 <= i < |recent| && RecordKey(recent[i]) == key
  }

  /** A key recorded `since` records ago sits that many places from the front, unless it was pushed
      out. */
  ghost predicate PlaceHolds(recent: seq<Record>, key: Key, since: Option<nat>) {
    match since
    case None => !HasKey(recent, key)
    case Some(n) =>
      if n < |recent| then
        RecordKey(recent[n]) == key && forall i :: 0 <= i < |recent| && i != n ==> RecordKey(recent[i]) != key
      else !HasKey(recent, key)
  }

  /** The records hold this key exactly when fewer packets than there are records have been recorded as
      new since; and then it sits that many places from the front. */
  ghost predicate FilterHolds(recent: seq<Record>, log: seq<Entry>, key: Key) {
    PlaceHolds(recent, key, Since(log, key))
  }

  lemma KnownIsHasKey(recent: seq<Record>, info: Info)
    ensures Known(recent, info) <==> HasKey(recent, KeyOf(info))
  {
    hide KeyOf, RecordKey;
  }

  lemma SinceStep(log: seq<Entry>, e: Entry, key: Key)
    ensures Since(log + [e], key)
            == if e.saved && e.key == key then Some(0)
               else if Since(log, key) == None then None
               else Some(Since(log, key).value + if e.saved then 1 else 0)
  {
    assert (log + [e])[..|log|] == log;
  }

  /** Recording a new packet moves every record one place back and drops the last. */
  lemma SaveShifts(recent: seq<Record>, info: Info, i: nat)
    requires recent != [] && i < |recent|
    ensures |Save(recent, info)| == |recent|
    ensures Save(recent, info)[i] == if i == 0 then RecordOf(info) else recent[i - 1]
  {
  }

  /** The filter does what it should on every packet noted. */
  lemma FilterStep(recent: seq<Record>, log: seq<Entry>, info: Info, e: Entry, key: Key)
    requires recent != [] && FilterHolds(recent, log, key)
    requires e.key == KeyOf(info) && (e.saved ==> !Known(recent, info))
    ensures var recent' := if e.saved then Save(recent, info) else recent;
            |recent'| == |recent| && FilterHolds(recent', log + [e], key)
  {
    SinceStep(log, e, key);
    KnownIsHasKey(recent, info);
    assert RecordKey(RecordOf(info)) == KeyOf(info);
    hide Known, HasKey, KeyOf, RecordKey, RecordOf, Save, PlaceHolds, Since;
    if e.saved { SavedFilter(recent, info, key, Since(log, key), Since(log + [e], key)); }
  }

  lemma SavedFilter(recent: seq<Record>, info: Info, key: Key, since: Option<nat>, since': Option<nat>)
    requires recent != [] && !HasKey(recent, KeyOf(info)) && RecordKey(RecordOf(info)) == KeyOf(info)
    requires PlaceHolds(recent, key, since)
    requires since' == (if KeyOf(info) == key then Some(0) else if since == None then None else Some(since.value + 1))
    ensures |Save(recent, info)| == |recent| && PlaceHolds(Save(recent, info), key, since')
  {
    hide KeyOf, RecordKey, RecordOf, Save;
    var recent' := Save(recent, info);
    SaveShifts(recent, info, 0);
    forall i | 0 <= i < |recent| ensures recent'[i] == if i == 0 then RecordOf(info) else recent[i - 1] {
      SaveShifts(recent, info, i);
    }
  }

  // ---------------------------------------------------------------- delivery

  /** How often the callback got a packet with this key through the filter. */
  function Deliveries(log: seq<Entry>, key: Key): nat {
    if log == [] then 0
    else
      var e := log[|log| - 1];
      Deliveries(log[..|log| - 1], key) + if e.key == key && e.filtered && e.delivered then 1 else 0
  }

  /** A copy of the packet with this key is taken for a new packet. */
  predicate TakenAsNew(log: seq<Entry>, i: nat, key: Key, records: nat)
    requires i < |log|
  {
    var since := Since(log[..i], key);
    since == None || since.value >= records
  }

  /** What the filter promises for the packets with one key: each copy that arrives is handed over if
      and only if it is the first, or at least as many other packets were recorded as new since the
      last time as there are records. */
  ghost predicate FilterLaw(log: seq<Entry>, key: Key, records: nat) {
    forall i :: 0 <= i < |log| && log[i].key == key && log[i].filtered ==>
      (log[i].saved <==> TakenAsNew(log, i, key, records)) && log[i].delivered == log[i].saved
  }

  /** No copy arrives after so much other new traffic that its record has been pushed out. */
  ghost predicate WithinWindow(log: seq<Entry>, key: Key, records: nat) {
    forall i :: 0 <= i < |log| && log[i].key == key && log[i].filtered ==>
      var since := Since(log[..i], key);
      since == None || since.value < records
  }

  /** Only filtered entries are ever recorded. */
  predicate SavesFiltered(log: seq<Entry>) {
    forall i :: 0 <= i < |log| && log[i].saved ==> log[i].filtered
  }

  lemma {:induction false} AtMostOnce(log: seq<Entry>, key: Key, records: nat)
    requires FilterLaw(log, key, records) && WithinWindow(log, key, records) && SavesFiltered(log)
    ensures Deliveries(log, key) == if Since(log, key) == None then 0 else 1
  {
    var m := |log| - 1;
    if m >= 0 {
      var before := log[..m];
      forall i | 0 <= i < m ensures before[i] == log[i] && before[..i] == log[..i] { }
      assert forall i :: 0 <= i < m ==> TakenAsNew(before, i, key, records) == TakenAsNew(log, i, key, records);
      AtMostOnce(before, key, records);
      if log[m].key == key && log[m].filtered { assert log[m].saved <==> TakenAsNew(log, m, key, records); }
    }
  }

  /** The packets of one job, and no others the receiver accepts, carry its key; and the receiver listens
      to their port. */
  ghost predicate OwnKey(dev: Device, jobs: seq<Job>, i: nat, e: Event)
    requires i < |jobs|
  {
    match e
    case Foreign(stream, stale) =>
      |stale| >= 35
      && (Accepted(dev, stream, stale).Some? ==> KeyOf(Accepted(dev, stream, stale).value) != JobKey(jobs[i]))
    case Attempt(k, _, _, _, _, _, _) =>
      k < |jobs| && (k != i ==> JobKey(jobs[k]) != JobKey(jobs[i])) && Listens(dev, jobs[i])
  }

  predicate Listens(dev: Device, j: Job) {
    dev.port == NO_PORT || dev.port == Received(j.packet, FinalHeader(j.packet, |j.payload|)).port
  }

  /** The records and the log agree about this key, and the filter has done what it promises. */
  ghost predicate Recorded(recent: seq<Record>, log: seq<Entry>, key: Key) {
    FilterHolds(recent, log, key) && FilterLaw(log, key, |recent|) && SavesFiltered(log)
  }

  /** What holds of job i in every reachable state. */
  ghost predicate JobHolds(n: Net, i: nat, key: Key) {
    && i < |n.jobs| && JobKey(n.jobs[i]) == key
    && Recorded(n.recent, n.log, key)
    && (i in n.acked ==> Since(n.log, key) != None)
  }

  lemma ArriveLogs(dev: Device, n: Net, info: Info, payload: seq<byte>, key: Key)
    requires n.recent != [] && Recorded(n.recent, n.log, key) && !dev.router
    requires KeyOf(info) == key ==> HasId(info.header) && (dev.port == NO_PORT || dev.port == info.port)
    ensures var n' := Noted(dev, n, info, payload);
            && |n'.recent| == |n.recent|
            && Recorded(n'.recent, n'.log, key)
            && (KeyOf(info) == key || Since(n.log, key) != None ==> Since(n'.log, key) != None)
  {
    var n' := Noted(dev, n, info, payload);
    var e := n'.log[|n.log|];
    hide FilterHolds, FilterLaw, HasKey, Known, KeyOf, HasId, RecordKey, Since, Noted, Conclude, SavesFiltered, Save;
    NotedEntry(dev, n, info, payload, key);
    FilterStep(n.recent, n.log, info, e, key);
    SinceStep(n.log, e, key);
    LawStep(n.log, e, key, |n.recent|);
    SavesStep(n.log, e);
  }

  /** What is noted of a packet, and of one with this key in particular. */
  lemma NotedEntry(dev: Device, n: Net, info: Info, payload: seq<byte>, key: Key)
    requires n.recent != [] && FilterHolds(n.recent, n.log, key) && !dev.router
    requires KeyOf(info) == key ==> HasId(info.header) && (dev.port == NO_PORT || dev.port == info.port)
    ensures var n' := Noted(dev, n, info, payload);
            && |n'.log| == |n.log| + 1 && n'.log == n.log + [n'.log[|n.log|]]
            && var e := n'.log[|n.log|];
               && e.key == KeyOf(info) && (e.saved ==> e.filtered && !Known(n.recent, info))
               && n'.recent == (if e.saved then Save(n.recent, info) else n.recent)
               && (e.key == key ==> e.filtered && e.delivered == e.saved)
               && (e.key == key ==> (e.saved <==> Since(n.log, key) == None || Since(n.log, key).value >= |n.recent|))
  {
    hide KeyOf, RecordKey, HasId, Since;
    KnownIsHasKey(n.recent, info);
  }

  lemma SavesStep(log: seq<Entry>, e: Entry)
    requires SavesFiltered(log) && (e.saved ==> e.filtered)
    ensures SavesFiltered(log + [e])
  {
  }

  lemma LawStep(log: seq<Entry>, e: Entry, key: Key, records: nat)
    requires FilterLaw(log, key, records)
    requires e.key == key && e.filtered ==>
               (e.saved <==> Since(log, key) == None || Since(log, key).value >= records) && e.delivered == e.saved
    ensures FilterLaw(log + [e], key, records)
  {
    var more, m := log + [e], |log|;
    hide Since;
    assert more[..m] == log;
    forall i | 0 <= i < |more| && more[i].key == key && more[i].filtered
      ensures (more[i].saved <==> TakenAsNew(more, i, key, records)) && more[i].delivered == more[i].saved
    {
      if i < m {
        assert more[i] == log[i] && more[..i] == log[..i];
        assert TakenAsNew(more, i, key, records) == TakenAsNew(log, i, key, records);
      }
    }
  }

  /** A copy of job k that arrives. */
  lemma CopyArrives(dev: Device, n: Net, k: nat, stale: seq<byte>, key: Key)
    requires n.recent != [] && |stale| >= 35 && k < |n.jobs| && JobOk(dev, |stale|, n.jobs[k])
    requires Occupied(n.jobs[k].slot) && dev.halfDuplex && !dev.router
    requires Recorded(n.recent, n.log, key)
    requires JobKey(n.jobs[k]) == key ==> Listens(dev, n.jobs[k])
    ensures n.jobs[k].slot.length <= |n.jobs[k].slot.content|
    ensures var frame := n.jobs[k].slot.content[..n.jobs[k].slot.length];
            var n' := Arrive(dev, n, frame, stale);
            && Reaction(dev, n.recent, frame, stale).responded
            && |n'.recent| == |n.recent| && n'.jobs == n.jobs && n'.acked == n.acked
            && Recorded(n'.recent, n'.log, key)
            && (JobKey(n.jobs[k]) == key || Since(n.log, key) != None ==> Since(n'.log, key) != None)
  {
    var j := n.jobs[k];
    AttemptArrives(dev, n.recent, j, stale);
    hide JobOk, Reaction, Conclude, Recorded, Since, Accepted, KeyOf, HasId, FinalHeader;
    hide Received;
    var frame := j.slot.content[..j.slot.length];
    var payload := ArriveIs(dev, n, frame, stale);
    ArriveLogs(dev, n, Accepted(dev, frame, stale).value, payload, key);
  }

  lemma AttemptSlot(dev: Device, bytes: nat, j: Job, due: bool, canStart: bool, response: bool, now: nat, max: nat)
    requires JobOk(dev, bytes, j) && max < 255 && Occupied(j.slot) && due
    ensures |j.slot.content| >= 2
    ensures var code := SendCode(j.slot.content, true, canStart, response);
            var r := UpdateSlot(j.slot, due, code, true, now, max);
            JobOk(dev, bytes, j.(slot := r.0)) && (r.1 == Acked ==> canStart && response)
  {
    JobFrame(dev, bytes, j);
    hide AckRequested, HasId, FinalHeader, PacketLength, Packet, Latched, Addressed, Sized;
  }

  lemma StepHolds(dev: Device, n: Net, e: Event, bytes: nat, max: nat, i: nat, key: Key)
    requires n.recent != [] && bytes >= 35 && JobsOk(dev, bytes, n.jobs) && EventOk(e, bytes, |n.jobs|) && max < 255
    requires JobHolds(n, i, key) && OwnKey(dev, n.jobs, i, e) && !dev.router && dev.halfDuplex
    ensures JobHolds(Step(dev, n, e, bytes, max), i, key)
  {
    match e
    case Foreign(stream, stale) =>
      hide Recorded, Since, KeyOf, JobKey, Accepted, Arrive, Noted;
      var payload := ArriveIs(dev, n, stream, stale);
      NotedKeeps(dev, n, stream, stale, payload);
      if Accepted(dev, stream, stale).Some? {
        ArriveLogs(dev, n, Accepted(dev, stream, stale).value, payload, key);
      }
    case Attempt(k, due, canStart, frameLost, ackLost, now, stale) =>
      AttemptHolds(dev, n, k, due, canStart, frameLost, ackLost, now, stale, max, i, key);
  }

  lemma NotedKeeps(dev: Device, n: Net, stream: seq<byte>, stale: seq<byte>, payload: seq<byte>)
    requires n.recent != [] && |stale| >= 35
    ensures var n' := Arrive(dev, n, stream, stale); n'.jobs == n.jobs && n'.acked == n.acked
  {
    hide Reaction, Logged;
  }

  lemma AttemptHolds(
    dev: Device, n: Net, k: nat, due: bool, canStart: bool, frameLost: bool, ackLost: bool, now: nat,
    stale: seq<byte>, max: nat, i: nat, key: Key
  )
    requires n.recent != [] && |stale| >= 35 && JobsOk(dev, |stale|, n.jobs) && k < |n.jobs| && max < 255
    requires !dev.router && dev.halfDuplex && JobHolds(n, i, key)
    requires OwnKey(dev, n.jobs, i, Attempt(k, due, canStart, frameLost, ackLost, now, stale))
    ensures JobHolds(Step(dev, n, Attempt(k, due, canStart, frameLost, ackLost, now, stale), |stale|, max), i, key)
  {
    var j := n.jobs[k];
    assert JobOk(dev, |stale|, j);
    hide JobOk, UpdateSlot, SendCode, Reaction, Recorded, Since, Arrive, Listens, JobKey, Occupied, JobHolds;
    JobRecorded(n, i, key);
    if Occupied(j.slot) && due {
      var arrives := canStart && !frameLost;
      JobFrame(dev, |stale|, j);
      var frame := j.slot.content[..j.slot.length];
      var response := arrives && Reaction(dev, n.recent, frame, stale).responded && !ackLost;
      AttemptSlot(dev, |stale|, j, due, canStart, response, now, max);
      if arrives { CopyArrives(dev, n, k, stale, key); }
      var n' := if arrives then Arrive(dev, n, frame, stale) else n;
      var (slot, event) := UpdateSlot(j.slot, due, SendCode(j.slot.content, true, canStart, response), true, now, max);
      SlotAside(n, n', k, slot, event == Acked, i, key);
    }
  }

  lemma JobRecorded(n: Net, i: nat, key: Key)
    requires JobHolds(n, i, key)
    ensures i < |n.jobs| && JobKey(n.jobs[i]) == key && Recorded(n.recent, n.log, key)
  {
  }

  /** Changing the slot of job k, once its copy has arrived or not. */
  lemma SlotAside(n: Net, n': Net, k: nat, slot: Slot, acked: bool, i: nat, key: Key)
    requires JobHolds(n, i, key) && k < |n.jobs| && n'.jobs == n.jobs && n'.acked == n.acked
    requires Recorded(n'.recent, n'.log, key) && (Since(n.log, key) != None ==> Since(n'.log, key) != None)
    requires acked && k == i ==> Since(n'.log, key) != None
    ensures JobHolds(n'.(jobs := n'.jobs[k := n'.jobs[k].(slot := slot)],
                         acked := n'.acked + if acked then {k} else {}), i, key)
  {
    hide Recorded, Since, KeyOf, Received, FinalHeader;
  }

  /** A run can start here. */
  predicate Runnable(dev: Device, n: Net, events: seq<Event>, bytes: nat, max: nat) {
    && n.recent != [] && bytes >= 35 && JobsOk(dev, bytes, n.jobs) && max < 255
    && forall k :: 0 <= k < |events| ==> EventOk(events[k], bytes, |n.jobs|)
  }

  ghost predicate OwnRun(dev: Device, jobs: seq<Job>, i: nat, events: seq<Event>) {
    i < |jobs| && forall k :: 0 <= k < |events| ==> OwnKey(dev, jobs, i, events[k])
  }

  ghost function RunNet(dev: Device, n: Net, events: seq<Event>, bytes: nat, max: nat): Net
    requires Runnable(dev, n, events, bytes, max)
    decreases |events|
  {
    if events == [] then n
    else
      StepKeepsJobs(dev, n, events[0], bytes, max);
      RunNet(dev, Step(dev, n, events[0], bytes, max), events[1..], bytes, max)
  }

  lemma StepKeepsJobs(dev: Device, n: Net, e: Event, bytes: nat, max: nat)
    requires n.recent != [] && bytes >= 35 && JobsOk(dev, bytes, n.jobs) && EventOk(e, bytes, |n.jobs|) && max < 255
    ensures var n' := Step(dev, n, e, bytes, max);
            && |n'.recent| == |n.recent| && JobsOk(dev, bytes, n'.jobs) && |n'.jobs| == |n.jobs|
            && forall k :: 0 <= k < |n.jobs| ==>
                 n'.jobs[k].packet == n.jobs[k].packet && n'.jobs[k].payload == n.jobs[k].payload
  {
    hide JobOk, UpdateSlot, SendCode, Arrive, Reaction;
    match e
    case Foreign(stream, stale) =>
      ArriveKeeps(dev, n, stream, stale);
    case Attempt(i, due, canStart, frameLost, ackLost, now, stale) =>
      var j := n.jobs[i];
      if Occupied(j.slot) && due {
        JobFrame(dev, bytes, j);
        var frame := j.slot.content[..j.slot.length];
        ArriveKeeps(dev, n, frame, stale);
        AttemptSlot(dev, bytes, j, due, canStart,
                    canStart && !frameLost && Reaction(dev, n.recent, frame, stale).responded && !ackLost, now, max);
      }
  }

  lemma ArriveKeeps(dev: Device, n: Net, stream: seq<byte>, stale: seq<byte>)
    requires n.recent != [] && |stale| >= 35
    ensures var n' := Arrive(dev, n, stream, stale);
            |n'.recent| == |n.recent| && n'.jobs == n.jobs && n'.acked == n.acked
  {
    var payload := ArriveIs(dev, n, stream, stale);
    hide Accepted, Reaction, HasId, Known, Logged;
  }

  /** The invariant holds over every run. */
  lemma {:induction false} RunHolds(
    dev: Device, n: Net, events: seq<Event>, bytes: nat, max: nat, i: nat, key: Key
  )
    requires Runnable(dev, n, events, bytes, max) && !dev.router && dev.halfDuplex
    requires JobHolds(n, i, key) && OwnRun(dev, n.jobs, i, events)
    ensures JobHolds(RunNet(dev, n, events, bytes, max), i, key)
    ensures |RunNet(dev, n, events, bytes, max).recent| == |n.recent|
    decreases |events|
  {
    if events != [] {
      var n' := Step(dev, n, events[0], bytes, max);
      StepKeepsJobs(dev, n, events[0], bytes, max);
      StepHolds(dev, n, events[0], bytes, max, i, key);
      hide Step, JobHolds, Accepted, Listens, OwnKey;
      forall k | 0 <= k < |events| - 1 ensures OwnKey(dev, n'.jobs, i, events[1..][k]) {
        assert OwnKey(dev, n.jobs, i, events[k + 1]);
        OwnKeyStays(dev, n.jobs, n'.jobs, i, events[k + 1]);
      }
      RunHolds(dev, n', events[1..], bytes, max, i, key);
    }
  }

  lemma OwnKeyStays(dev: Device, jobs: seq<Job>, jobs': seq<Job>, i: nat, e: Event)
    requires i < |jobs| == |jobs'| && OwnKey(dev, jobs, i, e)
    requires forall k :: 0 <= k < |jobs| ==>
               jobs'[k].packet == jobs[k].packet && jobs'[k].payload == jobs[k].payload
    ensures OwnKey(dev, jobs', i, e)
  {
    hide Received, KeyOf, Accepted, FinalHeader;
  }

  /** A key on the log was delivered. */
  lemma {:induction false} RecordedIsDelivered(log: seq<Entry>, key: Key, records: nat)
    requires FilterLaw(log, key, records) && SavesFiltered(log) && Since(log, key) != None
    ensures Deliveries(log, key) >= 1
  {
    var m := |log| - 1;
    var before := log[..m];
    if !(log[m].saved && log[m].key == key) {
      forall i | 0 <= i < m ensures before[i] == log[i] && before[..i] == log[..i] { }
      assert forall i :: 0 <= i < m ==> TakenAsNew(before, i, key, records) == TakenAsNew(log, i, key, records);
      RecordedIsDelivered(before, key, records);
    }
  }

  /** The retransmission protocol over a lossy medium. Take any run: frames and acknowledgements lost at
      will, the medium busy at will, any other bytes reaching the receiver in between. A packet whose key
      is its own and was not on record at the start obeys the filter law. If the sender saw it
      acknowledged, the callback got it; and if its copies stay within the window of recorded ids, the
      callback got it at most once. */
  lemma LossyDelivery(dev: Device, n: Net, events: seq<Event>, bytes: nat, max: nat, i: nat)
    requires Runnable(dev, n, events, bytes, max) && !dev.router && dev.halfDuplex
    requires OwnRun(dev, n.jobs, i, events)
    requires n.log == [] && n.acked == {} && !HasKey(n.recent, JobKey(n.jobs[i]))
    ensures var key, end := JobKey(n.jobs[i]), RunNet(dev, n, events, bytes, max);
            && FilterLaw(end.log, key, |n.recent|)
            && (i in end.acked ==> Deliveries(end.log, key) >= 1)
            && (WithinWindow(end.log, key, |n.recent|) ==> Deliveries(end.log, key) <= 1)
  {
    var key, end := JobKey(n.jobs[i]), RunNet(dev, n, events, bytes, max);
    JobStarts(n, i);
    RunHolds(dev, n, events, bytes, max, i, key);
    hide *;
    DeliveredIs(end, i, key);
  }

  lemma JobStarts(n: Net, i: nat)
    requires i < |n.jobs| && n.log == [] && n.acked == {} && !HasKey(n.recent, JobKey(n.jobs[i]))
    ensures JobHolds(n, i, JobKey(n.jobs[i]))
  {
    hide HasKey, JobKey;
  }

  lemma DeliveredIs(n: Net, i: nat, key: Key)
    requires JobHolds(n, i, key)
    ensures FilterLaw(n.log, key, |n.recent|) && (i in n.acked ==> Deliveries(n.log, key) >= 1)
    ensures WithinWindow(n.log, key, |n.recent|) ==> Deliveries(n.log, key) <= 1
  {
    hide JobKey;
    if i in n.acked { RecordedIsDelivered(n.log, key, |n.recent|); }
    if WithinWindow(n.log, key, |n.recent|) { AtMostOnce(n.log, key, |n.recent|); }
  }
}
