/** Whole runs of the LocalFile processes: locked writes and polls of any number of readers, in any
    order, against one content file. The ring refines an unbounded log with one cursor a reader. */
module LocalFileRuns {
  import opened Words
  import opened LocalFileLog

  datatype Event = Write(record: Record, ok: bool) | Poll(reader: nat, out: Option<Record>)

  datatype System = System(file: File, read: seq<uint16>)

  ghost predicate Init(s: System, n: nat) {
    && s.file.last == 0
    && |s.file.index| == |s.file.records| == n
    && (forall i :: 0 <= i < n ==> s.file.index[i] == 0)
    && forall j :: 0 <= j < |s.read| ==> s.read[j] == 0
  }

  ghost predicate Step(s: System, e: Event, s': System) {
    && |s.file.index| == |s.file.records| <= NOT_ASSIGNED
    && match e
       case Write(record, ok) => WriteStep(s.file, record, s'.file, ok) && s'.read == s.read
       case Poll(j, out) =>
         && j < |s.read| && |s'.read| == |s.read|
         && s' == System(s.file, s.read[j := s'.read[j]])
         && PollStep(s.file, s.read[j], s'.read[j], out)
  }

  ghost predicate Run(states: seq<System>, events: seq<Event>, n: nat) {
    && |states| == |events| + 1
    && Init(states[0], n)
    && forall i :: 0 <= i < |events| ==> Step(states[i], events[i], states[i + 1])
  }

  // ---------------------------------------------------------------- the unbounded log

  function Append(log: seq<Record>, e: Event): seq<Record> {
    if e.Write? then log + [e.record] else log
  }

  /** All records ever written, in order. */
  function Log(events: seq<Event>): seq<Record> {
    if events == [] then [] else Append(Log(events[..|events| - 1]), events[|events| - 1])
  }

  datatype Cursor = Fresh | At(p: nat)

  /** Number of the log record a poll consumes: a first poll starts at the oldest retained record
      (see FirstRead), a later one goes on, or resumes at the oldest record retained. */
  function Consumes(c: Cursor, k: nat, n: nat): Option<nat>
    requires n >= 2
  {
    match c
    case Fresh => if k == 0 then None else Some(FirstRead(k, n))
    case At(p) => if p < k then Some(Next(k, n, p)) else None
  }

  /** How one event moves the cursor of reader j over a log of k records. */
  function Advance(c: Cursor, e: Event, j: nat, k: nat, n: nat): Cursor
    requires n >= 2
  {
    if e.Poll? && e.reader == j && Consumes(c, k, n).Some? then At(Consumes(c, k, n).value) else c
  }

  function CursorAfter(events: seq<Event>, j: nat, n: nat): (c: Cursor)
    requires n >= 2
    ensures c.At? ==> 1 <= c.p <= |Log(events)|
  {
    if events == [] then Fresh
    else
      var before := events[..|events| - 1];
      Advance(CursorAfter(before, j, n), events[|events| - 1], j, |Log(before)|, n)
  }

  /** What a poll at cursor c of the unbounded log returns. */
  function LogRead(log: seq<Record>, c: Cursor, n: nat): Option<Record>
    requires n >= 2 && (c.At? ==> c.p >= 1)
  {
    match Consumes(c, |log|, n)
    case None => None
    case Some(r) => Some(log[r - 1])
  }

  /** Reader j polls only while the code can still tell what is unread. */
  ghost predicate StaysInRange(events: seq<Event>, j: nat, n: nat)
    requires n >= 2
  {
    forall i :: 0 <= i < |events| && events[i].Poll? && events[i].reader == j ==>
      var c := CursorAfter(events[..i], j, n);
      c.At? ==> InRange(|Log(events[..i])|, n, c.p)
  }

  /** Reader j never falls more than N records behind when it polls. */
  ghost predicate KeepsUp(events: seq<Event>, j: nat, n: nat)
    requires n >= 2
  {
    forall i :: 0 <= i < |events| && events[i].Poll? && events[i].reader == j ==>
      var c := CursorAfter(events[..i], j, n);
      c.At? ==> |Log(events[..i])| <= c.p + n
  }

  predicate Tracks(read: uint16, c: Cursor) {
    match c
    case Fresh => read == 0
    case At(p) => read == IdOf(p)
  }

  // ---------------------------------------------------------------- refinement

  lemma RingStep(s: System, log: seq<Record>, e: Event, s': System)
    requires Ring(s.file, log) && Step(s, e, s')
    ensures Ring(s'.file, Append(log, e)) && |s'.file.index| == |s.file.index|
    ensures |s'.read| == |s.read| && (e.Write? ==> e.ok)
  {
    if e.Write? { WriteAppends(s.file, log, e.record, s'.file, e.ok); }
  }

  lemma TrackStep(s: System, log: seq<Record>, c: Cursor, e: Event, s': System, j: nat)
    requires Ring(s.file, log) && Step(s, e, s') && j < |s.read|
    requires Tracks(s.read[j], c) && (c.At? ==> 1 <= c.p <= |log|)
    requires e.Poll? && e.reader == j && c.At? ==> InRange(|log|, |s.file.index|, c.p)
    ensures j < |s'.read| && Tracks(s'.read[j], Advance(c, e, j, |log|, |s.file.index|))
    ensures e.Poll? && e.reader == j ==> e.out == LogRead(log, c, |s.file.index|)
  {
    if e.Poll? && e.reader == j {
      match c
      case Fresh => FirstPoll(s.file, log, s'.read[j], e.out);
      case At(p) => PollReadsNext(s.file, log, p, s'.read[j], e.out);
    }
  }

  lemma InitRing(s: System, n: nat)
    requires Init(s, n) && 2 <= n <= NOT_ASSIGNED
    ensures Ring(s.file, [])
  {
    forall i | 0 <= i < n ensures SlotHolds(s.file, [], i) { }
  }

  lemma PrefixRun(states: seq<System>, events: seq<Event>, n: nat)
    requires Run(states, events, n) && events != []
    ensures Run(states[..|events|], events[..|events| - 1], n)
  {
  }

  /** In every reachable state the file is the ring of the whole log, whatever the readers do, and
      every write has succeeded. */
  lemma {:induction false} RingOfLog(states: seq<System>, events: seq<Event>, n: nat)
    requires Run(states, events, n) && 2 <= n <= NOT_ASSIGNED
    ensures var s := states[|events|];
            Ring(s.file, Log(events)) && |s.file.index| == n && |s.read| == |states[0].read|
    ensures events != [] && events[|events| - 1].Write? ==> events[|events| - 1].ok
  {
    var m := |events| - 1;
    if m < 0 {
      InitRing(states[0], n);
    } else {
      PrefixRun(states, events, n);
      RingOfLog(states[..m + 1], events[..m], n);
      RingStep(states[m], Log(events[..m]), events[m], states[m + 1]);
    }
  }

  lemma PrefixInRange(events: seq<Event>, j: nat, n: nat, m: nat)
    requires n >= 2 && m <= |events| && StaysInRange(events, j, n)
    ensures StaysInRange(events[..m], j, n)
  {
    forall i | 0 <= i < m ensures events[..m][..i] == events[..i] { }
  }

  /** As long as reader j stays in range, each of its polls returns what a cursor over the unbounded
      log returns, across every wrap of the ids: stated for the last event of any run. */
  lemma {:induction false} RingRefinesLog(states: seq<System>, events: seq<Event>, n: nat, j: nat)
    requires Run(states, events, n) && 2 <= n <= NOT_ASSIGNED && j < |states[0].read|
    requires StaysInRange(events, j, n)
    ensures j < |states[|events|].read| && Tracks(states[|events|].read[j], CursorAfter(events, j, n))
    ensures events != [] ==>
              var before, e := events[..|events| - 1], events[|events| - 1];
              e.Poll? && e.reader == j ==> e.out == LogRead(Log(before), CursorAfter(before, j, n), n)
  {
    var m := |events| - 1;
    if m >= 0 {
      PrefixRun(states, events, n);
      PrefixInRange(events, j, n, m);
      RingOfLog(states[..m + 1], events[..m], n);
      RingRefinesLog(states[..m + 1], events[..m], n, j);
      TrackStep(states[m], Log(events[..m]), CursorAfter(events[..m], j, n), events[m], states[m + 1], j);
    }
  }

  // ---------------------------------------------------------------- nothing lost, nothing repeated

  /** Everything reader j has been given, in order. */
  function Delivered(events: seq<Event>, j: nat): seq<Record> {
    if events == [] then []
    else
      Give(Delivered(events[..|events| - 1], j), events[|events| - 1], j)
  }

  /** How many records were already written and are never given to reader j. */
  function Origin(events: seq<Event>, j: nat, n: nat): nat
    requires n >= 2
  {
    if events == [] then 0
    else
      var before, e := events[..|events| - 1], events[|events| - 1];
      if CursorAfter(before, j, n).At? then Origin(before, j, n)
      else if e.Poll? && e.reader == j && |Log(before)| > 0 then FirstRead(|Log(before)|, n) - 1
      else 0
  }

  lemma KeepsUpInRange(events: seq<Event>, j: nat, n: nat)
    requires 2 <= n && KeepsUp(events, j, n)
    ensures StaysInRange(events, j, n)
    ensures forall m :: 0 <= m <= |events| ==> KeepsUp(events[..m], j, n)
  {
    forall i | 0 <= i < |events| && events[i].Poll? && events[i].reader == j
      ensures var c := CursorAfter(events[..i], j, n);
              c.At? ==> InRange(|Log(events[..i])|, n, c.p)
    {
      var c := CursorAfter(events[..i], j, n);
      if c.At? { LagBound(|Log(events[..i])|, n, c.p); }
    }
    forall m, i | 0 <= i < m <= |events| ensures events[..m][..i] == events[..i] { }
  }

  predicate GivenStretch(given: seq<Record>, log: seq<Record>, c: Cursor, origin: nat) {
    match c
    case Fresh => given == []
    case At(p) => origin <= p <= |log| && given == log[origin..p]
  }

  /** What one event adds to the records given to reader j. */
  function Give(given: seq<Record>, e: Event, j: nat): seq<Record> {
    if e.Poll? && e.reader == j && e.out.Some? then given + [e.out.value] else given
  }

  lemma StretchStep(given: seq<Record>, log: seq<Record>, c: Cursor, origin: nat, e: Event, j: nat, n: nat)
    requires n >= 2 && GivenStretch(given, log, c, origin) && (c.At? ==> c.p >= 1)
    requires e.Poll? && e.reader == j && c.At? ==> |log| <= c.p + n
    requires e.Poll? && e.reader == j ==> e.out == LogRead(log, c, n)
    requires c.Fresh? && e.Poll? && e.reader == j && |log| > 0 ==> origin == FirstRead(|log|, n) - 1
    ensures GivenStretch(Give(given, e, j), Append(log, e), Advance(c, e, j, |log|, n), origin)
  {
    if e.Write? && c.At? {
      assert (log + [e.record])[origin..c.p] == log[origin..c.p];
    }
  }

  /** The main guarantee: a reader that never falls more than N records behind has been given
      exactly one gapless stretch of the log, in order, from its first record up to its cursor. */
  lemma {:induction false} NothingLostNothingRepeated(
    states: seq<System>, events: seq<Event>, n: nat, j: nat
  )
    requires Run(states, events, n) && 2 <= n <= NOT_ASSIGNED && j < |states[0].read|
    requires KeepsUp(events, j, n)
    ensures GivenStretch(Delivered(events, j), Log(events), CursorAfter(events, j, n), Origin(events, j, n))
  {
    var m := |events| - 1;
    if m >= 0 {
      KeepsUpInRange(events, j, n);
      RingRefinesLog(states, events, n, j);
      PrefixRun(states, events, n);
      var before, e := events[..m], events[m];
      NothingLostNothingRepeated(states[..m + 1], before, n, j);
      StretchStep(Delivered(before, j), Log(before), CursorAfter(before, j, n), Origin(events, j, n), e, j, n);
    }
  }

  lemma {:induction false} UnfilledRingOrigin(events: seq<Event>, j: nat, n: nat)
    requires n >= 2 && |Log(events)| <= n
    ensures Origin(events, j, n) == 0
  {
    if events != [] { UnfilledRingOrigin(events[..|events| - 1], j, n); }
  }

  /** A reader that polls at least once while the ring holds records and has not yet overwritten any
      is given the log from its very first record. */
  lemma {:induction false} EarlyReaderGetsAll(events: seq<Event>, j: nat, n: nat, i: nat)
    requires n >= 2 && i < |events| && events[i].Poll? && events[i].reader == j
    requires 0 < |Log(events[..i])| <= n
    ensures CursorAfter(events, j, n).At? && Origin(events, j, n) == 0
  {
    var m := |events| - 1;
    var before := events[..m];
    if i < m {
      assert before[..i] == events[..i];
      EarlyReaderGetsAll(before, j, n, i);
    } else {
      UnfilledRingOrigin(before, j, n);
    }
  }
}
