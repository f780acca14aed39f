/** The resumable search of switches and routers, whose position is a byte: when the delivery loop makes
    all its visits, and what becomes of it otherwise. */
module Searching {
  import opened Words
  import opened Packets
  import opened Routing

  // ---------------------------------------------------------------- one lookup

  lemma {:induction false} AttachedSplits(buses: seq<Bus>, id: BusId, k: nat)
    requires AttachedVisits(buses, id, k) != []
    ensures var first := AttachedVisits(buses, id, k)[0];
            && k <= first < |buses|
            && AttachedVisits(buses, id, k) == [first] + AttachedVisits(buses, id, first + 1)
    decreases |buses| - k
  {
    if buses[k].tx.busId != id { AttachedSplits(buses, id, k + 1); }
  }

  lemma {:induction false} TableSplits(table: seq<Route>, id: BusId, k: nat)
    ensures var m := Matching(table, id, k);
            if m == [] then TableVisits(table, id, k) == []
            else
              && k <= m[0] < |table| && table[m[0]].busId == id
              && (forall e :: k <= e < m[0] ==> table[e].busId != id)
              && TableVisits(table, id, k)
                 == if table[m[0]].via == NO_BUS then [] else [table[m[0]].via] + TableVisits(table, id, m[0] + 1)
    decreases |table| - k
  {
    if k < |table| && table[k].busId != id { TableSplits(table, id, k + 1); }
  }

  /** A lookup finds the first of what remains and resumes behind it. */
  lemma LookupSplits(s: State, id: BusId, start: nat)
    requires |s.buses| < NO_BUS
    ensures var f := FindWide(s, id, start);
            if f.found == NO_BUS then Remaining(s, id, start) == []
            else
              && start < f.next <= |s.buses| + |s.table|
              && Remaining(s, id, start) == [f.found] + Remaining(s, id, f.next)
  {
    if AttachedVisits(s.buses, id, start) != [] { LookupAttached(s, id, start); } else { LookupInTable(s, id, start); }
  }

  lemma LookupAttached(s: State, id: BusId, start: nat)
    requires |s.buses| < NO_BUS && AttachedVisits(s.buses, id, start) != []
    ensures var f := FindWide(s, id, start);
            && f.found < NO_BUS && start < f.next <= |s.buses|
            && Remaining(s, id, start) == [f.found] + Remaining(s, id, f.next)
  {
    var first := AttachedVisits(s.buses, id, start)[0];
    AttachedSplits(s.buses, id, start);
    assert AttachedVisits(s.buses, id, |s.buses|) == [];
    hide AttachedVisits, TableVisits, Matching;
    Reassociate([first], AttachedVisits(s.buses, id, first + 1), TableVisits(s.table, id, 0));
    Reassociate([], [], TableVisits(s.table, id, 0));
  }

  lemma LookupInTable(s: State, id: BusId, start: nat)
    requires |s.buses| < NO_BUS && AttachedVisits(s.buses, id, start) == []
    ensures var f := FindWide(s, id, start);
            if f.found == NO_BUS then Remaining(s, id, start) == []
            else
              && start < f.next <= |s.buses| + |s.table|
              && Remaining(s, id, start) == [f.found] + Remaining(s, id, f.next)
  {
    TableSplits(s.table, id, if start < |s.buses| then 0 else start - |s.buses|);
    hide AttachedVisits, TableVisits, Matching;
    Reassociate([], [], TableVisits(s.table, id, 0));
  }

  // ---------------------------------------------------------------- the delivery loop

  /** The buses the rounds of the delivery loop look at, from a position on; None if the loop is not over
      after so many rounds. */
  function Rounds(setup: Setup, s: State, id: BusId, start: nat, rounds: nat): Option<seq<nat>>
    decreases rounds
  {
    if rounds == 0 then None
    else
      var f := Find(s, id, start);
      var bus := if f.found == NO_BUS then setup.gateway else f.found;
      if f.next == NO_BUS then Some([bus])
      else
        match Rounds(setup, s, id, f.next, rounds - 1)
        case None => None
        case Some(visits) => Some([bus] + visits)
  }

  /** Entry e matches, and no match up to it leads nowhere: the search can get there. */
  predicate Reached(s: State, id: BusId, e: nat) {
    && e < |s.table| && s.table[e].busId == id
    && forall k :: 0 <= k <= e && s.table[k].busId == id ==> s.table[k].via != NO_BUS
  }

  /** The position behind every entry the search can reach is still below 255. */
  predicate Complete(s: State, id: BusId) {
    forall e :: 0 <= e < |s.table| && Reached(s, id, e) ==> |s.buses| + e + 1 < NO_BUS
  }

  /** No match before this position leads nowhere. */
  predicate Open(s: State, id: BusId, start: nat) {
    forall k :: 0 <= k < |s.table| && |s.buses| + k < start && s.table[k].busId == id ==> s.table[k].via != NO_BUS
  }

  lemma RoomyIsComplete(s: State, id: BusId)
    requires |s.buses| + |s.table| < NO_BUS
    ensures Complete(s, id)
  {
  }

  /** Where a lookup resumes: behind an attached bus, or behind an entry the search can reach. */
  lemma LookupReaches(s: State, id: BusId, start: nat)
    requires |s.buses| < NO_BUS && Open(s, id, start) && FindWide(s, id, start).found != NO_BUS
    ensures var next := FindWide(s, id, start).next;
            && Open(s, id, next)
            && (next <= |s.buses| || Reached(s, id, next - |s.buses| - 1))
            && forall e :: 0 <= e < |s.table| && Reached(s, id, e) && start <= |s.buses| + e ==>
                 next <= |s.buses| + e + 1
  {
    if AttachedVisits(s.buses, id, start) != [] { AttachedSplits(s.buses, id, start); }
    TableSplits(s.table, id, if start < |s.buses| then 0 else start - |s.buses|);
    hide AttachedVisits, TableVisits, Matching;
  }

  /** While an entry that can be reached lies ahead, lookups find something. */
  lemma ReachedIsFound(s: State, id: BusId, start: nat, e: nat)
    requires |s.buses| < NO_BUS && Reached(s, id, e) && start <= |s.buses| + e
    ensures FindWide(s, id, start).found != NO_BUS
  {
    var from := if start < |s.buses| then 0 else start - |s.buses|;
    AttachedVisitsAttached(s.buses, id, start);
    TableSplits(s.table, id, from);
    MatchingExact(s.table, id, from);
    assert e in Matching(s.table, id, from);
    hide AttachedVisits, TableVisits, Matching;
  }

  // ---------------------------------------------------------------- when the loop makes all its visits

  /** With every position below 255 the loop makes exactly its visits. */
  lemma {:induction false} RoundsComplete(setup: Setup, s: State, id: BusId, start: nat)
    requires |s.buses| < NO_BUS && Complete(s, id) && Open(s, id, start)
    requires start <= |s.buses| + |s.table| && start < NO_BUS
    ensures Rounds(setup, s, id, start, |s.buses| + |s.table| + 1 - start)
            == Some(Remaining(s, id, start) + [setup.gateway])
    decreases |s.buses| + |s.table| - start
  {
    var f := FindWide(s, id, start);
    LookupSplits(s, id, start);
    if f.found != NO_BUS {
      LookupReaches(s, id, start);
      hide FindWide, Remaining, Reached, Open;
      assert f.next < NO_BUS;
      RoundsComplete(setup, s, id, f.next);
      RoundsEnough(setup, s, id, f.next, |s.buses| + |s.table| + 1 - f.next, |s.buses| + |s.table| - start);
      Reassociate([f.found], Remaining(s, id, f.next), [setup.gateway]);
    } else {
      assert [] + [setup.gateway] == [setup.gateway];
    }
  }

  /** Rounds to spare change nothing. */
  lemma {:induction false} RoundsEnough(setup: Setup, s: State, id: BusId, start: nat, n: nat, m: nat)
    requires n <= m && Rounds(setup, s, id, start, n).Some?
    ensures Rounds(setup, s, id, start, m) == Rounds(setup, s, id, start, n)
    decreases n
  {
    hide Find;
    var f := Find(s, id, start);
    if f.next != NO_BUS { RoundsEnough(setup, s, id, f.next, n - 1, m - 1); }
  }

  /** Entry e is the first one that can be reached whose position is not below 255. */
  predicate Offending(s: State, id: BusId, e: nat) {
    && Reached(s, id, e) && |s.buses| + e + 1 >= NO_BUS
    && forall k :: 0 <= k < e && Reached(s, id, k) ==> |s.buses| + k + 1 < NO_BUS
  }

  /** A lookup before the offending entry finds it, or stays before it. */
  lemma LookupBefore(s: State, id: BusId, start: nat, e: nat)
    requires |s.buses| < NO_BUS && |s.table| <= 255 && Offending(s, id, e) && Open(s, id, start)
    requires start <= |s.buses| + e && start < NO_BUS
    ensures var f := FindWide(s, id, start);
            && f.found != NO_BUS && Open(s, id, f.next)
            && (f.next == |s.buses| + e + 1 || (f.next < NO_BUS && f.next <= |s.buses| + e))
            && Remaining(s, id, start) == [f.found] + Remaining(s, id, f.next)
            && Find(s, id, start) == Lookup(f.found, f.next % 256)
  {
    ReachedIsFound(s, id, start, e);
    LookupReaches(s, id, start);
    LookupSplits(s, id, start);
    hide FindWide, Remaining, Open, Reached;
  }

  /** At 255 the loop is over with the offending entry, short of what remains and of the gateway. */
  lemma {:induction false} EndsEarly(setup: Setup, s: State, id: BusId, start: nat, e: nat, rounds: nat)
    requires |s.buses| < NO_BUS && |s.table| <= 255 && Offending(s, id, e) && |s.buses| + e + 1 == NO_BUS
    requires Open(s, id, start) && start <= |s.buses| + e && start < NO_BUS
    ensures match Rounds(setup, s, id, start, rounds)
            case None => true
            case Some(visits) => |visits| <= |Remaining(s, id, start)| && visits <= Remaining(s, id, start)
    decreases rounds
  {
    if rounds > 0 {
      LookupBefore(s, id, start, e);
      hide Find, FindWide, Remaining, Offending, Open;
      var f := FindWide(s, id, start);
      if f.next < NO_BUS { EndsEarly(setup, s, id, f.next, e, rounds - 1); }
    }
  }

  /** Past 255 the position starts again and the loop never ends. */
  lemma {:induction false} NeverEnds(setup: Setup, s: State, id: BusId, start: nat, e: nat, rounds: nat)
    requires |s.buses| < NO_BUS && |s.table| <= 255 && Offending(s, id, e) && |s.buses| + e + 1 > NO_BUS
    requires Open(s, id, start) && start <= |s.buses| + e && start < NO_BUS
    ensures Rounds(setup, s, id, start, rounds) == None
    decreases rounds
  {
    if rounds > 0 {
      LookupBefore(s, id, start, e);
      var f := FindWide(s, id, start);
      var next := f.next % 256;
      if f.next < NO_BUS {
        hide FindWide, Offending, Open;
        NeverEnds(setup, s, id, f.next, e, rounds - 1);
      } else {
        assert next == |s.buses| + e + 1 - 256 < |s.buses|;
        hide FindWide, Offending;
        NeverEnds(setup, s, id, next, e, rounds - 1);
      }
    }
  }

  lemma FirstOffending(s: State, id: BusId) returns (e: nat)
    requires !Complete(s, id)
    ensures Offending(s, id, e)
  {
    hide Reached;
    e := 0;
    while !(Reached(s, id, e) && |s.buses| + e + 1 >= NO_BUS)
      invariant e <= |s.table|
      invariant forall k :: 0 <= k < e && Reached(s, id, k) ==> |s.buses| + k + 1 < NO_BUS
      decreases |s.table| - e
    {
      e := e + 1;
    }
  }

  /** The loop makes exactly its visits if and only if the position behind every entry the search can
      reach is below 255. */
  lemma LoopCompletes(setup: Setup, s: State, id: BusId)
    requires Fitting(setup, s)
    ensures (exists rounds: nat :: Rounds(setup, s, id, 0, rounds) == Some(Visits(setup, s, id))) <==> Complete(s, id)
  {
    if Complete(s, id) {
      RoundsComplete(setup, s, id, 0);
    } else if exists rounds: nat :: Rounds(setup, s, id, 0, rounds) == Some(Visits(setup, s, id)) {
      var rounds: nat :| Rounds(setup, s, id, 0, rounds) == Some(Visits(setup, s, id));
      var e := FirstOffending(s, id);
      hide Remaining, Rounds, Offending;
      if |s.buses| + e + 1 == NO_BUS {
        EndsEarly(setup, s, id, 0, e, rounds);
      } else {
        NeverEnds(setup, s, id, 0, e, rounds);
      }
    }
  }

  // ---------------------------------------------------------------- two inputs

  /** One attached bus, and a table whose only entry for the wanted bus comes after `before` others. */
  function OneFarEntry(before: nat): State {
    State([Bus(UNSET, 0)], seq(before, i => Route([1, 1, 1, 1], 0)) + [Route([2, 2, 2, 2], 0)], [], [], [])
  }

  lemma FarEntryReached(before: nat)
    ensures Reached(OneFarEntry(before), [2, 2, 2, 2], before)
    ensures forall k :: 0 <= k < before ==> !Reached(OneFarEntry(before), [2, 2, 2, 2], k)
    ensures Open(OneFarEntry(before), [2, 2, 2, 2], 0)
  {
    var table := OneFarEntry(before).table;
    var near: BusId, far: BusId := [1, 1, 1, 1], [2, 2, 2, 2];
    assert near[0] != far[0];
    forall k | 0 <= k < before ensures table[k].busId == near { }
  }

  /** With 253 entries before it, the entry puts the position at 255: the packet goes to it, but not to the
      default gateway. */
  lemma PositionEnds(gateway: nat)
    ensures Rounds(Setup(gateway, 254, NO_BUS, false), OneFarEntry(253), [2, 2, 2, 2], 0, 1) == Some([0])
  {
    FarEntryReached(253);
    LookupBefore(OneFarEntry(253), [2, 2, 2, 2], 0, 253);
    LookupAt(253);
  }

  /** With 254, the position starts again at 0, and the loop never ends. */
  lemma PositionRestarts(gateway: nat, rounds: nat)
    ensures Rounds(Setup(gateway, 255, NO_BUS, false), OneFarEntry(254), [2, 2, 2, 2], 0, rounds) == None
  {
    FarEntryReached(254);
    NeverEnds(Setup(gateway, 255, NO_BUS, false), OneFarEntry(254), [2, 2, 2, 2], 0, 254, rounds);
  }

  lemma LookupAt(before: nat)
    requires 253 <= before <= 254
    ensures FindWide(OneFarEntry(before), [2, 2, 2, 2], 0) == Lookup(0, before + 2)
  {
    var s := OneFarEntry(before);
    var far: BusId := [2, 2, 2, 2];
    FarEntryReached(before);
    assert UNSET.busId[0] != far[0];
    assert AttachedVisits(s.buses, far, 0) == [];
    TableSplits(s.table, far, 0);
    MatchingExact(s.table, far, 0);
    assert before in Matching(s.table, far, 0);
    hide Matching, AttachedVisits;
    assert s.table[before].busId == far;
    forall k | 0 <= k < before ensures s.table[k].busId != far { assert s.table[k].busId[0] != far[0]; }
  }
}
