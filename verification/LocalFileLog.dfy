/** The content file shared by the LocalFile processes: a ring of records stamped with wrapping
    16-bit ids, as plain values, and its relation to an unbounded log. */
module LocalFileLog {
  import opened Words

  type Record = seq<byte>

  /** Returned by both position searches when no position qualifies. */
  const NOT_ASSIGNED := 255

  /** The number of distinct record ids: 1 to 65535, 0 marks an unused position. */
  const ID_COUNT := 65535

  /** A difference at or above this bound means "already read". */
  const READ_LIMIT := 0x8FFF

  datatype File = File(last: uint16, index: seq<uint16>, records: seq<Record>)

  /** `(uint16_t)(a - b)` */
  function Diff(a: uint16, b: uint16): uint16 {
    if a >= b then a - b else a - b + 0x1_0000
  }

  function NextId(last: uint16): uint16 {
    if last == 0xFFFF then 1 else last + 1
  }

  // ---------------------------------------------------------------- what one call decides

  /** `pos` is what the search for a position to overwrite returns: the first unused position,
      else the first one whose id lies furthest behind `last`. */
  ghost predicate Reusable(last: uint16, index: seq<uint16>, pos: int) {
    if exists i :: 0 <= i < |index| && index[i] == 0 then
      0 <= pos < |index| && index[pos] == 0 && forall i :: 0 <= i < pos ==> index[i] != 0
    else if forall i :: 0 <= i < |index| ==> Diff(last, index[i]) == 0 then
      pos == NOT_ASSIGNED
    else
      && 0 <= pos < |index|
      && (forall i :: 0 <= i < |index| ==> Diff(last, index[i]) <= Diff(last, index[pos]))
      && forall i :: 0 <= i < pos ==> Diff(last, index[i]) < Diff(last, index[pos])
  }

  /** A position whose record counts as unread for a reader whose last id is `read`. */
  predicate Candidate(id: uint16, read: uint16) {
    id != 0 && id != read && Diff(id, read) < READ_LIMIT
  }

  /** `pos` is what the search for the next unread record returns: the first candidate that lies
      closest after `read`. */
  ghost predicate NextUnread(last: uint16, index: seq<uint16>, read: uint16, pos: int) {
    if last == read || forall i :: 0 <= i < |index| ==> !Candidate(index[i], read) then
      pos == NOT_ASSIGNED
    else
      && 0 <= pos < |index| && Candidate(index[pos], read)
      && (forall i :: 0 <= i < |index| && Candidate(index[i], read) ==>
            Diff(index[pos], read) <= Diff(index[i], read))
      && forall i :: 0 <= i < pos && Candidate(index[i], read) ==>
            Diff(index[pos], read) < Diff(index[i], read)
  }

  /** The last-read id a poll works with: a reader that never read starts N ids back. */
  function ReadFrom(last: uint16, read: uint16, n: uint16): uint16 {
    if read == 0 then Diff(last, n) else read
  }

  ghost predicate WriteStep(f: File, record: Record, f': File, ok: bool)
    requires |f.index| == |f.records|
  {
    exists pos ::
      && Reusable(f.last, f.index, pos)
      && ok == (pos != NOT_ASSIGNED)
      && if !ok then f' == f
         else
           && 0 <= pos < |f.index|
           && f' == File(NextId(f.last), f.index[pos := NextId(f.last)], f.records[pos := record])
  }

  ghost predicate PollStep(f: File, read: uint16, read': uint16, out: Option<Record>)
    requires |f.index| == |f.records| <= NOT_ASSIGNED
  {
    if f.last == 0 then read' == read && out == None
    else
      exists pos ::
        && NextUnread(f.last, f.index, ReadFrom(f.last, read, |f.index|), pos)
        && if pos == NOT_ASSIGNED then read' == ReadFrom(f.last, read, |f.index|) && out == None
           else
             && 0 <= pos < |f.index|
             && read' == f.index[pos] && out == Some(f.records[pos])
  }

  // ---------------------------------------------------------------- record numbers and ids

  /** The id stamped on the k-th record ever written; 0 before the first. */
  function IdOf(k: nat): uint16 {
    if k == 0 then 0 else (k - 1) % ID_COUNT + 1
  }

  lemma NextIdOf(k: nat)
    ensures NextId(IdOf(k)) == IdOf(k + 1)
  {
  }

  /** How far the id of record k looks ahead of the id of record r: the true distance, one more when
      the ids wrapped in between, and reduced by whole turns of the id space. */
  function Gap(r: nat, k: nat): uint16
    requires 1 <= r <= k
  {
    var turns := (k - r) % ID_COUNT;
    if IdOf(r) + turns <= ID_COUNT then turns else turns + 1
  }

  lemma DiffIsGap(r: nat, k: nat)
    requires 1 <= r <= k
    ensures Diff(IdOf(k), IdOf(r)) == Gap(r, k)
    ensures Diff(IdOf(r), IdOf(k)) == if Gap(r, k) == 0 then 0 else 0x1_0000 - Gap(r, k)
  {
    Residues(r - 1, k - r);
  }

  lemma Residues(x: nat, d: nat)
    ensures var sum := x % ID_COUNT + d % ID_COUNT;
            (x + d) % ID_COUNT == if sum < ID_COUNT then sum else sum - ID_COUNT
  {
  }

  /** Within one ring the wrap shows as one extra step, and only past id 1. */
  lemma NearGap(r: nat, k: nat)
    requires 1 <= r <= k < r + NOT_ASSIGNED
    ensures Gap(r, k) == if k - r < IdOf(k) then k - r else k - r + 1
  {
    assert (k - r) % ID_COUNT == k - r;
    if IdOf(r) + (k - r) <= ID_COUNT {
      assert IdOf(k) == IdOf(r) + (k - r);
    } else {
      assert IdOf(k) == IdOf(r) + (k - r) - ID_COUNT;
    }
  }

  // ---------------------------------------------------------------- the ring invariant

  /** Number of the record kept at position i after k writes; 0 for a position never used. */
  function RecordAt(k: nat, n: nat, i: nat): nat
    requires i < n
  {
    var head := Head(k, n);
    if i < head then k - head + 1 + i
    else if k < n then 0
    else k - n + 1 + (i - head)
  }

  /** The file holds exactly the last min(k, N) records of the log, each beside its own id, and
      position Head(k, N) is the one to be overwritten next. */
  ghost predicate Ring(f: File, log: seq<Record>) {
    var n, k := |f.index|, |log|;
    && 2 <= n <= NOT_ASSIGNED && |f.records| == n
    && f.last == IdOf(k)
    && forall i :: 0 <= i < n ==> SlotHolds(f, log, i)
  }

  /** The position after k writes that rotate through the N positions. */
  function Head(k: nat, n: nat): (h: nat)
    requires n > 0
    ensures h < n && h <= k
    ensures k < n ==> h == k
  {
    if k == 0 then 0
    else if Head(k - 1, n) + 1 == n then 0
    else Head(k - 1, n) + 1
  }

  ghost predicate SlotHolds(f: File, log: seq<Record>, i: nat)
    requires i < |f.index| == |f.records|
  {
    var r := RecordAt(|log|, |f.index|, i);
    && f.index[i] == IdOf(r)
    && (r > 0 ==> r <= |log| && f.records[i] == log[r - 1])
  }

  // ---------------------------------------------------------------- the writer

  /** Every id in a full ring lies at a nonzero distance that grows with the age of its record. */
  lemma OlderIsFurther(k: nat, r: nat, r': nat)
    requires 1 <= r < r' <= k < r + 255
    ensures Gap(r', k) < Gap(r, k)
  {
  }

  /** In a ring state the writer picks the oldest position and nothing else: the first unused one
      while there is one, then the position of the oldest record. */
  lemma WriterEvictsOldest(f: File, log: seq<Record>, pos: int)
    requires Ring(f, log) && Reusable(f.last, f.index, pos)
    ensures pos == Head(|log|, |f.index|)
  {
    var n, k := |f.index|, |log|;
    var h := Head(k, n);
    assert SlotHolds(f, log, h);
    if k < n {
      assert f.index[h] == 0;
      forall i | 0 <= i < h ensures f.index[i] != 0 {
        assert SlotHolds(f, log, i);
      }
    } else {
      forall i | 0 <= i < n
        ensures f.index[i] != 0
        ensures i != h ==> Diff(f.last, f.index[i]) < Diff(f.last, f.index[h])
      {
        var r := RecordAt(k, n, i);
        assert SlotHolds(f, log, i);
        DiffIsGap(r, k);
        DiffIsGap(k - n + 1, k);
        if i != h { OlderIsFurther(k, k - n + 1, r); }
      }
      assert Diff(f.last, f.index[h]) > Diff(f.last, f.index[if h == 0 then 1 else 0]);
    }
  }

  /** One write on a ring state always succeeds and appends to the log; the oldest record is the
      only one lost. */
  lemma WriteAppends(f: File, log: seq<Record>, record: Record, f': File, ok: bool)
    requires Ring(f, log) && WriteStep(f, record, f', ok)
    ensures ok && Ring(f', log + [record])
    ensures |f'.index| == |f.index|
  {
    var n, k := |f.index|, |log|;
    var h, log' := Head(k, n), log + [record];
    var pos :| && Reusable(f.last, f.index, pos)
               && ok == (pos != NOT_ASSIGNED)
               && if !ok then f' == f
                  else 0 <= pos < n && f' == File(NextId(f.last), f.index[pos := NextId(f.last)],
                                                  f.records[pos := record]);
    WriterEvictsOldest(f, log, pos);
    NextIdOf(k);
    forall i | 0 <= i < n ensures SlotHolds(f', log', i) {
      assert SlotHolds(f, log, i);
      RecordAtStep(k, n, i);
    }
  }

  lemma RecordAtStep(k: nat, n: nat, i: nat)
    requires i < n
    ensures RecordAt(k + 1, n, i) == if i == Head(k, n) then k + 1 else RecordAt(k, n, i)
  {
  }

  /** The consistency check the writer runs on the position it is about to reuse. */
  predicate CounterMismatch(last: uint16, id: uint16, n: nat) {
    if last < id then Diff(last, id) != n else Diff(last, id) + 1 != n
  }

  /** The writer's own check stays silent exactly from the N-th write on: before, it reports every
      unused position. */
  lemma SelfCheckSilent(f: File, log: seq<Record>, pos: int)
    requires Ring(f, log) && Reusable(f.last, f.index, pos)
    ensures 0 <= pos < |f.index|
    ensures CounterMismatch(f.last, f.index[pos], |f.index|) <==> |log| + 1 < |f.index|
  {
    var n, k := |f.index|, |log|;
    WriterEvictsOldest(f, log, pos);
    assert SlotHolds(f, log, pos);
    if k >= n {
      DiffIsGap(k - n + 1, k);
      NearGap(k - n + 1, k);
    }
  }

  /** A ring of one position is written once and never again: the lower bound on N is needed. */
  lemma LoneSlotNeverReused(f: File, record: Record, f': File, ok: bool)
    requires |f.index| == |f.records| == 1 && f.last != 0 && f.index[0] == f.last
    requires WriteStep(f, record, f', ok)
    ensures !ok && f' == f
  {
    assert Diff(f.last, f.index[0]) == 0;
  }

  // ---------------------------------------------------------------- the reader

  /** The position of a retained record. */
  function PositionOf(k: nat, n: nat, r: nat): (i: nat)
    requires n > 0 && 1 <= r <= k < r + n
    ensures i < n && RecordAt(k, n, i) == r
  {
    var h := Head(k, n);
    if r + h > k then r + h - k - 1 else r + h - k - 1 + n
  }

  /** Number of the next record a reader that has consumed p records should get: p + 1, or the
      oldest retained one when p + 1 was already overwritten. */
  function Next(k: nat, n: nat, p: nat): nat
    requires p < k
  {
    if k <= p + n then p + 1 else k - n + 1
  }

  /** The code can tell that this record is unread. */
  predicate InRange(k: nat, n: nat, p: nat)
    requires 1 <= p <= k
  {
    p < k ==> 0 < Gap(p, Next(k, n, p)) < READ_LIMIT
  }

  /** A bound a reader can be held to: it is in range while it is fewer than 0x8FFE + N - 1 records
      behind. */
  lemma LagBound(k: nat, n: nat, p: nat)
    requires 1 <= p <= k < p + READ_LIMIT - 2 + n && n > 0
    ensures InRange(k, n, p)
  {
  }

  /** Whether position i is a candidate for a reader that consumed p records. */
  lemma CandidateAt(f: File, log: seq<Record>, p: nat, i: nat)
    requires Ring(f, log) && 1 <= p <= |log| && i < |f.index|
    ensures var r := RecordAt(|log|, |f.index|, i);
            && (Candidate(f.index[i], IdOf(p)) <==> p < r && 0 < Gap(p, r) < READ_LIMIT)
            && (p < r ==> Diff(f.index[i], IdOf(p)) == Gap(p, r))
  {
    assert SlotHolds(f, log, i);
    var r := RecordAt(|log|, |f.index|, i);
    if p < r {
      AheadIsUnread(p, r);
    } else if 0 < r {
      BehindIsRead(p, r, |log|);
    }
  }

  lemma AheadIsUnread(p: nat, r: nat)
    requires 1 <= p < r
    ensures Candidate(IdOf(r), IdOf(p)) <==> 0 < Gap(p, r) < READ_LIMIT
    ensures Diff(IdOf(r), IdOf(p)) == Gap(p, r)
  {
    DiffIsGap(p, r);
  }

  lemma BehindIsRead(p: nat, r: nat, k: nat)
    requires 1 <= r <= p <= k < r + NOT_ASSIGNED
    ensures !Candidate(IdOf(r), IdOf(p))
  {
    DiffIsGap(r, p);
    NearGap(r, p);
  }

  /** Among records within one ring of each other, a later one is further ahead of the reader. */
  lemma LaterIsFurther(p: nat, next: nat, r: nat)
    requires 1 <= p < next < r < next + NOT_ASSIGNED && 0 < Gap(p, next) < READ_LIMIT
    ensures Gap(p, r) > Gap(p, next)
  {
  }

  /** Two records within one ring of each other carry different ids. */
  lemma DistinctIds(r: nat, r': nat)
    requires 1 <= r < r' < r + NOT_ASSIGNED
    ensures IdOf(r) != IdOf(r')
  {
  }

  lemma LastDiffers(k: nat, n: nat, p: nat)
    requires 1 <= p < k && 2 <= n <= NOT_ASSIGNED && InRange(k, n, p)
    ensures IdOf(k) != IdOf(p)
  {
    var next := Next(k, n, p);
    DiffIsGap(p, k);
    if next < k { LaterIsFurther(p, next, k); }
  }

  /** The search stops at the next record when that is in range, and never does otherwise. */
  lemma SearchFindsNext(f: File, log: seq<Record>, p: nat, pos: int)
    requires Ring(f, log) && 1 <= p < |log| && NextUnread(f.last, f.index, IdOf(p), pos)
    ensures pos == PositionOf(|log|, |f.index|, Next(|log|, |f.index|, p))
            <==> InRange(|log|, |f.index|, p)
  {
    var n, k := |f.index|, |log|;
    var next := Next(k, n, p);
    var at := PositionOf(k, n, next);
    CandidateAt(f, log, p, at);
    if InRange(k, n, p) {
      LastDiffers(k, n, p);
      CandidateAt(f, log, p, pos);
      var r := RecordAt(k, n, pos);
      if r != next { LaterIsFurther(p, next, r); }
    }
  }

  /** A poll by a reader that consumed p >= 1 records returns the next record it should get exactly
      when that record is in range; with nothing left it returns nothing. */
  lemma PollReadsNext(f: File, log: seq<Record>, p: nat, read': uint16, out: Option<Record>)
    requires Ring(f, log) && 1 <= p <= |log| && PollStep(f, IdOf(p), read', out)
    ensures p == |log| ==> read' == IdOf(p) && out == None
    ensures p < |log| ==>
              var next := Next(|log|, |f.index|, p);
              (read' == IdOf(next) && out == Some(log[next - 1])) <==> InRange(|log|, |f.index|, p)
  {
    var n, k := |f.index|, |log|;
    var pos :| && NextUnread(f.last, f.index, IdOf(p), pos)
               && if pos == NOT_ASSIGNED then read' == IdOf(p) && out == None
                  else 0 <= pos < n && read' == f.index[pos] && out == Some(f.records[pos]);
    if p < k {
      var next := Next(k, n, p);
      var at := PositionOf(k, n, next);
      SearchFindsNext(f, log, p, pos);
      assert SlotHolds(f, log, at);
      if pos != at && pos != NOT_ASSIGNED {
        CandidateAt(f, log, p, pos);
        var r := RecordAt(k, n, pos);
        assert SlotHolds(f, log, pos);
        if r < next { DistinctIds(r, next); } else { DistinctIds(next, r); }
      }
    }
  }

  /** The family of lags the code does not survive: with the oldest retained record 0x8FFF or more ids
      ahead and no turn of the id space completed, a poll reports nothing although N are unread. */
  lemma StalledReader(f: File, log: seq<Record>, p: nat, read': uint16, out: Option<Record>)
    requires Ring(f, log) && 1 <= p && PollStep(f, IdOf(p), read', out)
    requires p + READ_LIMIT <= |log| - |f.index| + 1 && |log| < p + ID_COUNT
    ensures out == None && read' == IdOf(p)
  {
    var pos :| NextUnread(f.last, f.index, IdOf(p), pos)
               && if pos == NOT_ASSIGNED then read' == IdOf(p) && out == None
                  else 0 <= pos < |f.index| && read' == f.index[pos] && out == Some(f.records[pos]);
    if pos != NOT_ASSIGNED {
      CandidateAt(f, log, p, pos);
      FarAhead(p, RecordAt(|log|, |f.index|, pos));
    }
  }

  lemma FarAhead(p: nat, r: nat)
    requires 1 <= p && p + READ_LIMIT <= r < p + ID_COUNT
    ensures Gap(p, r) >= READ_LIMIT
  {
    assert (r - p) % ID_COUNT == r - p;
  }

  /** Number of the record a reader that never read gets first: the oldest retained one, unless the
      ring straddles the 65535 to 1 wrap; then the code skips the oldest and starts one later. */
  function FirstRead(k: nat, n: nat): (r: nat)
    requires 1 <= k && 2 <= n
    ensures 1 <= r <= k < r + n
  {
    if k <= n then 1
    else if IdOf(k) < n then k - n + 2
    else k - n + 1
  }

  /** Seen from N ids before the last one, a retained record lies N minus its age in ids. */
  lemma FreshCandidate(f: File, log: seq<Record>, i: nat)
    requires Ring(f, log) && 1 <= |log| && i < |f.index|
    ensures var n, k, r := |f.index|, |log|, RecordAt(|log|, |f.index|, i);
            var start := ReadFrom(f.last, 0, n);
            && (Candidate(f.index[i], start) <==> 1 <= r && Gap(r, k) < n)
            && (1 <= r ==> Gap(r, k) <= n && Diff(f.index[i], start) == n - Gap(r, k))
  {
    assert SlotHolds(f, log, i);
    var r := RecordAt(|log|, |f.index|, i);
    if 1 <= r { FreshDistance(|log|, |f.index|, r); }
  }

  lemma FreshDistance(k: nat, n: nat, r: nat)
    requires 2 <= n <= NOT_ASSIGNED && 1 <= r <= k < r + n
    ensures var start := ReadFrom(IdOf(k), 0, n);
            Diff(IdOf(r), start) == n - Gap(r, k) && (IdOf(r) == start <==> Gap(r, k) == n)
  {
    DiffIsGap(r, k);
    NearGap(r, k);
  }

  /** Of the retained records whose wrapped age is below N, the first one read is the oldest. */
  lemma FirstReadIsOldest(k: nat, n: nat, r: nat)
    requires 1 <= k && 2 <= n <= NOT_ASSIGNED && 1 <= r <= k < r + n
    ensures Gap(FirstRead(k, n), k) < n
    ensures r != FirstRead(k, n) && Gap(r, k) < n ==> Gap(r, k) < Gap(FirstRead(k, n), k)
  {
    NearGap(r, k);
    NearGap(FirstRead(k, n), k);
    if k <= n { assert IdOf(k) == k; }
  }

  lemma FreshSearch(f: File, log: seq<Record>, pos: int)
    requires Ring(f, log) && 1 <= |log|
    requires NextUnread(f.last, f.index, ReadFrom(f.last, 0, |f.index|), pos)
    ensures pos == PositionOf(|log|, |f.index|, FirstRead(|log|, |f.index|))
  {
    var n, k := |f.index|, |log|;
    var first := FirstRead(k, n);
    var at := PositionOf(k, n, first);
    FirstReadIsOldest(k, n, first);
    FreshCandidate(f, log, at);
    FreshCandidate(f, log, pos);
    if pos != at { FirstReadIsOldest(k, n, RecordAt(k, n, pos)); }
  }

  /** The first poll of a reader that never read, decided for every reachable file. */
  lemma FirstPoll(f: File, log: seq<Record>, read': uint16, out: Option<Record>)
    requires Ring(f, log) && PollStep(f, 0, read', out)
    ensures if |log| == 0 then read' == 0 && out == None
            else var r := FirstRead(|log|, |f.index|);
                 read' == IdOf(r) && out == Some(log[r - 1])
  {
    var n, k := |f.index|, |log|;
    if k > 0 {
      var start := ReadFrom(f.last, 0, n);
      var pos :| && NextUnread(f.last, f.index, start, pos)
                 && if pos == NOT_ASSIGNED then read' == start && out == None
                    else 0 <= pos < n && read' == f.index[pos] && out == Some(f.records[pos]);
      FreshSearch(f, log, pos);
      assert SlotHolds(f, log, pos);
    }
  }
}
