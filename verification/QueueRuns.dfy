/** The send queue over any number of updates: what the whole device reports of the packet in one slot. */
module QueueRuns {
  import opened Words
  import opened Reception
  import opened SendQueue
  import opened Pjon

  ghost predicate Stocked(slots: seq<Slot>) {
    forall i :: 0 <= i < |slots| ==> |slots[i].content| >= 2
  }

  lemma SweptContent(slots: seq<Slot>, moments: nat -> Moment, halfDuplex: bool, max: nat)
    requires Stocked(slots)
    ensures Stocked(Swept(slots, moments, halfDuplex, true, max, |slots|))
    ensures forall i :: 0 <= i < |slots| ==>
              Swept(slots, moments, halfDuplex, true, max, |slots|)[i].content == slots[i].content
  {
    hide SlotUpdate;
    forall i | 0 <= i < |slots|
      ensures SlotUpdate(slots[i], moments(i), halfDuplex, true, max).0.content == slots[i].content
    {
      ContentStays(slots[i], moments(i), halfDuplex, max);
    }
  }

  lemma ContentStays(s: Slot, m: Moment, halfDuplex: bool, max: nat)
    requires |s.content| >= 2
    ensures SlotUpdate(s, m, halfDuplex, true, max).0.content == s.content
  {
  }

  /** The queue of a device that deletes automatically after updates at these moments, and the errors
      reported meanwhile. */
  ghost function Ran(slots: seq<Slot>, runs: seq<nat -> Moment>, halfDuplex: bool, max: nat): (r: seq<Slot>)
    requires Stocked(slots)
    ensures |r| == |slots|
    decreases |runs|
  {
    if runs == [] then slots
    else
      SweptContent(slots, runs[0], halfDuplex, max);
      Ran(Swept(slots, runs[0], halfDuplex, true, max, |slots|), runs[1..], halfDuplex, max)
  }

  ghost function Reported(slots: seq<Slot>, runs: seq<nat -> Moment>, halfDuplex: bool, max: nat): seq<Error>
    requires Stocked(slots)
    decreases |runs|
  {
    if runs == [] then []
    else
      SweptContent(slots, runs[0], halfDuplex, max);
      Losses(slots, runs[0], halfDuplex, true, max, |slots|)
      + Reported(Swept(slots, runs[0], halfDuplex, true, max, |slots|), runs[1..], halfDuplex, max)
  }

  /** What the updates are to slot i. */
  function VisitOf(content: seq<byte>, m: Moment, halfDuplex: bool): Visit
    requires |content| >= 2
  {
    Visit(m.due, SendCode(content, halfDuplex, m.canStart, m.response), m.now)
  }

  function VisitsOf(content: seq<byte>, runs: seq<nat -> Moment>, i: nat, halfDuplex: bool): (r: seq<Visit>)
    requires |content| >= 2
    ensures |r| == |runs|
  {
    if runs == [] then []
    else [VisitOf(content, runs[0](i), halfDuplex)] + VisitsOf(content, runs[1..], i, halfDuplex)
  }

  function LostAt(errors: seq<Error>, i: nat): nat {
    multiset(errors)[ConnectionLost(i)]
  }

  predicate Loses(s: Slot, m: Moment, halfDuplex: bool, max: nat)
    requires |s.content| >= 2
  {
    SlotUpdate(s, m, halfDuplex, true, max).1 == Lost
  }

  lemma LostOneMore(errors: seq<Error>, n: nat, lost: bool, i: nat)
    ensures LostAt(errors + (if lost then [ConnectionLost(n)] else []), i)
            == LostAt(errors, i) + if lost && i == n then 1 else 0
  {
  }

  lemma {:induction false} LossesAt(
    slots: seq<Slot>, moments: nat -> Moment, halfDuplex: bool, max: nat, n: nat, i: nat
  )
    requires Stocked(slots) && n <= |slots|
    ensures LostAt(Losses(slots, moments, halfDuplex, true, max, n), i)
            == if i < n && Loses(slots[i], moments(i), halfDuplex, max) then 1 else 0
    decreases n
  {
    hide *;
    if n == 0 {
      NoLosses(slots, moments, halfDuplex, max, i);
    } else {
      LossesAt(slots, moments, halfDuplex, max, n - 1, i);
      LossStep(slots, moments, halfDuplex, max, n - 1, i);
    }
  }

  lemma LossStep(slots: seq<Slot>, moments: nat -> Moment, halfDuplex: bool, max: nat, n: nat, i: nat)
    requires Stocked(slots) && n < |slots|
    ensures LostAt(Losses(slots, moments, halfDuplex, true, max, n + 1), i)
            == LostAt(Losses(slots, moments, halfDuplex, true, max, n), i)
               + if i == n && Loses(slots[n], moments(n), halfDuplex, max) then 1 else 0
  {
    LossesStep(slots, moments, halfDuplex, true, max, n);
    hide Stocked, Losses, SlotUpdate, LostAt;
    var errors := Losses(slots, moments, halfDuplex, true, max, n);
    var lost := SlotUpdate(slots[n], moments(n), halfDuplex, true, max).1 == Lost;
    LostOneMore(errors, n, lost, i);
  }

  lemma NoLosses(slots: seq<Slot>, moments: nat -> Moment, halfDuplex: bool, max: nat, i: nat)
    requires Stocked(slots)
    ensures LostAt(Losses(slots, moments, halfDuplex, true, max, 0), i) == 0
  {
  }

  /** Over any updates a slot goes through its own visits, and each loss of it is reported once. */
  lemma {:induction false} SlotRan(slots: seq<Slot>, runs: seq<nat -> Moment>, halfDuplex: bool, max: nat, i: nat)
    requires Stocked(slots) && i < |slots|
    ensures var visits := VisitsOf(slots[i].content, runs, i, halfDuplex);
            && Ran(slots, runs, halfDuplex, max)[i] == After(slots[i], visits, max)
            && LostAt(Reported(slots, runs, halfDuplex, max), i) == Number(Events(slots[i], visits, max), Lost)
    decreases |runs|
  {
    if runs != [] {
      var next := Swept(slots, runs[0], halfDuplex, true, max, |slots|);
      SweptContent(slots, runs[0], halfDuplex, max);
      LossesAt(slots, runs[0], halfDuplex, max, |slots|, i);
      SlotRan(next, runs[1..], halfDuplex, max, i);
      EventsCons(slots[i], VisitOf(slots[i].content, runs[0](i), halfDuplex),
                 VisitsOf(slots[i].content, runs[1..], i, halfDuplex), max);
      hide Losses, Reported, UpdateSlot, Number, Events, After, Ran;
    }
  }

  lemma EventsCons(s: Slot, v: Visit, visits: seq<Visit>, max: nat)
    ensures var r := UpdateSlot(s, v.due, v.code, true, v.now, max);
            && After(s, [v] + visits, max) == After(r.0, visits, max)
            && Number(Events(s, [v] + visits, max), Lost)
               == (if r.1 == Lost then 1 else 0) + Number(Events(r.0, visits, max), Lost)
  {
    hide UpdateSlot;
    assert ([v] + visits)[1..] == visits;
    var e := Events(s, [v] + visits, max);
    assert e[1..] == Events(UpdateSlot(s, v.due, v.code, true, v.now, max).0, visits, max);
  }

  lemma {:induction false} CodesOf(content: seq<byte>, runs: seq<nat -> Moment>, i: nat, halfDuplex: bool)
    requires |content| >= 2
    ensures Codes(VisitsOf(content, runs, i, halfDuplex))
  {
    hide SendCode;
    if runs != [] {
      CodesOf(content, runs[1..], i, halfDuplex);
      SendCodeRange(content, halfDuplex, runs[0](i).canStart, runs[0](i).response);
    }
  }

  /** The fate of a one-shot packet in the queue of a device, over any number of updates: it is reported
      lost once if all the attempts left to it were made and none was acknowledged, and never otherwise;
      and it stays in its slot until it is acknowledged or lost. */
  lemma QueuedFate(slots: seq<Slot>, runs: seq<nat -> Moment>, halfDuplex: bool, max: nat, i: nat)
    requires Stocked(slots) && i < |slots| && max < 255
    requires Occupied(slots[i]) && SlotOk(slots[i], max) && slots[i].timing == 0
    ensures var codes := Attempted(VisitsOf(slots[i].content, runs, i, halfDuplex));
            var left, errors := max - slots[i].attempts, Reported(slots, runs, halfDuplex, max);
            && LostAt(errors, i) == (if !AckedBy(codes, left) && |codes| > left then 1 else 0)
            && (Occupied(Ran(slots, runs, halfDuplex, max)[i]) <==> !AckedBy(codes, left) && |codes| <= left)
  {
    var visits := VisitsOf(slots[i].content, runs, i, halfDuplex);
    CodesOf(slots[i].content, runs, i, halfDuplex);
    SlotRan(slots, runs, halfDuplex, max, i);
    OneShotOutcome(slots[i], visits, max);
    OneShotFate(slots[i], visits, max);
    hide *;
  }

  /** A device that is updated again and again. */
  method Updates(a: PJON, runs: seq<nat -> Moment>)
    requires a.Valid() && a.autoDelete
    modifies a.packets, a`sent, a`errors
    ensures a.Valid() && Stocked(old(a.packets[..]))
    ensures a.packets[..] == Ran(old(a.packets[..]), runs, a.halfDuplex, a.maxAttempts)
    ensures a.errors == old(a.errors) + Reported(old(a.packets[..]), runs, a.halfDuplex, a.maxAttempts)
    decreases |runs|
  {
    ghost var before, errors := a.packets[..], a.errors;
    assert Stocked(before);
    RanStarts(before, errors, runs, a.halfDuplex, a.maxAttempts);
    hide *;
    if runs != [] {
      var count := a.Update(runs[0]);
      Updates(a, runs[1..]);
    }
  }

  /** The first update of a run, and the rest of it; or no run at all. */
  lemma RanStarts(slots: seq<Slot>, errors: seq<Error>, runs: seq<nat -> Moment>, halfDuplex: bool, max: nat)
    requires Stocked(slots)
    ensures runs == [] ==>
              Ran(slots, runs, halfDuplex, max) == slots
              && errors + Reported(slots, runs, halfDuplex, max) == errors
    ensures runs != [] ==>
              var next := Swept(slots, runs[0], halfDuplex, true, max, |slots|);
              && Stocked(next) && Ran(slots, runs, halfDuplex, max) == Ran(next, runs[1..], halfDuplex, max)
              && errors + Reported(slots, runs, halfDuplex, max)
                 == (errors + Losses(slots, runs[0], halfDuplex, true, max, |slots|))
                    + Reported(next, runs[1..], halfDuplex, max)
  {
    if runs != [] { SweptContent(slots, runs[0], halfDuplex, max); }
    hide Swept, Losses;
  }
}
