/** The send queue of a PJON device, slot by slot, as plain values: what one update makes of a slot and
    what a dispatched packet can come to over any number of updates. */
module SendQueue {
  import opened Words
  import opened Packets
  import opened Reception

  const TO_BE_SENT := 74

  /** One slot; state 0 marks a free one. `registration` and `timing` are in microseconds. */
  datatype Slot = Slot(
    attempts: nat, content: seq<byte>, length: nat, registration: nat, state: nat, timing: nat)

  predicate Occupied(s: Slot) {
    s.state != 0
  }

  /** Number of occupied slots. */
  function Count(slots: seq<Slot>): nat {
    if slots == [] then 0 else Count(slots[..|slots| - 1]) + if Occupied(slots[|slots| - 1]) then 1 else 0
  }

  /** What transmitting a slot's packet comes to: refused by a busy medium, not acknowledged in time, or
      done (acknowledged, or nothing to wait for). */
  function SendCode(content: seq<byte>, halfDuplex: bool, canStart: bool, response: bool): nat
    requires |content| >= 2
  {
    if halfDuplex && !canStart then BUSY
    else if content[0] == BROADCAST || !AckRequested(content[1]) || !halfDuplex then ACK
    else if response then ACK
    else FAIL
  }

  /** What one update of a slot comes to. */
  datatype Event = Idle | Failed | Acked | Lost

  function Freed(s: Slot): Slot {
    s.(attempts := 0, length := 0, registration := 0, state := 0)
  }

  /** reset_packet: a one-shot packet is removed when deletion is automatic, a repeated one starts
      over. */
  function Reset(s: Slot, autoDelete: bool, now: nat): Slot {
    if s.timing == 0 then if autoDelete then Freed(s) else s
    else s.(attempts := 0, registration := now, state := TO_BE_SENT)
  }

  /** One update of an occupied slot that is due, when transmitting would return `code`. */
  function Updated(s: Slot, code: nat, autoDelete: bool, now: nat, max: nat): (r: (Slot, Event)) {
    var state := if s.state != ACK then code else s.state;
    var tried := s.(state := state, attempts := (s.attempts + 1) % 256);
    if state == ACK then (Reset(tried, autoDelete, now), Acked)
    else if tried.attempts > max then (Reset(tried, autoDelete, now), Lost)
    else (tried, Failed)
  }

  function UpdateSlot(s: Slot, due: bool, code: nat, autoDelete: bool, now: nat, max: nat): (r: (Slot, Event)) {
    if !Occupied(s) || !due then (s, Idle) else Updated(s, code, autoDelete, now, max)
  }

  /** What holds of every slot of a device that deletes automatically: a free slot has no attempts, an
      occupied one is waiting to be sent and has not used up its attempts. */
  predicate SlotOk(s: Slot, max: nat) {
    if Occupied(s) then s.attempts <= max && s.state != ACK else s.attempts == 0
  }

  lemma UpdateKeepsSlotOk(s: Slot, due: bool, code: nat, now: nat, max: nat)
    requires SlotOk(s, max) && max < 255 && code in {ACK, BUSY, FAIL}
    ensures SlotOk(UpdateSlot(s, due, code, true, now, max).0, max)
  {
  }

  lemma CountsChange(slots: seq<Slot>, i: nat, s: Slot)
    requires i < |slots|
    ensures Count(slots[i := s])
            == Count(slots) - (if Occupied(slots[i]) then 1 else 0) + (if Occupied(s) then 1 else 0)
  {
    var n := |slots| - 1;
    if i < n {
      CountsChange(slots[..n], i, s);
      assert slots[i := s][..n] == slots[..n][i := s];
    } else {
      assert slots[i := s][..n] == slots[..n];
    }
  }

  // ---------------------------------------------------------------- a dispatched packet over time

  /** One visit of update to the slot. */
  datatype Visit = Visit(due: bool, code: nat, now: nat)

  predicate Codes(visits: seq<Visit>) {
    forall i :: 0 <= i < |visits| ==> visits[i].code in {ACK, BUSY, FAIL}
  }

  function After(s: Slot, visits: seq<Visit>, max: nat): Slot
    decreases |visits|
  {
    if visits == [] then s
    else After(UpdateSlot(s, visits[0].due, visits[0].code, true, visits[0].now, max).0, visits[1..], max)
  }

  function Events(s: Slot, visits: seq<Visit>, max: nat): seq<Event>
    decreases |visits|
  {
    if visits == [] then []
    else
      var r := UpdateSlot(s, visits[0].due, visits[0].code, true, visits[0].now, max);
      [r.1] + Events(r.0, visits[1..], max)
  }

  function Number(events: seq<Event>, e: Event): nat {
    if events == [] then 0 else (if events[0] == e then 1 else 0) + Number(events[1..], e)
  }

  lemma {:induction false} FreeStaysFree(s: Slot, visits: seq<Visit>, max: nat)
    requires !Occupied(s)
    ensures After(s, visits, max) == s
    ensures Number(Events(s, visits, max), Acked) == 0 && Number(Events(s, visits, max), Lost) == 0
    ensures Number(Events(s, visits, max), Failed) == 0
    decreases |visits|
  {
    if visits != [] {
      FreeStaysFree(s, visits[1..], max);
      var e := Events(s, visits, max);
      assert e[1..] == Events(s, visits[1..], max);
    }
  }

  /** The fate of a one-shot packet. Over any run of updates it leaves the queue with either one
      acknowledgement or one lost connection reported, never both and never either while it stays; it
      stays only as long as the attempts allow, and is lost only after using up all of them. */
  lemma {:induction false} OneShotFate(s: Slot, visits: seq<Visit>, max: nat)
    requires Occupied(s) && SlotOk(s, max) && s.timing == 0 && max < 255 && Codes(visits)
    ensures var events := Events(s, visits, max);
            var acked, lost, failed := Number(events, Acked), Number(events, Lost), Number(events, Failed);
            && acked + lost == (if Occupied(After(s, visits, max)) then 0 else 1)
            && s.attempts + failed <= max
            && (lost == 1 ==> s.attempts + failed == max)
            && (Occupied(After(s, visits, max)) ==> After(s, visits, max).attempts == s.attempts + failed)
    decreases |visits|
  {
    if visits != [] {
      var v := visits[0];
      var (s', event) := UpdateSlot(s, v.due, v.code, true, v.now, max);
      var e := Events(s, visits, max);
      assert e[0] == event && e[1..] == Events(s', visits[1..], max);
      UpdateKeepsSlotOk(s, v.due, v.code, v.now, max);
      if Occupied(s') {
        OneShotFate(s', visits[1..], max);
      } else {
        FreeStaysFree(s', visits[1..], max);
      }
    }
  }

  /** No one-shot packet survives max + 1 visits that found it due. */
  lemma {:induction false} OneShotEnds(s: Slot, visits: seq<Visit>, max: nat)
    requires Occupied(s) && SlotOk(s, max) && s.timing == 0 && max < 255 && Codes(visits)
    requires (forall i :: 0 <= i < |visits| ==> visits[i].due) && s.attempts + |visits| > max
    ensures !Occupied(After(s, visits, max))
    decreases |visits|
  {
    var v := visits[0];
    var s' := UpdateSlot(s, v.due, v.code, true, v.now, max).0;
    UpdateKeepsSlotOk(s, v.due, v.code, v.now, max);
    if Occupied(s') {
      OneShotEnds(s', visits[1..], max);
    } else {
      FreeStaysFree(s', visits[1..], max);
    }
  }

  /** The codes of the visits that found the slot due. */
  function Attempted(visits: seq<Visit>): seq<nat> {
    if visits == [] then [] else (if visits[0].due then [visits[0].code] else []) + Attempted(visits[1..])
  }

  /** One of the codes up to position n is an acknowledgement. */
  predicate AckedBy(codes: seq<nat>, n: nat) {
    exists k :: 0 <= k < |codes| && k <= n && codes[k] == ACK
  }

  lemma AckedBehind(code: nat, codes: seq<nat>, n: nat)
    requires code != ACK && n > 0
    ensures AckedBy([code] + codes, n) <==> AckedBy(codes, n - 1)
  {
    var all := [code] + codes;
    if AckedBy(codes, n - 1) {
      var k :| 0 <= k < |codes| && k <= n - 1 && codes[k] == ACK;
      assert all[k + 1] == ACK;
    }
    if AckedBy(all, n) {
      var k :| 0 <= k < |all| && k <= n && all[k] == ACK;
      assert codes[k - 1] == ACK;
    }
  }

  /** A one-shot packet is acknowledged if and only if one of the attempts left to it is, and lost if and
      only if all of them were made and none is. */
  lemma {:induction false} OneShotOutcome(s: Slot, visits: seq<Visit>, max: nat)
    requires Occupied(s) && SlotOk(s, max) && s.timing == 0 && max < 255 && Codes(visits)
    ensures var codes, left := Attempted(visits), max - s.attempts;
            && Number(Events(s, visits, max), Acked) == (if AckedBy(codes, left) then 1 else 0)
            && Number(Events(s, visits, max), Lost) == (if !AckedBy(codes, left) && |codes| > left then 1 else 0)
    decreases |visits|
  {
    if visits != [] {
      var v, left := visits[0], max - s.attempts;
      var (s', event) := UpdateSlot(s, v.due, v.code, true, v.now, max);
      var e, codes, rest := Events(s, visits, max), Attempted(visits), Attempted(visits[1..]);
      assert e[0] == event && e[1..] == Events(s', visits[1..], max);
      UpdateKeepsSlotOk(s, v.due, v.code, v.now, max);
      hide AckedBy;
      if Occupied(s') {
        OneShotOutcome(s', visits[1..], max);
        if v.due { AckedBehind(v.code, rest, left); } else { assert codes == rest; }
      } else {
        FreeStaysFree(s', visits[1..], max);
        assert codes[0] == v.code;
        AckedFirst(codes, left);
      }
    }
  }

  lemma AckedFirst(codes: seq<nat>, n: nat)
    requires codes != []
    ensures codes[0] == ACK ==> AckedBy(codes, n)
    ensures n == 0 ==> (AckedBy(codes, n) <==> codes[0] == ACK)
  {
  }
}
