/** What the queue of a device puts on the wire: the packets composed into its slots, whole and in order. */
module Frames {
  import opened Words
  import opened Packets
  import opened PacketCodec
  import opened PacketTools
  import opened Reception
  import opened SendQueue
  import opened Pjon
  import opened Layout

  /** The slot holds the packet composed for this info and payload, on its way or not. */
  predicate Holds(s: Slot, packet: Info, payload: seq<byte>) {
    && Sized(packet, |payload|) && !Latched(packet, |payload|)
    && Packet(packet, payload) <= s.content && s.length == |Packet(packet, payload)|
  }

  /** Dispatching a packet makes its slot hold it. */
  lemma DispatchedHolds(s: Slot, before: seq<byte>, packet: Info, payload: seq<byte>)
    requires Sized(packet, |payload|) && !Latched(packet, |payload|)
    requires ComposedInto(s.content, before, packet, payload) && s.length == PacketLength(packet, |payload|)
    ensures Holds(s, packet, payload)
  {
    hide Packet, ComposedInto, Latched, Sized, PacketLength;
    ComposedIntoPrefix(s.content, before, packet, payload);
    ComposedLength(packet, payload);
  }

  datatype Queued = Queued(packet: Info, payload: seq<byte>)

  /** Every occupied slot holds its packet. */
  predicate Filled(slots: seq<Slot>, packets: seq<Queued>) {
    && |slots| == |packets|
    && forall i :: 0 <= i < |slots| ==>
         |slots[i].content| >= 2
         && (Occupied(slots[i]) ==> Holds(slots[i], packets[i].packet, packets[i].payload) && slots[i].state != ACK)
         && slots[i].length <= |slots[i].content|
  }

  /** The slot is visited in time and the medium lets its packet go. */
  predicate Goes(s: Slot, m: Moment, halfDuplex: bool) {
    Occupied(s) && m.due && (halfDuplex ==> m.canStart)
  }

  /** The slots among the first n whose packets go, in order. */
  function Going(slots: seq<Slot>, moments: nat -> Moment, halfDuplex: bool, n: nat): (r: seq<nat>)
    requires n <= |slots|
  {
    if n == 0 then []
    else
      Going(slots, moments, halfDuplex, n - 1)
      + if Goes(slots[n - 1], moments(n - 1), halfDuplex) then [n - 1] else []
  }

  /** Every slot whose packet goes is there once, in ascending order. */
  lemma {:induction false} GoingExact(slots: seq<Slot>, moments: nat -> Moment, halfDuplex: bool, n: nat)
    requires n <= |slots|
    ensures var g := Going(slots, moments, halfDuplex, n);
            && (forall k :: 0 <= k < |g| ==> g[k] < n && Goes(slots[g[k]], moments(g[k]), halfDuplex))
            && (forall k, l :: 0 <= k < l < |g| ==> g[k] < g[l])
            && (forall i :: 0 <= i < n && Goes(slots[i], moments(i), halfDuplex) ==> i in g)
  {
    hide Goes;
    if n > 0 { GoingExact(slots, moments, halfDuplex, n - 1); }
  }

  lemma SlotSendsPacket(s: Slot, m: Moment, halfDuplex: bool, packet: Info, payload: seq<byte>)
    requires s.length <= |s.content| && (Occupied(s) ==> Holds(s, packet, payload) && s.state != ACK)
    ensures SlotSends(s, m, halfDuplex) == if Goes(s, m, halfDuplex) then [Packet(packet, payload)] else []
  {
    hide Packet, Latched, Sized;
    if Occupied(s) { assert s.content[..s.length] == Packet(packet, payload); }
  }

  /** One update hands to the strategy exactly the packets of the slots that go: each once, whole, nothing
      else, in the order of the slots. */
  lemma {:induction false} SentPackets(
    slots: seq<Slot>, packets: seq<Queued>, moments: nat -> Moment, halfDuplex: bool, n: nat
  )
    requires Filled(slots, packets) && n <= |slots|
    ensures var g, sent := Going(slots, moments, halfDuplex, n), Sends(slots, moments, halfDuplex, n);
            && |sent| == |g|
            && forall k :: 0 <= k < |g| ==>
                 g[k] < |slots| && Holds(slots[g[k]], packets[g[k]].packet, packets[g[k]].payload)
                 && sent[k] == Packet(packets[g[k]].packet, packets[g[k]].payload)
    decreases n
  {
    hide Holds, Packet, SlotSends;
    if n > 0 {
      var q := packets[n - 1];
      SentPackets(slots, packets, moments, halfDuplex, n - 1);
      SlotSendsPacket(slots[n - 1], moments(n - 1), halfDuplex, q.packet, q.payload);
    }
  }

  /** So it is for a device. */
  method UpdateSends(a: PJON, moments: nat -> Moment, ghost packets: seq<Queued>) returns (left: nat)
    requires a.Valid() && Filled(a.packets[..], packets)
    modifies a.packets, a`sent, a`errors
    ensures a.Valid()
    ensures var g := Going(old(a.packets[..]), moments, a.halfDuplex, |packets|);
            && |a.sent| == |old(a.sent)| + |g| && old(a.sent) <= a.sent
            && forall k :: 0 <= k < |g| ==>
                 g[k] < |packets| && Sized(packets[g[k]].packet, |packets[g[k]].payload|)
                 && a.sent[|old(a.sent)| + k] == Packet(packets[g[k]].packet, packets[g[k]].payload)
  {
    ghost var slots, hd := a.packets[..], a.halfDuplex;
    SentPackets(slots, packets, moments, hd, |packets|);
    SentSized(slots, packets, moments, hd);
    hide *;
    left := a.Update(moments);
  }

  lemma SentSized(slots: seq<Slot>, packets: seq<Queued>, moments: nat -> Moment, halfDuplex: bool)
    requires Filled(slots, packets)
    ensures |slots| == |packets|
    ensures var g := Going(slots, moments, halfDuplex, |packets|);
            forall k :: 0 <= k < |g| ==> g[k] < |packets| && Sized(packets[g[k]].packet, |packets[g[k]].payload|)
  {
    SentPackets(slots, packets, moments, halfDuplex, |packets|);
    hide Packet, Sized, Latched, Going, Sends;
  }

  // ---------------------------------------------------------------- what comes of one visit

  /** The packet asks for an acknowledgement, and the device waits for one. */
  predicate Waits(s: Slot, halfDuplex: bool)
    requires |s.content| >= 2
  {
    halfDuplex && s.content[0] != 0 && s.content[1] & 0x04 != 0
  }

  /** The visit of a slot that is due. It ends the exchange if the packet went and was acknowledged, or went
      and needs no acknowledgement; otherwise the attempt counts, and the last one ends it too. */
  lemma VisitOutcome(s: Slot, m: Moment, halfDuplex: bool, autoDelete: bool, max: nat)
    requires |s.content| >= 2 && Occupied(s) && s.state != ACK && m.due && s.attempts <= max < 255
    ensures var (t, event) := SlotUpdate(s, m, halfDuplex, autoDelete, max);
            var done := (halfDuplex ==> m.canStart) && (Waits(s, halfDuplex) ==> m.response);
            && event == (if done then Acked else if s.attempts == max then Lost else Failed)
            && (event == Failed ==> Occupied(t) && t.attempts == s.attempts + 1 && t.content == s.content
                                    && t.length == s.length && t.registration == s.registration
                                    && t.timing == s.timing)
            && (event != Failed && s.timing == 0 && autoDelete ==> !Occupied(t) && t.attempts == 0)
            && (event != Failed && s.timing > 0 ==>
                  && Occupied(t) && t.state != ACK && t.attempts == 0 && t.registration == m.now
                  && t.content == s.content && t.length == s.length && t.timing == s.timing)
  {
    HeaderMasks(s.content[1]);
    hide AckRequested;
  }

  /** A repeated packet stays queued whatever becomes of its transmissions. */
  lemma {:induction false} RepeatedStays(s: Slot, visits: seq<Visit>, max: nat)
    requires Occupied(s) && SlotOk(s, max) && s.timing > 0 && max < 255 && Codes(visits)
    ensures var t := After(s, visits, max);
            && Occupied(t) && t.content == s.content && t.length == s.length && t.timing == s.timing
            && t.attempts <= max
    decreases |visits|
  {
    if visits != [] {
      var v := visits[0];
      UpdateKeepsSlotOk(s, v.due, v.code, v.now, max);
      RepeatedStays(UpdateSlot(s, v.due, v.code, true, v.now, max).0, visits[1..], max);
    }
  }
}
