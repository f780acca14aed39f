/** Whole runs of a polled ThroughSerial receiver: bytes arrive, polls happen and time out in any order,
    so the stream may be cut anywhere. */
module SerialRuns {
  import opened Words
  import opened SerialFrames

  /** One poll consumes a prefix of the waiting bytes and agrees with the automaton on it. A poll
      hands over a payload exactly when a frame was complete, and never does nothing when it could. */
  ghost predicate PollStep(
    d: Decoder, fifo: seq<byte>, d': Decoder, fifo': seq<byte>, out: Option<seq<byte>>, max: nat, single: bool
  ) {
    && (out.Some? <==> d.Done?)
    && exists k :: 0 <= k <= |fifo| && fifo' == fifo[k..] && PollConsumes(d, fifo[..k], d', out, max, single)
                   && (fifo != [] && !d.Done? ==> k > 0)
  }

  ghost predicate PollConsumes(
    d: Decoder, consumed: seq<byte>, d': Decoder, out: Option<seq<byte>>, max: nat, single: bool
  ) {
    var s' := Settle(d');
    Run(Settle(d), consumed, max, single) == Machine(s'.d, (if out.Some? then [out.value] else []) + s'.out)
  }

  /** A timeout is a poll that came too late for the byte it was waiting for. */
  datatype Event = Arrive(bytes: seq<byte>) | Poll(out: Option<seq<byte>>) | Timeout

  datatype Port = Port(d: Decoder, fifo: seq<byte>)

  ghost predicate Step(p: Port, e: Event, p': Port, max: nat) {
    match e
    case Arrive(bytes) => p' == Port(p.d, p.fifo + bytes)
    case Poll(out) => PollStep(p.d, p.fifo, p'.d, p'.fifo, out, max, false)
    case Timeout => !p.d.Waiting? && !p.d.Done? && p' == Port(Waiting, p.fifo)
  }

  ghost predicate PolledRun(ports: seq<Port>, events: seq<Event>, max: nat) {
    && |ports| == |events| + 1
    && ports[0].fifo == [] && !ports[0].d.Done?
    && forall i :: 0 <= i < |events| ==> Step(ports[i], events[i], ports[i + 1], max)
  }

  function Arrived(events: seq<Event>): seq<byte> {
    if events == [] then []
    else
      var e := events[|events| - 1];
      Arrived(events[..|events| - 1]) + if e.Arrive? then e.bytes else []
  }

  function Delivered(events: seq<Event>): seq<seq<byte>> {
    if events == [] then []
    else
      var e := events[|events| - 1];
      Delivered(events[..|events| - 1]) + if e.Poll? && e.out.Some? then [e.out.value] else []
  }

  function Timeouts(events: seq<Event>): nat {
    if events == [] then 0
    else Timeouts(events[..|events| - 1]) + if events[|events| - 1].Timeout? then 1 else 0
  }

  // ---------------------------------------------------------------- bytes with cuts

  /** A byte, or a cut that makes the decoder wait again. */
  type Symbol = Option<byte>

  function Plain(bytes: seq<byte>): (s: seq<Symbol>)
    ensures |s| == |bytes|
  {
    seq(|bytes|, i requires 0 <= i < |bytes| => Some(bytes[i]))
  }

  function Bytes(symbols: seq<Symbol>): seq<byte> {
    if symbols == [] then []
    else (if symbols[0].Some? then [symbols[0].value] else []) + Bytes(symbols[1..])
  }

  function Cuts(symbols: seq<Symbol>): nat {
    if symbols == [] then 0 else (if symbols[0].Some? then 0 else 1) + Cuts(symbols[1..])
  }

  function RunCut(m: Machine, symbols: seq<Symbol>, max: nat): Machine
    decreases |symbols|
  {
    if symbols == [] then m
    else
      RunCut(CutStep(m, symbols[0], max), symbols[1..], max)
  }

  function CutStep(m: Machine, s: Symbol, max: nat): Machine {
    match s
    case Some(b) => SerialFrames.Step(m, b, max, false)
    case None => Machine(Waiting, m.out)
  }

  lemma {:induction false} CutConcat(m: Machine, a: seq<Symbol>, b: seq<Symbol>, max: nat)
    ensures RunCut(m, a + b, max) == RunCut(RunCut(m, a, max), b, max)
    ensures Bytes(a + b) == Bytes(a) + Bytes(b) && Cuts(a + b) == Cuts(a) + Cuts(b)
    decreases |a|
  {
    BytesConcat(a, b);
    CutsConcat(a, b);
    hide CutStep, Bytes, Cuts;
    if a == [] {
      assert a + b == b;
    } else {
      assert (a + b)[1..] == a[1..] + b;
      CutConcat(CutStep(m, a[0], max), a[1..], b, max);
    }
  }

  lemma {:induction false} BytesConcat(a: seq<Symbol>, b: seq<Symbol>)
    ensures Bytes(a + b) == Bytes(a) + Bytes(b)
    decreases |a|
  {
    if a == [] {
      assert a + b == b;
    } else {
      var first, rest := if a[0].Some? then [a[0].value] else [], a[1..];
      assert a + b == [a[0]] + (rest + b);
      BytesCons(a[0], rest + b);
      BytesConcat(rest, b);
      assert Bytes(a) == first + Bytes(rest);
      hide Bytes;
      Reassociate(first, Bytes(rest), Bytes(b));
    }
  }

  lemma {:induction false} CutsConcat(a: seq<Symbol>, b: seq<Symbol>)
    ensures Cuts(a + b) == Cuts(a) + Cuts(b)
    decreases |a|
  {
    if a == [] {
      assert a + b == b;
    } else {
      assert (a + b)[1..] == a[1..] + b;
      CutsConcat(a[1..], b);
    }
  }

  lemma {:induction false} CutPlain(m: Machine, bytes: seq<byte>, max: nat)
    ensures RunCut(m, Plain(bytes), max) == Run(m, bytes, max, false)
    ensures Bytes(Plain(bytes)) == bytes && Cuts(Plain(bytes)) == 0
    decreases |bytes|
  {
    if bytes != [] {
      assert Plain(bytes)[1..] == Plain(bytes[1..]);
      CutPlain(SerialFrames.Step(m, bytes[0], max, false), bytes[1..], max);
    }
  }

  /** Without cuts there are only bytes. */
  lemma {:induction false} Uncut(symbols: seq<Symbol>)
    requires Cuts(symbols) == 0
    ensures symbols == Plain(Bytes(symbols))
  {
    if symbols != [] {
      Uncut(symbols[1..]);
      assert symbols == [symbols[0]] + symbols[1..];
    }
  }

  // ---------------------------------------------------------------- refinement

  /** The port has delivered what the automaton outputs on the bytes taken so far, cut where polls timed
      out, except for a complete frame that waits for the next poll. */
  ghost predicate Refines(
    start: Decoder, arrived: seq<byte>, symbols: seq<Symbol>, timeouts: nat, delivered: seq<seq<byte>>, p: Port,
    max: nat
  ) {
    && Bytes(symbols) + p.fifo == arrived && Cuts(symbols) == timeouts
    && RunCut(Machine(start, []), symbols, max) == Machine(Settle(p.d).d, delivered + Settle(p.d).out)
  }

  lemma PollRefines(
    start: Decoder, arrived: seq<byte>, symbols: seq<Symbol>, timeouts: nat, delivered: seq<seq<byte>>, p: Port,
    out: Option<seq<byte>>, p': Port, max: nat
  ) returns (symbols': seq<Symbol>)
    requires Refines(start, arrived, symbols, timeouts, delivered, p, max)
    requires PollStep(p.d, p.fifo, p'.d, p'.fifo, out, max, false)
    ensures Refines(start, arrived, symbols', timeouts, delivered + (if out.Some? then [out.value] else []), p', max)
  {
    var k :| 0 <= k <= |p.fifo| && p'.fifo == p.fifo[k..] && PollConsumes(p.d, p.fifo[..k], p'.d, out, max, false);
    hide Run, RunCut, Bytes, Cuts, PollConsumes, PollStep;
    var consumed := p.fifo[..k];
    symbols' := symbols + Plain(consumed);
    MachineContinues(start, symbols, delivered, p.d, consumed, p'.d, out, max);
    BytesContinue(Bytes(symbols), p.fifo, k);
  }

  lemma BytesContinue(taken: seq<byte>, fifo: seq<byte>, k: nat)
    requires k <= |fifo|
    ensures (taken + fifo[..k]) + fifo[k..] == taken + fifo
  {
  }

  lemma MachineContinues(
    start: Decoder, symbols: seq<Symbol>, delivered: seq<seq<byte>>, d: Decoder, consumed: seq<byte>, d': Decoder,
    out: Option<seq<byte>>, max: nat
  )
    requires RunCut(Machine(start, []), symbols, max) == Machine(Settle(d).d, delivered + Settle(d).out)
    requires PollConsumes(d, consumed, d', out, max, false)
    ensures RunCut(Machine(start, []), symbols + Plain(consumed), max)
            == Machine(Settle(d').d, (delivered + (if out.Some? then [out.value] else [])) + Settle(d').out)
    ensures Bytes(symbols + Plain(consumed)) == Bytes(symbols) + consumed
    ensures Cuts(symbols + Plain(consumed)) == Cuts(symbols)
  {
    hide Run, RunCut, Bytes, Cuts;
    CutConcat(Machine(start, []), symbols, Plain(consumed), max);
    CutPlain(Machine(Settle(d).d, delivered + Settle(d).out), consumed, max);
    RunOutput(Settle(d), delivered, consumed, max, false);
    var given := if out.Some? then [out.value] else [];
    assert delivered + (given + Settle(d').out) == (delivered + given) + Settle(d').out;
  }

  lemma TimeoutRefines(
    start: Decoder, arrived: seq<byte>, symbols: seq<Symbol>, timeouts: nat, delivered: seq<seq<byte>>, p: Port,
    max: nat
  )
    requires Refines(start, arrived, symbols, timeouts, delivered, p, max) && !p.d.Done?
    ensures Refines(start, arrived, symbols + [None], timeouts + 1, delivered, Port(Waiting, p.fifo), max)
  {
    CutConcat(Machine(start, []), symbols, [None], max);
    assert Bytes(symbols) + [] == Bytes(symbols);
    var cut: seq<Symbol> := [None];
    assert cut[1..] == [];
  }

  /** However bytes, polls and timeouts interleave, the polled receiver refines the automaton that is fed
      one byte at a time and made to wait at each timeout. */
  lemma {:induction false} PollingRefinesAutomaton(ports: seq<Port>, events: seq<Event>, max: nat)
    returns (symbols: seq<Symbol>)
    requires PolledRun(ports, events, max)
    ensures Refines(ports[0].d, Arrived(events), symbols, Timeouts(events), Delivered(events), ports[|events|], max)
  {
    var m := |events| - 1;
    symbols := [];
    if m >= 0 {
      var before, p, p' := events[..m], ports[m], ports[m + 1];
      assert PolledRun(ports[..m + 1], before, max);
      symbols := PollingRefinesAutomaton(ports[..m + 1], before, max);
      assert Step(p, events[m], p', max);
      assert Arrived(before) + [] == Arrived(before) && Delivered(before) + [] == Delivered(before);
      hide RunCut, Bytes, Cuts;
      match events[m]
      case Arrive(bytes) =>
        assert Bytes(symbols) + (p.fifo + bytes) == (Bytes(symbols) + p.fifo) + bytes;
      case Poll(out) =>
        symbols := PollRefines(ports[0].d, Arrived(before), symbols, Timeouts(before), Delivered(before), p, out, p',
                               max);
      case Timeout =>
        TimeoutRefines(ports[0].d, Arrived(before), symbols, Timeouts(before), Delivered(before), p, max);
        symbols := symbols + [None];
    }
  }

  /** Every poll that has something to do brings the port closer to having nothing to do. */
  function Backlog(p: Port): nat {
    2 * |p.fifo| + if p.d.Done? then 1 else 0
  }

  lemma PollsMakeProgress(p: Port, out: Option<seq<byte>>, p': Port, max: nat)
    requires PollStep(p.d, p.fifo, p'.d, p'.fifo, out, max, false) && Backlog(p) > 0
    ensures Backlog(p') < Backlog(p)
  {
    if p.d.Done? {
      var k :| 0 <= k <= |p.fifo| && p'.fifo == p.fifo[k..] && PollConsumes(p.d, p.fifo[..k], p'.d, out, max, false)
               && (p.fifo != [] && !p.d.Done? ==> k > 0);
      if k == 0 { assert p.fifo[..k] == []; }
    }
  }

  // ---------------------------------------------------------------- frames with cuts

  /** `a` is `b` with some elements left out. */
  predicate Subsequence(a: seq<seq<byte>>, b: seq<seq<byte>>)
    decreases |b|
  {
    a == [] || (b != [] && ((a[0] == b[0] && Subsequence(a[1..], b[1..])) || Subsequence(a, b[1..])))
  }

  lemma {:induction false} CutIgnores(out: seq<seq<byte>>, symbols: seq<Symbol>, max: nat)
    requires START !in Bytes(symbols)
    ensures RunCut(Machine(Waiting, out), symbols, max) == Machine(Waiting, out)
    decreases |symbols|
  {
    if symbols != [] {
      assert out + [] == out;
      CutIgnores(out, symbols[1..], max);
    }
  }

  /** Nothing is handed over before an end flag. */
  lemma {:induction false} NoEndNoOutput(m: Machine, bytes: seq<byte>, max: nat)
    requires END !in bytes && !m.d.Done?
    ensures Run(m, bytes, max, false).out == m.out
    decreases |bytes|
  {
    if bytes != [] {
      assert m.out + [] == m.out;
      NoEndNoOutput(SerialFrames.Step(m, bytes[0], max, false), bytes[1..], max);
    }
  }

  /** The bytes before the first cut, and what comes after it. */
  lemma {:induction false} FirstCut(symbols: seq<Symbol>) returns (a: seq<byte>, rest: seq<Symbol>)
    requires Cuts(symbols) > 0
    ensures symbols == Plain(a) + ([None] + rest) && Cuts(rest) == Cuts(symbols) - 1
    ensures Bytes(symbols) == a + Bytes(rest)
    decreases |symbols|
  {
    assert symbols == [symbols[0]] + symbols[1..];
    if symbols[0].None? {
      a, rest := [], symbols[1..];
      assert symbols == Plain(a) + ([None] + rest);
    } else {
      var b;
      b, rest := FirstCut(symbols[1..]);
      a := [symbols[0].value] + b;
      assert Plain(a) == [symbols[0]] + Plain(b);
      assert a + Bytes(rest) == [symbols[0].value] + (b + Bytes(rest));
    }
  }

  /** A frame cut in any way is handed over whole or not at all, whole if it is not cut; and it leaves the
      decoder waiting. */
  lemma {:induction false} FrameCut(d: Decoder, payload: seq<byte>, symbols: seq<Symbol>, out: seq<seq<byte>>, max: nat)
    returns (kept: bool)
    requires Bytes(symbols) == Frame(payload) && Fits(payload, max) && !d.Done?
    ensures RunCut(Machine(d, out), symbols, max) == Machine(Waiting, if kept then out + [payload] else out)
    ensures Cuts(symbols) == 0 && d.Waiting? ==> kept
    decreases |symbols|
  {
    if Cuts(symbols) == 0 {
      Uncut(symbols);
      CutPlain(Machine(d, out), Frame(payload), max);
      kept := d.Waiting?;
      if kept { FrameDecodes(out, payload, max); } else { FrameResynchronises(d, out, payload, max); }
    } else {
      var a, rest := FirstCut(symbols);
      CutConcat(Machine(d, out), Plain(a), [None] + rest, max);
      CutPlain(Machine(d, out), a, max);
      var m := Run(Machine(d, out), a, max, false);
      assert ([None] + rest)[1..] == rest;
      assert RunCut(Machine(d, out), symbols, max) == RunCut(Machine(Waiting, m.out), rest, max);
      if a == [] {
        kept := FrameCut(Waiting, payload, rest, out, max);
      } else {
        kept := CutInside(d, payload, a, rest, out, max);
      }
    }
  }

  /** The cut comes after some bytes of the frame. */
  lemma CutInside(d: Decoder, payload: seq<byte>, a: seq<byte>, rest: seq<Symbol>, out: seq<seq<byte>>, max: nat)
    returns (kept: bool)
    requires a != [] && a + Bytes(rest) == Frame(payload) && Fits(payload, max) && !d.Done?
    ensures RunCut(Machine(Waiting, Run(Machine(d, out), a, max, false).out), rest, max)
            == Machine(Waiting, if kept then out + [payload] else out)
  {
    var frame, tail := Frame(payload), Bytes(rest);
    StuffedHasNoFlags(payload);
    assert tail == frame[|a|..] && a == frame[..|a|];
    assert START !in tail by {
      forall i | 0 <= i < |tail| ensures tail[i] != START { assert tail[i] == frame[|a| + i]; }
    }
    CutIgnores(Run(Machine(d, out), a, max, false).out, rest, max);
    if tail == [] {
      assert a == frame;
      kept := d.Waiting?;
      if kept { FrameDecodes(out, payload, max); } else { FrameResynchronises(d, out, payload, max); }
    } else {
      assert END !in a by {
        forall i | 0 <= i < |a| ensures a[i] != END { assert a[i] == frame[i]; }
      }
      NoEndNoOutput(Machine(d, out), a, max);
      kept := false;
    }
  }

  lemma {:induction false} SplitAfter(symbols: seq<Symbol>, n: nat) returns (i: nat)
    requires n <= |Bytes(symbols)|
    ensures i <= |symbols| && Bytes(symbols[..i]) == Bytes(symbols)[..n] && Bytes(symbols[i..]) == Bytes(symbols)[n..]
    decreases |symbols|
  {
    if n == 0 {
      i := 0;
      assert symbols[..0] == [] && symbols[0..] == symbols;
    } else {
      var first := if symbols[0].Some? then [symbols[0].value] else [];
      var rest := symbols[1..];
      var j := SplitAfter(rest, n - |first|);
      i := j + 1;
      assert symbols[..i] == [symbols[0]] + rest[..j] && symbols[i..] == rest[j..];
      BytesCons(symbols[0], rest[..j]);
      var bytes := Bytes(rest);
      assert Bytes(symbols) == first + bytes;
      hide Bytes;
      TakeBehind(first, bytes, n);
    }
  }

  lemma BytesCons(s: Symbol, rest: seq<Symbol>)
    ensures Bytes([s] + rest) == (if s.Some? then [s.value] else []) + Bytes(rest)
  {
    assert ([s] + rest)[1..] == rest;
  }

  lemma TakeBehind(a: seq<byte>, b: seq<byte>, n: nat)
    requires |a| <= n <= |a| + |b|
    ensures (a + b)[..n] == a + b[..n - |a|] && (a + b)[n..] == b[n - |a|..]
  {
  }

  /** A stream of frames cut in any way: each cut costs at most one frame, and so does a busy start. */
  lemma {:induction false} StreamCut(
    d: Decoder, payloads: seq<seq<byte>>, symbols: seq<Symbol>, out: seq<seq<byte>>, max: nat
  ) returns (kept: seq<seq<byte>>)
    requires Bytes(symbols) == Frames(payloads) && AllFit(payloads, max) && !d.Done? && payloads != []
    ensures RunCut(Machine(d, out), symbols, max) == Machine(Waiting, out + kept)
    ensures Subsequence(kept, payloads)
    ensures |payloads| <= |kept| + Cuts(symbols) + if d.Waiting? then 0 else 1
    decreases |payloads|
  {
    var i := SplitAfter(symbols, |Frame(payloads[0])|);
    var rest := symbols[i..];
    assert symbols == symbols[..i] + rest;
    CutConcat(Machine(d, out), symbols[..i], rest, max);
    assert Frames(payloads)[..|Frame(payloads[0])|] == Frame(payloads[0]);
    assert Frames(payloads)[|Frame(payloads[0])|..] == Frames(payloads[1..]);
    var first := FrameCut(d, payloads[0], symbols[..i], out, max);
    var out' := if first then out + [payloads[0]] else out;
    var more: seq<seq<byte>> := [];
    if |payloads| > 1 {
      more := StreamCut(Waiting, payloads[1..], rest, out', max);
    } else {
      assert payloads[1..] == [];
      CutIgnores(out', rest, max);
      assert out' + [] == out';
    }
    kept := if first then [payloads[0]] + more else more;
    assert kept[if first then 1 else 0..] == more;
    assert out' + more == out + kept;
  }

  /** A stream of intact frames, cut between polls in any way, is delivered in order once the backlog is
      gone: every frame, except that each poll that timed out costs at most one, and so does a decoder
      that was busy when it began. */
  lemma AnyCutDecodes(ports: seq<Port>, events: seq<Event>, payloads: seq<seq<byte>>, max: nat)
    requires PolledRun(ports, events, max) && Backlog(ports[|events|]) == 0
    requires payloads != [] && AllFit(payloads, max) && Arrived(events) == Frames(payloads)
    ensures Subsequence(Delivered(events), payloads)
    ensures |payloads| <= |Delivered(events)| + Timeouts(events) + if ports[0].d.Waiting? then 0 else 1
    ensures Timeouts(events) == 0 ==> Delivered(events) == if ports[0].d.Waiting? then payloads else payloads[1..]
  {
    var d := ports[0].d;
    var symbols := PollingRefinesAutomaton(ports, events, max);
    assert Bytes(symbols) + [] == Bytes(symbols);
    assert Delivered(events) + [] == Delivered(events);
    var kept := StreamCut(d, payloads, symbols, [], max);
    assert [] + kept == kept;
    if Timeouts(events) == 0 {
      Uncut(symbols);
      CutPlain(Machine(d, []), Frames(payloads), max);
      AtMostOneFrameLost(d, payloads, max);
    }
  }

  // ---------------------------------------------------------------- room for frames with cuts

  /** A decoder that waits stays in room from any place of these bytes on. */
  ghost predicate SafeAnywhere(stream: seq<byte>, max: nat) {
    forall i, out :: 0 <= i <= |stream| ==> Stays(Machine(Waiting, out), stream[i..], max, false)
  }

  lemma {:induction false} StreamSafeFrom(payloads: seq<seq<byte>>, i: nat, out: seq<seq<byte>>, max: nat)
    requires NoneOverflows(payloads, max) && i <= |Frames(payloads)|
    ensures Stays(Machine(Waiting, out), Frames(payloads)[i..], max, false)
    decreases |payloads|
  {
    var stream := Frames(payloads);
    if i == 0 {
      assert stream[0..] == stream;
      StreamStays(Machine(Waiting, out), payloads, max);
    } else {
      var frame, rest := Frame(payloads[0]), Frames(payloads[1..]);
      if i < |frame| {
        StuffedHasNoFlags(payloads[0]);
        assert START !in frame[i..] by {
          forall j | i <= j < |frame| ensures frame[j] != START { }
        }
        assert stream[i..] == frame[i..] + rest;
        WaitingStays(out, frame[i..], max);
        WaitingIgnores(out, frame[i..], max, false);
        StaysConcat(Machine(Waiting, out), frame[i..], rest, max);
        StreamStays(Machine(Waiting, out), payloads[1..], max);
      } else {
        assert stream[i..] == rest[i - |frame|..];
        StreamSafeFrom(payloads[1..], i - |frame|, out, max);
      }
    }
  }

  /** A decoder that stays in room over what is to come does so after any part of it, cut in any way. */
  lemma {:induction false} CutStays(m: Machine, symbols: seq<Symbol>, rest: seq<byte>, max: nat)
    requires SafeAnywhere(Bytes(symbols) + rest, max) && Stays(m, Bytes(symbols) + rest, max, false)
    ensures Stays(RunCut(m, symbols, max), rest, max, false)
    decreases |symbols|
  {
    if symbols == [] {
      assert Bytes(symbols) + rest == rest;
    } else {
      var stream, later := Bytes(symbols) + rest, Bytes(symbols[1..]) + rest;
      if symbols[0].Some? {
        var b := symbols[0].value;
        assert stream == [b] + later && later == stream[1..];
        StaysCons(m, b, later, max);
      } else {
        assert later == stream[0..];
      }
      assert forall i :: 0 <= i <= |later| ==> later[i..] == stream[i + |stream| - |later|..];
      hide Stays;
      CutStays(CutStep(m, symbols[0], max), symbols[1..], rest, max);
    }
  }

  /** Where no frame of a stream ends with two flags that have no room, the decoder stays in room over the
      whole stream, cut anywhere. */
  lemma CutStreamStaysInRoom(
    d: Decoder, payloads: seq<seq<byte>>, symbols: seq<Symbol>, rest: seq<byte>, max: nat
  )
    requires !d.Done? && Held(d) <= max && NoneOverflows(payloads, max)
    requires Bytes(symbols) + rest == Frames(payloads)
    ensures Stays(RunCut(Machine(d, []), symbols, max), rest, max, false)
    ensures Held(RunCut(Machine(d, []), symbols, max).d) <= max
  {
    forall i, out | 0 <= i <= |Frames(payloads)|
      ensures Stays(Machine(Waiting, out), Frames(payloads)[i..], max, false)
    {
      StreamSafeFrom(payloads, i, out, max);
    }
    FramesStayInRoom(d, payloads, max);
    assert Stays(Machine(d, []), Frames(payloads), max, false);
    hide Stays;
    CutStays(Machine(d, []), symbols, rest, max);
    StaysHeld(RunCut(Machine(d, []), symbols, max), rest, max);
  }

  /** So no poll of a run can leave the buffer while such a stream arrives. */
  lemma PollsStayInRoom(ports: seq<Port>, events: seq<Event>, payloads: seq<seq<byte>>, k: nat, max: nat)
    requires PolledRun(ports, events, max) && Held(ports[0].d) <= max && NoneOverflows(payloads, max)
    requires Arrived(events) <= Frames(payloads) && k <= |ports[|events|].fifo|
    ensures InRoom(ports[|events|].d, ports[|events|].fifo[..k], max, false)
  {
    var symbols := PollingRefinesAutomaton(ports, events, max);
    assert !ports[0].d.Done?;
    hide *;
    RefinedStays(ports[0].d, Arrived(events), symbols, Timeouts(events), Delivered(events), ports[|events|], payloads,
                 k, max);
  }

  lemma RefinedStays(
    start: Decoder, arrived: seq<byte>, symbols: seq<Symbol>, timeouts: nat, delivered: seq<seq<byte>>, p: Port,
    payloads: seq<seq<byte>>, k: nat, max: nat
  )
    requires Refines(start, arrived, symbols, timeouts, delivered, p, max) && !start.Done? && Held(start) <= max
    requires NoneOverflows(payloads, max) && arrived <= Frames(payloads) && k <= |p.fifo|
    ensures InRoom(p.d, p.fifo[..k], max, false)
  {
    var m := RunCut(Machine(start, []), symbols, max);
    hide RunCut, Bytes, Run, Stays, Frames, NoneOverflows, Held;
    var later := Frames(payloads)[|arrived|..];
    assert Bytes(symbols) + (p.fifo + later) == Frames(payloads);
    CutStreamStaysInRoom(start, payloads, symbols, p.fifo + later, max);
    StaysPrefix(m, p.fifo + later, k, max);
    assert (p.fifo + later)[..k] == p.fifo[..k];
    StaysWhatever(m, Settle(p.d), p.fifo[..k], max);
  }

  lemma StaysPrefix(m: Machine, bytes: seq<byte>, k: nat, max: nat)
    requires k <= |bytes| && Stays(m, bytes, max, false)
    ensures Stays(m, bytes[..k], max, false)
  {
    assert forall i :: 0 <= i <= k ==> bytes[..k][..i] == bytes[..i];
  }

  /** What was handed over before makes no difference. */
  lemma {:induction false} StaysWhatever(m: Machine, m': Machine, bytes: seq<byte>, max: nat)
    requires m.d == m'.d && Stays(m, bytes, max, false)
    ensures Stays(m', bytes, max, false)
    decreases |bytes|
  {
    StaysHeld(m, bytes, max);
    if bytes == [] {
      assert bytes[..0] == [];
    } else {
      assert bytes == [bytes[0]] + bytes[1..];
      StaysCons(m, bytes[0], bytes[1..], max);
      StaysCons(m', bytes[0], bytes[1..], max);
      StaysWhatever(SerialFrames.Step(m, bytes[0], max, false), SerialFrames.Step(m', bytes[0], max, false), bytes[1..],
                    max);
    }
  }
}
