/** SFSP framing as ThroughSerial runs it: byte stuffing, and the decoder as an automaton that is fed
    one byte at a time. `max` stands for PJON_PACKET_MAX_LENGTH. */
module SerialFrames {
  import opened Words

  const START: byte := 149
  const END: byte := 234
  const ESC: byte := 187

  predicate IsFlag(b: byte) {
    b == START || b == ESC || b == END
  }

  // ---------------------------------------------------------------- encoding

  function StuffByte(b: byte): seq<byte> {
    if IsFlag(b) then [ESC, b ^ ESC] else [b]
  }

  function Stuff(payload: seq<byte>): seq<byte> {
    if payload == [] then [] else StuffByte(payload[0]) + Stuff(payload[1..])
  }

  function Frame(payload: seq<byte>): seq<byte> {
    [START] + Stuff(payload) + [END]
  }

  function Frames(payloads: seq<seq<byte>>): seq<byte> {
    if payloads == [] then [] else Frame(payloads[0]) + Frames(payloads[1..])
  }

  predicate Fits(payload: seq<byte>, max: nat) {
    |payload| + 2 <= max
  }

  /** The start and end flags never occur between the flags of a frame. */
  lemma {:induction false} StuffedHasNoFlags(payload: seq<byte>)
    ensures START !in Stuff(payload) && END !in Stuff(payload)
  {
    if payload != [] { StuffedHasNoFlags(payload[1..]); }
  }

  // ---------------------------------------------------------------- decoding

  datatype Decoder =
    | Waiting
    | Receiving(got: seq<byte>)
    | WaitingEscape(got: seq<byte>)
    | WaitingEnd(got: seq<byte>)
    | Done(got: seq<byte>)

  /** One byte; `single` is a poll with room for one byte only. */
  function Feed(d: Decoder, b: byte, max: nat, single: bool): Decoder {
    match d
    case Waiting => if b == START then Receiving([]) else Waiting
    case Receiving(got) =>
      if b == START then Waiting
      else if b == ESC then WaitingEscape(got)
      else if single then WaitingEnd(got)
      else if |got| + 1 >= max then Waiting
      else if b == END then Done(got)
      else Receiving(got + [b])
    case WaitingEscape(got) => if IsFlag(b ^ ESC) then Receiving(got + [b ^ ESC]) else Waiting
    case WaitingEnd(got) => if b == END then Done(got) else Waiting
    case Done(got) => Done(got)
  }

  /** The automaton with its output: a finished frame is handed over before the next byte. */
  datatype Machine = Machine(d: Decoder, out: seq<seq<byte>>)

  function Settle(d: Decoder): Machine {
    if d.Done? then Machine(Waiting, [d.got]) else Machine(d, [])
  }

  function Step(m: Machine, b: byte, max: nat, single: bool): Machine {
    var s := Settle(Feed(m.d, b, max, single));
    Machine(s.d, m.out + s.out)
  }

  function Run(m: Machine, bytes: seq<byte>, max: nat, single: bool): Machine
    decreases |bytes|
  {
    if bytes == [] then m else Run(Step(m, bytes[0], max, single), bytes[1..], max, single)
  }

  lemma {:induction false} RunConcat(m: Machine, a: seq<byte>, b: seq<byte>, max: nat, single: bool)
    ensures Run(m, a + b, max, single) == Run(Run(m, a, max, single), b, max, single)
    decreases |a|
  {
    if a == [] {
      assert a + b == b;
    } else {
      assert (a + b)[1..] == a[1..] + b;
      RunConcat(Step(m, a[0], max, single), a[1..], b, max, single);
    }
  }

  /** Earlier output never influences what follows. */
  lemma {:induction false} RunOutput(m: Machine, out: seq<seq<byte>>, bytes: seq<byte>, max: nat, single: bool)
    ensures Run(Machine(m.d, out + m.out), bytes, max, single)
            == Machine(Run(m, bytes, max, single).d, out + Run(m, bytes, max, single).out)
    decreases |bytes|
  {
    if bytes != [] {
      var m1 := Step(m, bytes[0], max, single);
      RunOutput(m1, out, bytes[1..], max, single);
      assert (out + m.out) + Settle(Feed(m.d, bytes[0], max, single)).out == out + m1.out;
    }
  }

  /** A listener that waits is not disturbed by bytes without a start flag. */
  lemma {:induction false} WaitingIgnores(out: seq<seq<byte>>, bytes: seq<byte>, max: nat, single: bool)
    requires START !in bytes
    ensures Run(Machine(Waiting, out), bytes, max, single) == Machine(Waiting, out)
    decreases |bytes|
  {
    if bytes != [] {
      assert out + [] == out;
      WaitingIgnores(out, bytes[1..], max, single);
    }
  }

  // ---------------------------------------------------------------- one frame

  lemma RunPlain(m: Machine, b: byte, rest: seq<byte>, max: nat, single: bool := false)
    ensures Run(m, [b] + rest, max, single) == Run(Step(m, b, max, single), rest, max, single)
  {
    assert ([b] + rest)[1..] == rest;
  }

  lemma RunEscaped(got: seq<byte>, out: seq<seq<byte>>, b: byte, rest: seq<byte>, max: nat)
    requires IsFlag(b)
    ensures Run(Machine(Receiving(got), out), [ESC, b ^ ESC] + rest, max, false)
            == Run(Machine(Receiving(got + [b]), out), rest, max, false)
  {
    var all := [ESC, b ^ ESC] + rest;
    assert all == [ESC] + ([b ^ ESC] + rest);
    assert (b ^ ESC) ^ ESC == b;
    assert out + [] == out;
    RunPlain(Machine(Receiving(got), out), ESC, [b ^ ESC] + rest, max);
    RunPlain(Machine(WaitingEscape(got), out), b ^ ESC, rest, max);
  }

  /** The rest of a frame body: handed over complete when it fits, dropped otherwise. */
  lemma {:induction false} RunBody(got: seq<byte>, out: seq<seq<byte>>, payload: seq<byte>, max: nat)
    ensures Run(Machine(Receiving(got), out), Stuff(payload) + [END], max, false)
            == Machine(Waiting, if Fits(got + payload, max) then out + [got + payload] else out)
    decreases |payload|
  {
    var m := Machine(Receiving(got), out);
    assert out + [] == out;
    if payload == [] {
      assert Stuff(payload) + [END] == [END] + [];
      RunPlain(m, END, [], max);
      assert got + payload == got;
    } else {
      var b, rest := payload[0], payload[1..];
      assert got + payload == (got + [b]) + rest;
      assert Stuff(payload) + [END] == StuffByte(b) + (Stuff(rest) + [END]);
      if IsFlag(b) {
        RunEscaped(got, out, b, Stuff(rest) + [END], max);
        RunBody(got + [b], out, rest, max);
      } else {
        RunPlain(m, b, Stuff(rest) + [END], max);
        if |got| + 1 >= max {
          StuffedHasNoFlags(rest);
          WaitingIgnores(out, Stuff(rest) + [END], max, false);
        } else {
          RunBody(got + [b], out, rest, max);
        }
      }
    }
  }

  /** A listener that waits is handed the payload of the next frame exactly when it leaves two bytes
      of the buffer free; a longer one is dropped whole. */
  lemma FrameDecodes(out: seq<seq<byte>>, payload: seq<byte>, max: nat)
    ensures Run(Machine(Waiting, out), Frame(payload), max, false)
            == Machine(Waiting, if Fits(payload, max) then out + [payload] else out)
  {
    var body := Stuff(payload) + [END];
    assert Frame(payload) == [START] + body;
    RunPlain(Machine(Waiting, out), START, body, max);
    assert out + [] == out;
    RunBody([], out, payload, max);
    assert [] + payload == payload;
  }

  /** In the middle of anything, a frame is lost, but leaves the decoder waiting. */
  lemma FrameResynchronises(d: Decoder, out: seq<seq<byte>>, payload: seq<byte>, max: nat)
    requires !d.Waiting? && !d.Done?
    ensures Run(Machine(d, out), Frame(payload), max, false) == Machine(Waiting, out)
  {
    var body := Stuff(payload) + [END];
    assert Frame(payload) == [START] + body;
    RunPlain(Machine(d, out), START, body, max);
    assert out + [] == out;
    StuffedHasNoFlags(payload);
    WaitingIgnores(out, body, max, false);
  }

  // ---------------------------------------------------------------- streams of frames

  predicate AllFit(payloads: seq<seq<byte>>, max: nat) {
    forall i :: 0 <= i < |payloads| ==> Fits(payloads[i], max)
  }

  lemma {:induction false} StreamDecodes(out: seq<seq<byte>>, payloads: seq<seq<byte>>, max: nat)
    requires AllFit(payloads, max)
    ensures Run(Machine(Waiting, out), Frames(payloads), max, false) == Machine(Waiting, out + payloads)
    decreases |payloads|
  {
    if payloads == [] {
      assert out + payloads == out;
    } else {
      FrameDecodes(out, payloads[0], max);
      RunConcat(Machine(Waiting, out), Frame(payloads[0]), Frames(payloads[1..]), max, false);
      StreamDecodes(out + [payloads[0]], payloads[1..], max);
      assert (out + [payloads[0]]) + payloads[1..] == out + payloads;
    }
  }

  /** Whatever the decoder was doing, of a stream of intact frames at most the first is lost: exactly
      when the decoder was not waiting. */
  lemma AtMostOneFrameLost(d: Decoder, payloads: seq<seq<byte>>, max: nat)
    requires !d.Done? && payloads != [] && AllFit(payloads, max)
    ensures Run(Machine(d, []), Frames(payloads), max, false)
            == Machine(Waiting, if d.Waiting? then payloads else payloads[1..])
  {
    if d.Waiting? {
      StreamDecodes([], payloads, max);
      assert [] + payloads == payloads;
    } else {
      FrameResynchronises(d, [], payloads[0], max);
      RunConcat(Machine(d, []), Frame(payloads[0]), Frames(payloads[1..]), max, false);
      StreamDecodes([], payloads[1..], max);
      assert [] + payloads[1..] == payloads[1..];
    }
  }

  // ---------------------------------------------------------------- room in the buffer

  /** Bytes a decoder holds in its buffer. */
  function Held(d: Decoder): nat {
    if d.Waiting? then 0 else |d.got|
  }

  /** Feeding `bytes` never makes the decoder hold more than `max` bytes. The escape path of the
      receiver stores without looking for room, so this is a condition on what arrives. */
  ghost predicate InRoom(d: Decoder, bytes: seq<byte>, max: nat, single: bool) {
    Stays(Settle(d), bytes, max, single)
  }

  ghost predicate Stays(m: Machine, bytes: seq<byte>, max: nat, single: bool) {
    forall k :: 0 <= k <= |bytes| ==> Held(Run(m, bytes[..k], max, single).d) <= max
  }

  lemma StaysOneMore(m: Machine, bytes: seq<byte>, b: byte, max: nat, single: bool)
    ensures Stays(m, bytes + [b], max, single)
            <==> Stays(m, bytes, max, single) && Held(Run(m, bytes + [b], max, single).d) <= max
  {
    hide Run;
    var more := bytes + [b];
    assert more[..|more|] == more;
    forall k | 0 <= k <= |bytes| ensures more[..k] == bytes[..k] { }
    if Stays(m, more, max, single) {
      forall k | 0 <= k <= |bytes| ensures Held(Run(m, bytes[..k], max, single).d) <= max {
        assert Held(Run(m, more[..k], max, single).d) <= max;
      }
    }
  }

  /** Staying in room over a stream is staying in room over its first byte and over the rest. */
  lemma StaysCons(m: Machine, b: byte, rest: seq<byte>, max: nat)
    ensures Stays(m, [b] + rest, max, false)
            <==> Held(m.d) <= max && Stays(Step(m, b, max, false), rest, max, false)
  {
    var all, next := [b] + rest, Step(m, b, max, false);
    forall k | 0 < k <= |all| ensures Run(m, all[..k], max, false) == Run(next, rest[..k - 1], max, false) {
      assert all[..k] == [b] + rest[..k - 1];
      RunPlain(m, b, rest[..k - 1], max);
    }
    assert all[..0] == [];
    if Held(m.d) <= max && Stays(next, rest, max, false) {
      forall k | 0 <= k <= |all| ensures Held(Run(m, all[..k], max, false).d) <= max {
        if k > 0 { assert Held(Run(next, rest[..k - 1], max, false).d) <= max; }
      }
    }
    if Stays(m, all, max, false) {
      assert Held(Run(m, all[..0], max, false).d) <= max;
      forall k | 0 <= k <= |rest| ensures Held(Run(next, rest[..k], max, false).d) <= max {
        assert Held(Run(m, all[..k + 1], max, false).d) <= max;
      }
    }
  }

  lemma {:induction false} StaysConcat(m: Machine, a: seq<byte>, b: seq<byte>, max: nat)
    ensures Stays(m, a + b, max, false) <==> Stays(m, a, max, false) && Stays(Run(m, a, max, false), b, max, false)
    decreases |a|
  {
    if a == [] {
      assert a + b == b && b[..0] == [] && a[..0] == [];
      if Stays(m, b, max, false) { assert Held(Run(m, b[..0], max, false).d) <= max; }
    } else {
      var rest := a[1..];
      assert a + b == [a[0]] + (rest + b) && a == [a[0]] + rest;
      StaysCons(m, a[0], rest + b, max);
      StaysCons(m, a[0], rest, max);
      StaysConcat(Step(m, a[0], max, false), rest, b, max);
      hide Stays;
    }
  }

  /** A listener that waits stays in room whatever comes without a start flag. */
  lemma WaitingStays(out: seq<seq<byte>>, bytes: seq<byte>, max: nat)
    requires START !in bytes
    ensures Stays(Machine(Waiting, out), bytes, max, false)
  {
    forall k | 0 <= k <= |bytes| ensures Held(Run(Machine(Waiting, out), bytes[..k], max, false).d) <= max {
      WaitingIgnores(out, bytes[..k], max, false);
    }
  }

  /** Receiving this payload into a buffer that already holds `got` bytes ends with a flag that has no
      room. */
  predicate OverflowsFrom(got: nat, payload: seq<byte>, max: nat)
    decreases |payload|
  {
    payload != []
    && if IsFlag(payload[0]) then got >= max || OverflowsFrom(got + 1, payload[1..], max)
       else got + 1 < max && OverflowsFrom(got + 1, payload[1..], max)
  }

  /** The payload has a flag where the buffer is full, and one just before, which got past the look for
      room. */
  predicate Overflows(payload: seq<byte>, max: nat) {
    |payload| > max && IsFlag(payload[max]) && (max > 0 ==> IsFlag(payload[max - 1]))
  }

  lemma {:induction false} OverflowsAt(got: nat, payload: seq<byte>, max: nat)
    requires got <= max
    ensures OverflowsFrom(got, payload, max)
            <==> |payload| > max - got && IsFlag(payload[max - got]) && (got < max ==> IsFlag(payload[max - got - 1]))
    decreases |payload|
  {
    if payload != [] && got < max { OverflowsAt(got + 1, payload[1..], max); }
  }

  lemma {:induction false} BodyStays(got: seq<byte>, out: seq<seq<byte>>, payload: seq<byte>, max: nat)
    requires |got| <= max
    ensures Stays(Machine(Receiving(got), out), Stuff(payload) + [END], max, false)
            <==> !OverflowsFrom(|got|, payload, max)
    decreases |payload|
  {
    var m := Machine(Receiving(got), out);
    assert out + [] == out;
    if payload == [] {
      assert Stuff(payload) + [END] == [END] + [];
      StaysCons(m, END, [], max);
      WaitingStays(Step(m, END, max, false).out, [], max);
      hide Stays;
    } else {
      var b, tail := payload[0], Stuff(payload[1..]) + [END];
      assert Stuff(payload) + [END] == StuffByte(b) + tail;
      if IsFlag(b) {
        EscapeStays(got, out, b, tail, max);
        if |got| < max { BodyStays(got + [b], out, payload[1..], max); }
        hide Stays;
      } else {
        StaysCons(m, b, tail, max);
        if |got| + 1 >= max {
          StuffedHasNoFlags(payload[1..]);
          WaitingStays(out, tail, max);
        } else {
          BodyStays(got + [b], out, payload[1..], max);
        }
        hide Stays;
      }
    }
  }

  lemma EscapeStays(got: seq<byte>, out: seq<seq<byte>>, b: byte, tail: seq<byte>, max: nat)
    requires IsFlag(b) && |got| <= max
    ensures Stays(Machine(Receiving(got), out), [ESC, b ^ ESC] + tail, max, false)
            <==> |got| < max && Stays(Machine(Receiving(got + [b]), out), tail, max, false)
  {
    assert [ESC, b ^ ESC] + tail == [ESC] + ([b ^ ESC] + tail);
    assert (b ^ ESC) ^ ESC == b;
    assert out + [] == out;
    StaysCons(Machine(Receiving(got), out), ESC, [b ^ ESC] + tail, max);
    StaysCons(Machine(WaitingEscape(got), out), b ^ ESC, tail, max);
    StaysHeld(Machine(Receiving(got + [b]), out), tail, max);
    hide Stays;
  }

  lemma StaysHeld(m: Machine, bytes: seq<byte>, max: nat)
    ensures Stays(m, bytes, max, false) ==> Held(m.d) <= max
  {
    assert bytes[..0] == [];
    if Stays(m, bytes, max, false) { assert Held(Run(m, bytes[..0], max, false).d) <= max; }
  }

  /** One frame in any state. */
  lemma FrameStays(m: Machine, payload: seq<byte>, max: nat)
    requires !m.d.Done? && Held(m.d) <= max
    ensures Stays(m, Frame(payload), max, false) <==> !m.d.Waiting? || !Overflows(payload, max)
  {
    var body := Stuff(payload) + [END];
    assert Frame(payload) == [START] + body;
    assert m.out + [] == m.out;
    StaysCons(m, START, body, max);
    if m.d.Waiting? {
      BodyStays([], m.out, payload, max);
      OverflowsAt(0, payload, max);
    } else {
      StuffedHasNoFlags(payload);
      WaitingStays(m.out, body, max);
    }
    hide Stays;
  }

  lemma AfterFrame(m: Machine, payload: seq<byte>, max: nat)
    requires !m.d.Done?
    ensures Run(m, Frame(payload), max, false).d == Waiting
  {
    if m.d.Waiting? {
      FrameDecodes(m.out, payload, max);
    } else {
      FrameResynchronises(m.d, m.out, payload, max);
    }
  }

  predicate NoneOverflows(payloads: seq<seq<byte>>, max: nat) {
    forall i :: 0 <= i < |payloads| ==> !Overflows(payloads[i], max)
  }

  lemma {:induction false} StreamStays(m: Machine, payloads: seq<seq<byte>>, max: nat)
    requires m.d == Waiting
    ensures Stays(m, Frames(payloads), max, false) <==> NoneOverflows(payloads, max)
    decreases |payloads|
  {
    if payloads == [] {
      WaitingStays(m.out, [], max);
    } else {
      FrameStays(m, payloads[0], max);
      AfterFrame(m, payloads[0], max);
      StaysConcat(m, Frame(payloads[0]), Frames(payloads[1..]), max);
      StreamStays(Run(m, Frame(payloads[0]), max, false), payloads[1..], max);
      hide Stays, Overflows, Run;
      assert payloads == [payloads[0]] + payloads[1..];
    }
  }

  /** A stream of frames stays within the buffer if and only if no payload received overflows it: a busy
      decoder does not receive the first. */
  lemma FramesStayInRoom(d: Decoder, payloads: seq<seq<byte>>, max: nat)
    requires !d.Done? && Held(d) <= max
    ensures InRoom(d, Frames(payloads), max, false)
            <==> NoneOverflows(if d.Waiting? || payloads == [] then payloads else payloads[1..], max)
  {
    var m := Machine(d, []);
    if d.Waiting? {
      StreamStays(m, payloads, max);
    } else if payloads == [] {
      assert [] == Frames(payloads);
    } else {
      FrameStays(m, payloads[0], max);
      AfterFrame(m, payloads[0], max);
      StaysConcat(m, Frame(payloads[0]), Frames(payloads[1..]), max);
      StreamStays(Run(m, Frame(payloads[0]), max, false), payloads[1..], max);
      hide Stays, Overflows, Run;
    }
  }

  // ---------------------------------------------------------------- polls with room for one byte

  /** All bytes but the last are flags, and the last is none. */
  predicate LoneByteLast(payload: seq<byte>) {
    && payload != [] && !IsFlag(payload[|payload| - 1])
    && forall i :: 0 <= i < |payload| - 1 ==> IsFlag(payload[i])
  }

  lemma FlagSingle(got: seq<byte>, out: seq<seq<byte>>, b: byte, tail: seq<byte>, max: nat)
    requires IsFlag(b)
    ensures Run(Machine(Receiving(got), out), StuffByte(b) + tail, max, true)
            == Run(Machine(Receiving(got + [b]), out), tail, max, true)
  {
    assert out + [] == out && (b ^ ESC) ^ ESC == b;
    assert StuffByte(b) + tail == [ESC] + ([b ^ ESC] + tail);
    RunPlain(Machine(Receiving(got), out), ESC, [b ^ ESC] + tail, max, true);
    RunPlain(Machine(WaitingEscape(got), out), b ^ ESC, tail, max, true);
    hide Run;
  }

  lemma PlainSingle(got: seq<byte>, out: seq<seq<byte>>, b: byte, tail: seq<byte>, max: nat)
    requires !IsFlag(b)
    ensures Run(Machine(Receiving(got), out), StuffByte(b) + tail, max, true)
            == Run(Machine(WaitingEnd(got), out), tail, max, true)
  {
    assert out + [] == out;
    RunPlain(Machine(Receiving(got), out), b, tail, max, true);
    hide Run;
  }

  lemma EmptySingle(got: seq<byte>, out: seq<seq<byte>>, max: nat)
    ensures Run(Machine(Receiving(got), out), Stuff([]) + [END], max, true).out == out && !LoneByteLast([])
    ensures out + [] == out
  {
    assert Stuff([]) + [END] == [END] + [];
    RunPlain(Machine(Receiving(got), out), END, [], max, true);
  }

  lemma StuffFirst(payload: seq<byte>)
    requires payload != []
    ensures Stuff(payload) + [END] == StuffByte(payload[0]) + (Stuff(payload[1..]) + [END])
  {
    hide StuffByte;
  }

  lemma {:induction false} BodySingle(got: seq<byte>, out: seq<seq<byte>>, payload: seq<byte>, max: nat)
    ensures Run(Machine(Receiving(got), out), Stuff(payload) + [END], max, true).out
            == out + if LoneByteLast(payload) then [got + payload[..|payload| - 1]] else []
    decreases |payload|
  {
    hide *;
    if payload == [] {
      EmptySingle(got, out, max);
    } else {
      var b, rest := payload[0], payload[1..];
      StuffFirst(payload);
      LoneByteStep(payload);
      if IsFlag(b) {
        FlagSingle(got, out, b, Stuff(rest) + [END], max);
        BodySingle(got + [b], out, rest, max);
        if LoneByteLast(rest) { LoneByteJoined(got, payload); }
      } else {
        PlainSingle(got, out, b, Stuff(rest) + [END], max);
        EndSingle(got, out, rest, max);
        if rest == [] { assert got + payload[..0] == got; }
      }
    }
  }

  lemma LoneByteJoined(got: seq<byte>, payload: seq<byte>)
    requires payload != [] && LoneByteLast(payload[1..])
    ensures |payload| > 1
    ensures (got + [payload[0]]) + payload[1..][..|payload[1..]| - 1] == got + payload[..|payload| - 1]
  {
  }

  lemma LoneByteStep(payload: seq<byte>)
    requires payload != []
    ensures LoneByteLast(payload)
            <==> if IsFlag(payload[0]) then LoneByteLast(payload[1..]) else |payload| == 1
  {
    if LoneByteLast(payload[1..]) && IsFlag(payload[0]) {
      forall i | 0 <= i < |payload| - 1 ensures IsFlag(payload[i]) {
        if i > 0 { assert payload[i] == payload[1..][i - 1]; }
      }
    }
    if LoneByteLast(payload) && |payload| > 1 {
      forall i | 0 <= i < |payload| - 2 ensures IsFlag(payload[1..][i]) { assert payload[1..][i] == payload[i + 1]; }
    }
  }

  /** After its one byte such a poll waits for the end flag. */
  lemma EndSingle(got: seq<byte>, out: seq<seq<byte>>, rest: seq<byte>, max: nat)
    ensures Run(Machine(WaitingEnd(got), out), Stuff(rest) + [END], max, true).out
            == out + if rest == [] then [got] else []
  {
    var m := Machine(WaitingEnd(got), out);
    assert out + [] == out;
    if rest == [] {
      assert Stuff(rest) + [END] == [END] + [];
      RunPlain(m, END, [], max, true);
    } else {
      var all := Stuff(rest) + [END];
      StuffedHasNoFlags(rest);
      assert all == [all[0]] + all[1..];
      assert all[0] == StuffByte(rest[0])[0] && all[0] != END;
      RunPlain(m, all[0], all[1..], max, true);
      assert START !in all[1..] by {
        forall i | 0 <= i < |all[1..]| ensures all[1..][i] != START { assert all[1..][i] == all[i + 1]; }
      }
      WaitingIgnores(out, all[1..], max, true);
    }
  }

  /** A frame polled with room for one byte is handed over only if its payload is one byte behind flags alone,
      and then without that byte. */
  lemma SingleFrame(out: seq<seq<byte>>, payload: seq<byte>, max: nat)
    ensures Run(Machine(Waiting, out), Frame(payload), max, true).out
            == out + if LoneByteLast(payload) then [payload[..|payload| - 1]] else []
  {
    assert Frame(payload) == [START] + (Stuff(payload) + [END]);
    assert out + [] == out;
    RunPlain(Machine(Waiting, out), START, Stuff(payload) + [END], max, true);
    BodySingle([], out, payload, max);
    if LoneByteLast(payload) { assert [] + payload[..|payload| - 1] == payload[..|payload| - 1]; }
  }

  /** The same for one frame and a listener that waits. */
  lemma FrameStaysInRoom(payload: seq<byte>, max: nat)
    requires max >= 1
    ensures InRoom(Waiting, Frame(payload), max, false)
            <==> !(|payload| > max && IsFlag(payload[max]) && IsFlag(payload[max - 1]))
  {
    FrameStays(Machine(Waiting, []), payload, max);
    hide Stays;
  }

  /** A frame of 51 start flags runs over a buffer of 50 bytes. */
  lemma FlagsOverflow()
    ensures !InRoom(Waiting, Frame(seq(51, i => START)), 50, false)
  {
    FrameStaysInRoom(seq(51, i => START), 50);
  }

  // ---------------------------------------------------------------- responses

  /** One response byte: flags are avoided by counting one down. */
  function Unflag(b: byte): byte {
    if IsFlag(b) then b - 1 else b
  }

  function Unflagged(s: seq<byte>): (r: seq<byte>)
    ensures |r| == |s| && forall i :: 0 <= i < |s| ==> r[i] == Unflag(s[i])
  {
    seq(|s|, i requires 0 <= i < |s| => Unflag(s[i]))
  }

  /** The response to a frame: its last n bytes, without flags. */
  function Response(payload: seq<byte>, n: nat): (r: seq<byte>)
    requires n <= |payload|
    ensures |r| == n
  {
    Unflagged(payload[|payload| - n..])
  }

  /** Responses hold no flag, so a listener that waits never takes one for a frame. */
  lemma ResponsesAreInert(payload: seq<byte>, n: nat, out: seq<seq<byte>>, max: nat, single: bool)
    requires n <= |payload|
    ensures forall b :: b in Response(payload, n) ==> !IsFlag(b)
    ensures Run(Machine(Waiting, out), Response(payload, n), max, single) == Machine(Waiting, out)
  {
    forall b: byte ensures !IsFlag(Unflag(b)) { }
    WaitingIgnores(out, Response(payload, n), max, single);
  }

  /** Two bytes a response cannot tell apart: equal, or a flag and the byte below it. */
  predicate Alike(a: byte, b: byte) {
    a == b || (IsFlag(a) && b == a - 1) || (IsFlag(b) && a == b - 1)
  }

  lemma UnflagAlike(a: byte, b: byte)
    ensures Unflag(a) == Unflag(b) <==> Alike(a, b)
  {
  }

  predicate EndAlike(p: seq<byte>, q: seq<byte>, n: nat)
    requires n <= |p| && n <= |q|
  {
    var a, b := p[|p| - n..], q[|q| - n..];
    forall k :: 0 <= k < n ==> Alike(a[k], b[k])
  }

  /** Two frames have the same response if and only if their last n bytes are alike. */
  lemma SameResponse(p: seq<byte>, q: seq<byte>, n: nat)
    requires n <= |p| && n <= |q|
    ensures Response(p, n) == Response(q, n) <==> EndAlike(p, q, n)
  {
    var a, b, r, t := p[|p| - n..], q[|q| - n..], Response(p, n), Response(q, n);
    forall k | 0 <= k < n ensures r[k] == t[k] <==> Alike(a[k], b[k]) {
      assert r[k] == Unflag(a[k]) && t[k] == Unflag(b[k]);
      UnflagAlike(a[k], b[k]);
    }
    hide Alike, Unflag, Response;
    if EndAlike(p, q, n) {
      assert forall k :: 0 <= k < n ==> r[k] == t[k];
      assert r == t;
    }
  }
}
