/** The ThroughSerial strategy over a serial port: frames out, frames in, and synchronous responses. */
module ThroughSerial {
  import opened Words
  import opened SerialFrames
  import opened SerialRuns

  datatype State = TsWaiting | TsReceiving | TsWaitingEscape | TsWaitingEnd | TsDone

  lemma RunOneMore(m: Machine, bytes: seq<byte>, k: nat, max: nat, single: bool)
    requires k < |bytes|
    ensures Run(m, bytes[..k + 1], max, single)
            == SerialFrames.Step(Run(m, bytes[..k], max, single), bytes[k], max, single)
  {
    assert bytes[..k + 1] == bytes[..k] + [bytes[k]];
    RunConcat(m, bytes[..k], [bytes[k]], max, single);
    assert [bytes[k]][1..] == [];
  }

  /** The bytes a port takes. */
  function Taken(bytes: seq<byte>, accepts: nat -> bool): seq<byte> {
    if bytes == [] then []
    else
      var n := |bytes| - 1;
      Taken(bytes[..n], accepts) + if accepts(n) then [bytes[n]] else []
  }

  /** The port refuses one of these bytes. */
  ghost predicate Refused(bytes: seq<byte>, accepts: nat -> bool) {
    exists i: nat :: i < |bytes| && !accepts(i)
  }

  lemma TakenMore(bytes: seq<byte>, b: byte, accepts: nat -> bool)
    ensures Taken(bytes + [b], accepts) == Taken(bytes, accepts) + (if accepts(|bytes|) then [b] else [])
  {
    assert (bytes + [b])[..|bytes|] == bytes;
  }

  lemma RefusedMore(bytes: seq<byte>, b: byte, accepts: nat -> bool)
    ensures Refused(bytes + [b], accepts) <==> Refused(bytes, accepts) || !accepts(|bytes|)
  {
    if Refused(bytes, accepts) {
      var i: nat :| i < |bytes| && !accepts(i);
      assert i < |bytes + [b]|;
    }
    if Refused(bytes + [b], accepts) {
      var i: nat :| i < |bytes + [b]| && !accepts(i);
      assert i < |bytes| || i == |bytes|;
    }
  }

  lemma {:induction false} TakenWhole(bytes: seq<byte>, accepts: nat -> bool)
    ensures |Taken(bytes, accepts)| <= |bytes|
    ensures |Taken(bytes, accepts)| == |bytes| <==> !Refused(bytes, accepts)
    ensures !Refused(bytes, accepts) ==> Taken(bytes, accepts) == bytes
  {
    if bytes != [] {
      TakenWhole(bytes[..|bytes| - 1], accepts);
      TakenMore(bytes[..|bytes| - 1], bytes[|bytes| - 1], accepts);
      RefusedMore(bytes[..|bytes| - 1], bytes[|bytes| - 1], accepts);
      assert bytes == bytes[..|bytes| - 1] + [bytes[|bytes| - 1]];
      hide Refused;
    }
  }

  /** The start flag and the first m bytes of a payload as they go out. */
  function Body(data: seq<byte>, m: nat): seq<byte>
    requires m <= |data|
  {
    [START] + Stuff(data[..m])
  }

  /** How many bytes of a payload are offered to the port from the m-th on, if none before was refused. */
  ghost function Reached(data: seq<byte>, accepts: nat -> bool, m: nat): (r: nat)
    requires m <= |data|
    ensures m <= r <= |data|
    decreases |data| - m
  {
    if m == |data| || Refused(Body(data, m), accepts) then m else Reached(data, accepts, m + 1)
  }

  /** The offer goes on as long as nothing of it was refused, and no longer. */
  lemma {:induction false} ReachedLeast(data: seq<byte>, accepts: nat -> bool, m: nat)
    requires m <= |data|
    ensures var r := Reached(data, accepts, m);
            && (r < |data| ==> Refused(Body(data, r), accepts))
            && forall k :: m <= k < r ==> !Refused(Body(data, k), accepts)
    decreases |data| - m
  {
    hide Refused, Body;
    if m < |data| && !Refused(Body(data, m), accepts) { ReachedLeast(data, accepts, m + 1); }
  }

  /** All that is offered to the port for a frame. */
  function Offered(data: seq<byte>, m: nat): seq<byte>
    requires m <= |data|
  {
    Body(data, m) + if m == |data| then [END] else []
  }

  lemma BodyStep(data: seq<byte>, m: nat, accepts: nat -> bool)
    requires m < |data|
    ensures Body(data, m + 1) == Body(data, m) + StuffByte(data[m])
    ensures Reached(data, accepts, m)
            == if Refused(Body(data, m), accepts) then m else Reached(data, accepts, m + 1)
    ensures Offered(data, m) == Body(data, m)
  {
    StuffAppend(data[..m], data[m]);
    assert data[..m + 1] == data[..m] + [data[m]];
    hide Refused, Stuff;
  }

  lemma BodyWhole(data: seq<byte>, accepts: nat -> bool)
    ensures Reached(data, accepts, |data|) == |data|
    ensures Offered(data, |data|) == Body(data, |data|) + [END] == Frame(data)
  {
    assert data[..|data|] == data;
  }

  /** What a poll took from the pending bytes. */
  function Polled(fifo: seq<byte>, rest: seq<byte>): seq<byte>
    requires |rest| <= |fifo|
  {
    fifo[..|fifo| - |rest|]
  }

  class ThroughSerial {
    const buffer: array<byte>
    var position: nat
    var state: State
    /** Bytes the serial port holds for reading, and bytes put on the line. */
    var rx: seq<byte>
    var tx: seq<byte>
    const response: array<byte>
    var failed: bool
    /** The source would have written past its buffer: what follows is not described. */
    var overran: bool

    ghost predicate Valid()
      reads this
    {
      position <= buffer.Length && 1 <= response.Length && buffer != response
    }

    ghost function Decoding(): Decoder
      requires Valid()
      reads this, buffer
    {
      match state
      case TsWaiting => Waiting
      case TsReceiving => Receiving(buffer[..position])
      case TsWaitingEscape => WaitingEscape(buffer[..position])
      case TsWaitingEnd => WaitingEnd(buffer[..position])
      case TsDone => Done(buffer[..position])
    }

    constructor (maxLength: nat, responseLength: nat)
      requires 1 <= responseLength
      ensures Valid() && Decoding() == Waiting && rx == [] && tx == [] && !failed && !overran
      ensures fresh(buffer) && fresh(response)
      ensures buffer.Length == maxLength && response.Length == responseLength
    {
      buffer := new byte[maxLength](i => 0);
      response := new byte[responseLength](i => 0);
      position, state, rx, tx, failed, overran := 0, TsWaiting, [], [], false, false;
    }

    // -------------------------------------------------------------- transmission

    /** `accepted` tells whether the port took the byte within the byte timeout. */
    method SendByte(b: byte, accepted: bool)
      modifies this`tx, this`failed
      ensures tx == old(tx) + (if accepted then [b] else [])
      ensures failed == (old(failed) || !accepted)
    {
      if accepted { tx := tx + [b]; } else { failed := true; }
    }

    /** `before` is what lies in memory before the frame; it is read if the frame is shorter than the
        response. */
    method PrepareResponse(frame: seq<byte>, before: seq<byte>)
      requires response.Length <= |before|
      modifies response
      ensures response[..] == Response(before + frame, response.Length)
      ensures response.Length <= |frame| ==> response[..] == Response(frame, response.Length)
    {
      var n := response.Length;
      var memory := before + frame;
      for i := 0 to n
        invariant forall k :: 0 <= k < i ==> response[k] == Unflag(memory[|memory| - n + k])
      {
        var raw := memory[(|memory| - ((n - 1) - i)) - 1];
        response[i] := if raw == START || raw == ESC || raw == END then raw - 1 else raw;
      }
      if n <= |frame| { assert memory[|memory| - n..] == frame[|frame| - n..]; }
    }

    /** The line carries, from `line` on, what the port took of the bytes offered so far. */
    ghost predicate Offering(line: seq<byte>, bytes: seq<byte>, accepts: nat -> bool)
      reads this
    {
      tx == line + Taken(bytes, accepts) && failed == Refused(bytes, accepts)
    }

    /** Offers the n-th byte of a transmission. */
    method SendNext(b: byte, accepts: nat -> bool, n: nat, ghost line: seq<byte>, ghost bytes: seq<byte>)
      requires n == |bytes| && Offering(line, bytes, accepts)
      modifies this`tx, this`failed
      ensures Offering(line, bytes + [b], accepts)
    {
      TakenMore(bytes, b, accepts);
      RefusedMore(bytes, b, accepts);
      Reassociate(line, Taken(bytes, accepts), if accepts(n) then [b] else []);
      hide Taken, Refused;
      SendByte(b, accepts(n));
    }

    /** Puts one byte of a frame body on the line, escaped if it is a flag. */
    method SendStuffed(b: byte, accepts: nat -> bool, n: nat, ghost line: seq<byte>, ghost bytes: seq<byte>)
      returns (next: nat)
      requires n == |bytes| && Offering(line, bytes, accepts)
      modifies this`tx, this`failed
      ensures next == n + |StuffByte(b)| && Offering(line, bytes + StuffByte(b), accepts)
    {
      hide Offering;
      if b == START || b == ESC || b == END {
        SendNext(ESC, accepts, n, line, bytes);
        SendNext(b ^ ESC, accepts, n + 1, line, bytes + [ESC]);
        assert (bytes + [ESC]) + [b ^ ESC] == bytes + StuffByte(b);
        next := n + 2;
      } else {
        SendNext(b, accepts, n, line, bytes);
        next := n + 1;
      }
    }

    /** Offers the start flag and the payload, up to the first byte after a refusal. */
    method SendBody(data: seq<byte>, accepts: nat -> bool, ghost line: seq<byte>) returns (whole: bool, n: nat)
      requires Offering(line, [], accepts)
      modifies this`tx, this`failed
      ensures var m := Reached(data, accepts, 0);
              && Offering(line, Body(data, m), accepts) && (whole <==> m == |data|)
              && (whole ==> n == |Body(data, |data|)|) && (!whole ==> failed)
    {
      assert [] + [START] == Body(data, 0);
      BodyWhole(data, accepts);
      hide *;
      SendNext(START, accepts, 0, line, []);
      n := 1;
      for b := 0 to |data|
        invariant n == |Body(data, b)| && Offering(line, Body(data, b), accepts)
        invariant Reached(data, accepts, 0) == Reached(data, accepts, b)
      {
        BodyStep(data, b, accepts);
        RefusedFails(line, Body(data, b), accepts);
        if failed { return false, n; }
        n := SendStuffed(data[b], accepts, n, line, Body(data, b));
      }
      whole := true;
    }

    lemma RefusedFails(line: seq<byte>, bytes: seq<byte>, accepts: nat -> bool)
      requires Offering(line, bytes, accepts)
      ensures failed == Refused(bytes, accepts)
    {
      hide Refused;
    }

    /** Puts the stuffed frame on the line and notes the response to expect. `accepts(n)` tells whether
        the port takes the n-th byte. A refused byte ends the transmission before the next byte of the
        payload; after the last one, the end flag still goes out. */
    method SendFrame(data: seq<byte>, before: seq<byte>, accepts: nat -> bool)
      requires Valid() && response.Length <= |before|
      modifies this`tx, this`failed, response
      ensures Valid() && Decoding() == old(Decoding())
      ensures var offered := Offered(data, Reached(data, accepts, 0));
              tx == old(tx) + Taken(offered, accepts) && failed == Refused(offered, accepts)
      ensures response[..] == if Reached(data, accepts, 0) == |data| then Response(before + data, response.Length)
                              else old(response[..])
      ensures !failed ==> tx == old(tx) + Frame(data) && response[..] == Response(before + data, response.Length)
      ensures !failed && response.Length <= |data| ==> response[..] == Response(data, response.Length)
      ensures (forall n :: accepts(n)) ==> !failed
    {
      failed := false;
      assert Offering(tx, [], accepts);
      hide Offering, Reached, Refused, Taken, Frame, Body, Offered, Response;
      ghost var line := tx;
      var whole, n := SendBody(data, accepts, line);
      if !whole {
        LineStopped(line, data, accepts);
        return;
      }
      BodyWhole(data, accepts);
      SendNext(END, accepts, n, line, Body(data, |data|));
      LineWhole(line, data, accepts);
      PrepareResponse(data, before);
    }

    lemma LineStopped(line: seq<byte>, data: seq<byte>, accepts: nat -> bool)
      requires var m := Reached(data, accepts, 0); m < |data| && Offering(line, Body(data, m), accepts) && failed
      ensures var offered := Offered(data, Reached(data, accepts, 0));
              tx == line + Taken(offered, accepts) && Refused(offered, accepts)
      ensures exists n :: !accepts(n)
    {
      var m := Reached(data, accepts, 0);
      hide Taken, Stuff, Body;
      assert Offered(data, m) == Body(data, m);
    }

    lemma LineWhole(line: seq<byte>, data: seq<byte>, accepts: nat -> bool)
      requires Offering(line, Body(data, |data|) + [END], accepts)
      ensures var offered := Offered(data, |data|);
              tx == line + Taken(offered, accepts) && failed == Refused(offered, accepts)
      ensures !failed ==> tx == line + Frame(data)
      ensures (forall n :: accepts(n)) ==> !failed
    {
      BodyWhole(data, accepts);
      hide Stuff, Taken;
      if !failed { TakenWhole(Frame(data), accepts); }
    }

    /** Each byte of the response the port takes goes out, for an acknowledgement only. */
    method SendResponse(code: int, accepts: nat -> bool)
      modifies this`tx, this`failed
      ensures code != ACK ==> tx == old(tx) && failed == old(failed)
      ensures code == ACK ==>
                tx == old(tx) + Taken(response[..], accepts)
                && failed == (old(failed) || exists i: nat :: i < response.Length && !accepts(i))
      ensures code == ACK && (forall n :: accepts(n)) ==> tx == old(tx) + response[..]
    {
      if code == ACK {
        for i := 0 to response.Length
          invariant tx == old(tx) + Taken(response[..i], accepts)
          invariant failed == (old(failed) || exists k: nat :: k < i && !accepts(k))
        {
          assert response[..i + 1][..i] == response[..i];
          Reassociate(old(tx), Taken(response[..i], accepts), if accepts(i) then [response[i]] else []);
          SendByte(response[i], accepts(i));
        }
        assert response[..response.Length] == response[..];
        if forall n :: accepts(n) { TakenWhole(response[..], accepts); }
      }
    }

    /** Reads the response byte by byte until it is complete, differs, or the timeout leaves nothing
        more to read. */
    method ReceiveResponse() returns (result: int)
      requires Valid()
      modifies this`rx
      ensures result == ACK <==> !failed && response[..] <= old(rx)
      ensures result == ACK || result == FAIL
      ensures result == ACK ==> rx == old(rx)[response.Length..]
    {
      if failed { return FAIL; }
      var i := 0;
      while rx != []
        invariant 0 <= i < response.Length && i <= |old(rx)|
        invariant rx == old(rx)[i..] && response[..i] == old(rx)[..i]
        decreases |rx|
      {
        var read := rx[0];
        rx := rx[1..];
        i := i + 1;
        if response[i - 1] != read {
          assert response[..][i - 1] != old(rx)[i - 1];
          return FAIL;
        }
        if i == response.Length {
          assert response[..i] == response[..];
          return ACK;
        }
      }
      return FAIL;
    }

    // -------------------------------------------------------------- reception

    /** What a poll did with the pending bytes `fifo`: unless it ran over the buffer, it took some of them
        as the automaton does. It ran over exactly if what it took does not stay in room. */
    ghost predicate Took(d: Decoder, fifo: seq<byte>, out: Option<seq<byte>>, single: bool)
      requires Valid()
      reads this, buffer
    {
      && |rx| <= |fifo| && rx == fifo[|fifo| - |rx|..]
      && (overran <==> !InRoom(d, Polled(fifo, rx), buffer.Length, single))
      && (!overran ==> PollStep(d, fifo, Decoding(), rx, out, buffer.Length, single))
    }

    /** One poll. `early`: the read interval has not passed; `late`: the byte timeout has. */
    method ReceiveFrame(maxLength: nat, early: bool, late: bool, before: seq<byte>) returns (data: Option<seq<byte>>)
      requires Valid() && !overran && response.Length <= |before|
      modifies this`rx, this`state, this`position, this`overran, buffer, response
      ensures Valid()
      ensures early ==> data == None && Decoding() == old(Decoding()) && rx == old(rx) && !overran
      ensures !early && late && !old(state).TsWaiting? && !old(state).TsDone? ==>
                data == None && Decoding() == Waiting && rx == old(rx) && !overran
      ensures !early && (late ==> old(state).TsWaiting? || old(state).TsDone?) ==>
                Took(old(Decoding()), old(rx), data, maxLength == 1)
      ensures data.Some? ==> data.value == old(buffer[..position])
                             && response[..] == Response(before + data.value, response.Length)
    {
      if early { return None; }
      if (state.TsReceiving? || state.TsWaitingEnd? || state.TsWaitingEscape?) && late {
        state := TsWaiting;
        return None;
      }
      match state
      case TsWaiting => AwaitStart(maxLength); return None;
      case TsReceiving => ReceiveBody(maxLength); return None;
      case TsWaitingEscape => AwaitEscaped(maxLength); return None;
      case TsWaitingEnd => AwaitEnd(maxLength); return None;
      case TsDone =>
        data := Some(buffer[..position]);
        PrepareResponse(buffer[..position], before);
        state := TsWaiting;
        assert old(rx)[..0] == [];
        NothingStays(old(Decoding()), buffer.Length, maxLength == 1);
        assert PollConsumes(old(Decoding()), old(rx)[..0], Decoding(), data, buffer.Length, maxLength == 1);
    }

    /** Takes everything up to a start flag, or all there is if there is none. */
    method SkipToStart() returns (found: bool)
      modifies this`rx
      ensures |rx| <= |old(rx)| && rx == old(rx)[|old(rx)| - |rx|..]
      ensures Skipped(old(rx), |old(rx)| - |rx|, found)
    {
      ghost var k := 0;
      while rx != []
        invariant 0 <= k <= |old(rx)| && rx == old(rx)[k..] && START !in old(rx)[..k]
        decreases |rx|
      {
        var value := rx[0];
        rx := rx[1..];
        k := k + 1;
        assert old(rx)[..k] == old(rx)[..k - 1] + [value];
        if value == START { return true; }
      }
      return false;
    }

    /** The waiting state: everything before a start flag is skipped. */
    method AwaitStart(maxLength: nat)
      requires Valid() && state.TsWaiting? && !overran
      modifies this`rx, this`state, this`position
      ensures Valid() && Took(old(Decoding()), old(rx), None, maxLength == 1)
    {
      ghost var fifo := rx;
      var found := SkipToStart();
      SkippedPolls(fifo, |fifo| - |rx|, found, buffer.Length, maxLength == 1);
      hide PollStep, InRoom, Skipped;
      if found { position, state := 0, TsReceiving; }
    }

    /** The receiving state: consumes until a flag, an error or the last byte available. An escape flag
        followed by a byte is undone on the spot, one at the end of the bytes available is left to the
        next poll. */
    method ReceiveBody(maxLength: nat)
      requires Valid() && state.TsReceiving? && !overran
      modifies this`rx, this`state, this`position, this`overran, buffer
      ensures Valid() && Took(old(Decoding()), old(rx), None, maxLength == 1)
    {
      ghost var k := 0;
      ghost var single, d, fifo := maxLength == 1, Decoding(), rx;
      ghost var m := Machine(d, []);
      assert Run(m, fifo[..k], buffer.Length, single) == m;
      assert fifo[..0] == [];
      NothingStays(d, buffer.Length, single);
      hide Run, PollStep, PollConsumes, InRoom;
      while rx != []
        invariant 0 <= k <= |fifo| && rx == fifo[k..]
        invariant Valid() && state.TsReceiving? && !overran
        invariant Run(m, fifo[..k], buffer.Length, single) == Machine(Receiving(buffer[..position]), [])
        invariant InRoom(d, fifo[..k], buffer.Length, single)
        invariant fifo != [] ==> k > 0 || rx != []
        decreases |rx|
      {
        var more := ReceiveByte(maxLength, d, fifo, k);
        if !more { return; }
        k := |fifo| - |rx|;
      }
      BodyPolled(d, fifo, k, Decoding(), buffer.Length, single);
    }

    /** One byte of a frame body, and the one after it if it is an escape flag; the automaton has seen the
        first k bytes of `fifo`. */
    method ReceiveByte(maxLength: nat, ghost d: Decoder, ghost fifo: seq<byte>, ghost k: nat) returns (more: bool)
      requires Valid() && state.TsReceiving? && !overran && rx != []
      requires !d.Done? && k < |fifo| && rx == fifo[k..] && InRoom(d, fifo[..k], buffer.Length, maxLength == 1)
      requires Run(Machine(d, []), fifo[..k], buffer.Length, maxLength == 1)
               == Machine(Receiving(buffer[..position]), [])
      modifies this`rx, this`state, this`position, this`overran, buffer
      ensures Valid() && (!more ==> Took(d, fifo, None, maxLength == 1))
      ensures more ==> Goes(d, fifo, maxLength == 1) && |rx| < |old(rx)|
    {
      ghost var single := maxLength == 1;
      hide Run, PollStep, PollConsumes, InRoom;
      RunOneMore(Machine(d, []), fifo, k, buffer.Length, single);
      InRoomOneMore(d, fifo, k, buffer.Length, single);
      var value := rx[0];
      rx := rx[1..];
      if value == ESC {
        more := UndoEscape(maxLength, d, fifo, k + 1);
        return;
      }
      if value == START || maxLength == 1 || position + 1 >= buffer.Length || value == END {
        state := if value == START then TsWaiting else if maxLength == 1 then TsWaitingEnd
                 else if position + 1 >= buffer.Length then TsWaiting else TsDone;
        BodyPolled(d, fifo, k + 1, Decoding(), buffer.Length, single);
        return false;
      }
      Push(value);
      return true;
    }

    /** The poll goes on: everything taken so far is in the buffer. */
    ghost predicate Goes(d: Decoder, fifo: seq<byte>, single: bool)
      requires Valid()
      reads this, buffer
    {
      && |rx| <= |fifo| && rx == fifo[|fifo| - |rx|..] && state.TsReceiving? && !overran
      && Run(Machine(d, []), Polled(fifo, rx), buffer.Length, single) == Machine(Receiving(buffer[..position]), [])
      && InRoom(d, Polled(fifo, rx), buffer.Length, single)
    }

    /** What follows an escape flag: a byte to undo now, or nothing yet. The automaton has seen the first
        k bytes of `fifo`. */
    method UndoEscape(maxLength: nat, ghost d: Decoder, ghost fifo: seq<byte>, ghost k: nat) returns (more: bool)
      requires Valid() && state.TsReceiving? && !overran && !d.Done? && 0 < k <= |fifo| && rx == fifo[k..]
      requires InRoom(d, fifo[..k], buffer.Length, maxLength == 1)
      requires Run(Machine(d, []), fifo[..k], buffer.Length, maxLength == 1)
               == Machine(WaitingEscape(buffer[..position]), [])
      modifies this`rx, this`state, this`position, this`overran, buffer
      ensures Valid() && |rx| <= |old(rx)|
      ensures !more ==> Took(d, fifo, None, maxLength == 1)
      ensures more ==> Goes(d, fifo, maxLength == 1)
    {
      ghost var single := maxLength == 1;
      hide Run, PollStep, PollConsumes, InRoom;
      if rx == [] {
        state := TsWaitingEscape;
        BodyPolled(d, fifo, k, Decoding(), buffer.Length, single);
        return false;
      }
      RunOneMore(Machine(d, []), fifo, k, buffer.Length, single);
      InRoomOneMore(d, fifo, k, buffer.Length, single);
      var value := rx[0] ^ ESC;
      rx := rx[1..];
      if value != START && value != ESC && value != END {
        state := TsWaiting;
        BodyPolled(d, fifo, k + 1, Decoding(), buffer.Length, single);
        return false;
      }
      Store(value);
      return !overran;
    }

    /** `buffer[position++] = value`, without looking for room. */
    method Store(value: byte)
      requires Valid() && !overran
      modifies this`position, this`overran, buffer
      ensures Valid() && overran == (old(position) == buffer.Length)
      ensures !overran ==> buffer[..position] == old(buffer[..position]) + [value]
    {
      if position == buffer.Length { overran := true; } else { Push(value); }
    }

    /** `buffer[position++] = value` */
    method Push(value: byte)
      requires Valid() && position < buffer.Length
      modifies this`position, buffer
      ensures Valid() && position == old(position) + 1
      ensures buffer[..position] == old(buffer[..position]) + [value]
    {
      buffer[position] := value;
      position := position + 1;
    }

    method AwaitEscaped(maxLength: nat)
      requires Valid() && state.TsWaitingEscape? && !overran
      modifies this`rx, this`state, this`position, this`overran, buffer
      ensures Valid() && Took(old(Decoding()), old(rx), None, maxLength == 1)
    {
      ghost var got, fifo := buffer[..position], rx;
      assert Decoding() == WaitingEscape(got);
      if rx == [] {
        EscapePolled(got, fifo, buffer.Length, maxLength == 1);
        hide InRoom, PollStep;
      } else {
        var value := rx[0] ^ ESC;
        rx := rx[1..];
        hide *;
        StoreEscaped(value);
        TookEscaped(got, fifo, maxLength == 1);
      }
    }

    lemma TookEscaped(got: seq<byte>, fifo: seq<byte>, single: bool)
      requires Valid() && |got| <= buffer.Length && fifo != [] && rx == fifo[1..]
      requires var value := fifo[0] ^ ESC;
               && overran == (IsFlag(value) && |got| == buffer.Length)
               && (!overran ==> Decoding() == if IsFlag(value) then Receiving(got + [value]) else Waiting)
      ensures Took(WaitingEscape(got), fifo, None, single)
    {
      EscapePolled(got, fifo, buffer.Length, single);
      hide InRoom, PollStep, IsFlag, Polled, Decoding;
    }

    /** A byte with its escape undone: only a flag is stored. */
    method StoreEscaped(value: byte)
      requires Valid() && !overran
      modifies this`state, this`position, this`overran, buffer
      ensures Valid() && overran == (IsFlag(value) && old(position) == buffer.Length)
      ensures !overran ==> Decoding() == if IsFlag(value) then Receiving(old(buffer[..position]) + [value]) else Waiting
    {
      if value != START && value != ESC && value != END {
        state := TsWaiting;
      } else {
        Store(value);
        if !overran { state := TsReceiving; }
      }
    }

    method AwaitEnd(maxLength: nat)
      requires Valid() && state.TsWaitingEnd? && !overran
      modifies this`rx, this`state
      ensures Valid() && Took(old(Decoding()), old(rx), None, maxLength == 1)
    {
      ghost var single, d := maxLength == 1, Decoding();
      assert rx[..0] == [];
      NothingStays(d, buffer.Length, single);
      if rx == [] {
        PollNothing(d, buffer.Length, single);
      } else {
        PollOne(d, rx, buffer.Length, single);
        InRoomOneMore(d, rx, 0, buffer.Length, single);
        hide InRoom, PollStep;
        var value := rx[0];
        rx := rx[1..];
        state := if value == END then TsDone else TsWaiting;
      }
    }
  }

  /** What goes out of a response begins with the one expected exactly if all of it goes out and they are
      the same. */
  lemma WholeResponse(sent: seq<byte>, heard: seq<byte>, n: nat, accepts: nat -> bool)
    requires n <= |sent| && n <= |heard|
    ensures Response(sent, n) <= Taken(Response(heard, n), accepts)
            <==> (forall i: nat :: i < n ==> accepts(i)) && EndAlike(sent, heard, n)
  {
    TakenWhole(Response(heard, n), accepts);
    SameResponse(sent, heard, n);
    hide Response, EndAlike, Taken;
  }

  /** The answer of a receiver reaches a sender that waits for nothing else. `sent` and `heard` are the
      memories both responses were prepared from, ending with the frame sent and the frame handed over.
      The sender takes the answer for an acknowledgement if and only if it is one, the port took all of
      it, and the memories end alike: always if the frame was handed over as it was sent and is no shorter
      than the response, and for another frame exactly if its last bytes are alike. */
  method Answer(
    sender: ThroughSerial, receiver: ThroughSerial, code: int, accepts: nat -> bool, ghost sent: seq<byte>,
    ghost heard: seq<byte>
  ) returns (result: int)
    requires sender.Valid() && receiver.Valid() && sender != receiver
    requires sender.response.Length == receiver.response.Length
    requires sender.response.Length <= |sent| && sender.response.Length <= |heard|
    requires sender.response[..] == Response(sent, sender.response.Length) && !sender.failed && sender.rx == []
    requires receiver.response[..] == Response(heard, sender.response.Length)
    modifies receiver`tx, receiver`failed, sender`rx
    ensures result == ACK || result == FAIL
    ensures result == ACK
            <==> code == ACK && (forall i: nat :: i < sender.response.Length ==> accepts(i))
                 && EndAlike(sent, heard, sender.response.Length)
  {
    var before, n := receiver.tx, sender.response.Length;
    WholeResponse(sent, heard, n, accepts);
    NoneExpected(sent, n);
    hide *;
    receiver.SendResponse(code, accepts);
    sender.rx := receiver.tx[|before|..];
    assert sender.rx == if code == ACK then Taken(receiver.response[..], accepts) else [];
    result := sender.ReceiveResponse();
  }

  lemma NoneExpected(sent: seq<byte>, n: nat)
    requires n <= |sent|
    ensures Response(sent, n) <= [] <==> n == 0
  {
  }

  /** Staying in room over one more byte. */
  lemma InRoomOneMore(d: Decoder, bytes: seq<byte>, k: nat, max: nat, single: bool)
    requires k < |bytes| && !d.Done?
    ensures InRoom(d, bytes[..k + 1], max, single)
            <==> InRoom(d, bytes[..k], max, single)
                 && Held(Run(Machine(d, []), bytes[..k + 1], max, single).d) <= max
  {
    assert bytes[..k + 1] == bytes[..k] + [bytes[k]];
    StaysOneMore(Machine(d, []), bytes[..k], bytes[k], max, single);
    hide Stays, Run;
  }

  /** The first k bytes hold no start flag but the last one, or are all there are and hold none. */
  predicate Skipped(fifo: seq<byte>, k: nat, found: bool) {
    && k <= |fifo|
    && if found then k > 0 && fifo[k - 1] == START && START !in fifo[..k - 1]
       else k == |fifo| && START !in fifo[..k]
  }

  lemma SkippedPolls(fifo: seq<byte>, k: nat, found: bool, max: nat, single: bool)
    requires Skipped(fifo, k, found)
    ensures PollStep(Waiting, fifo, if found then Receiving([]) else Waiting, fifo[k..], None, max, single)
    ensures InRoom(Waiting, fifo[..k], max, single)
  {
    var n := if found then k - 1 else k;
    WaitingIgnores([], fifo[..n], max, single);
    WaitingInRoom(fifo, n, max, single);
    if found {
      RunOneMore(Machine(Waiting, []), fifo, n, max, single);
      InRoomOneMore(Waiting, fifo, n, max, single);
    }
    BodyPolled(Waiting, fifo, k, if found then Receiving([]) else Waiting, max, single);
    hide PollStep, InRoom;
  }

  lemma WaitingInRoom(fifo: seq<byte>, n: nat, max: nat, single: bool)
    requires n <= |fifo| && START !in fifo[..n]
    ensures InRoom(Waiting, fifo[..n], max, single)
  {
    forall k | 0 <= k <= n ensures Held(Run(Machine(Waiting, []), fifo[..n][..k], max, single).d) <= max {
      WaitingIgnores([], fifo[..n][..k], max, single);
    }
  }

  /** A poll that takes one byte if there is any. */
  lemma OnePoll(d: Decoder, fifo: seq<byte>, max: nat, single: bool)
    requires !d.Done? && Held(d) <= max
    ensures fifo == [] ==> PollStep(d, fifo, d, fifo, None, max, single) && InRoom(d, Polled(fifo, fifo), max, single)
    ensures fifo != [] ==>
              var d' := Feed(d, fifo[0], max, single);
              && PollStep(d, fifo, d', fifo[1..], None, max, single)
              && (InRoom(d, Polled(fifo, fifo[1..]), max, single) <==> Held(Settle(d').d) <= max)
  {
    assert fifo[..0] == [];
    NothingStays(d, max, single);
    if fifo == [] {
      PollNothing(d, max, single);
    } else {
      PollOne(d, fifo, max, single);
      InRoomOneMore(d, fifo, 0, max, single);
      RunOneMore(Machine(d, []), fifo, 0, max, single);
      hide InRoom, PollStep;
    }
  }

  lemma EscapePolled(got: seq<byte>, fifo: seq<byte>, max: nat, single: bool)
    requires |got| <= max
    ensures fifo == [] ==>
              var d := WaitingEscape(got);
              PollStep(d, fifo, d, fifo, None, max, single) && InRoom(d, Polled(fifo, fifo), max, single)
    ensures fifo != [] ==>
              var d, b := WaitingEscape(got), fifo[0] ^ ESC;
              && PollStep(d, fifo, if IsFlag(b) then Receiving(got + [b]) else Waiting, fifo[1..], None, max, single)
              && (InRoom(d, Polled(fifo, fifo[1..]), max, single) <==> !IsFlag(b) || |got| < max)
  {
    OnePoll(WaitingEscape(got), fifo, max, single);
    hide InRoom, PollStep, IsFlag;
  }

  lemma NothingStays(d: Decoder, max: nat, single: bool)
    requires Held(Settle(d).d) <= max
    ensures InRoom(d, [], max, single)
  {
  }

  lemma BodyPolled(d: Decoder, fifo: seq<byte>, k: nat, d': Decoder, max: nat, single: bool)
    requires !d.Done? && k <= |fifo| && (fifo != [] ==> k > 0)
    requires Run(Machine(d, []), fifo[..k], max, single) == Settle(d')
    ensures PollStep(d, fifo, d', fifo[k..], None, max, single)
  {
    assert [] + Settle(d').out == Settle(d').out;
    assert PollConsumes(d, fifo[..k], d', None, max, single);
  }

  lemma PollNothing(d: Decoder, max: nat, single: bool)
    requires !d.Done?
    ensures PollStep(d, [], d, [], None, max, single)
  {
    var nothing: seq<byte> := [];
    assert PollConsumes(d, nothing[..0], d, None, max, single);
  }

  lemma PollOne(d: Decoder, fifo: seq<byte>, max: nat, single: bool)
    requires !d.Done? && fifo != []
    ensures PollStep(d, fifo, Feed(d, fifo[0], max, single), fifo[1..], None, max, single)
  {
    RunOneMore(Machine(d, []), fifo, 0, max, single);
    assert fifo[..0] == [];
    assert PollConsumes(d, fifo[..1], Feed(d, fifo[0], max, single), None, max, single);
  }

  lemma {:induction false} StuffAppend(a: seq<byte>, b: byte)
    ensures Stuff(a + [b]) == Stuff(a) + StuffByte(b)
  {
    if a == [] {
      assert a + [b] == [b];
      assert [b][1..] == [];
    } else {
      assert (a + [b])[1..] == a[1..] + [b];
      StuffAppend(a[1..], b);
    }
  }
}
