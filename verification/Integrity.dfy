/** Damaged packets: what the two CRC8s of a short packet keep from the receiver callback. */
module Integrity {
  import opened Words
  import opened Gf2
  import opened WordBits
  import opened Packets
  import opened PacketCodec
  import opened Reception
  import Crc8
  import Crc32
  import opened Crc8Distance

  lemma {:induction false} NoFlippedBytes(e: seq<byte>)
    requires Weight(MessageBits(e)) == 0
    ensures forall i :: 0 <= i < |e| ==> e[i] == 0
  {
    if e != [] {
      WeightConcat(ByteBits(e[0]), MessageBits(e[1..]));
      NoFlippedBytes(e[1..]);
      NoFlips(ByteBits(e[0]));
      ZeroByte();
      ByteInjective(e[0], 0);
    }
  }

  lemma FlipNothing(p: seq<byte>, e: seq<byte>)
    requires |p| == |e| && forall i :: 0 <= i < |e| ==> e[i] == 0
    ensures Flip(p, e) == p
  {
    forall i | 0 <= i < |p| ensures Flip(p, e)[i] == p[i] { XorNothing(p[i], e[i]); }
  }

  lemma XorNothing(b: byte, z: byte)
    requires z == 0
    ensures b ^ z == b
  {
  }

  /** Weight and flips of a packet split at its header. */
  lemma SplitFlips(p: seq<byte>, e: seq<byte>, k: nat)
    requires k <= |p| == |e|
    ensures Weight(MessageBits(e)) == Weight(MessageBits(e[..k])) + Weight(MessageBits(e[k..]))
    ensures Flip(p, e)[..k] == Flip(p[..k], e[..k])
  {
    hide Weight, MessageBits;
    assert e == e[..k] + e[k..];
    assert Flip(p, e)[..k] == Flip(p[..k], e[..k]);
    MessageConcat(e[..k], e[k..]);
    WeightConcat(MessageBits(e[..k]), MessageBits(e[k..]));
  }

  /** Flips in the header of a packet with one length byte are noticed by the header CRC. */
  lemma HeaderFlips(p: seq<byte>, e: seq<byte>, buffer: seq<byte>)
    requires |p| == |e| >= 4 && |buffer| >= 5 && Flip(p, e)[..4] <= buffer
    requires Crc8.Of(p[..3]) == p[3] && !Extended(buffer[1])
    requires 1 <= Weight(MessageBits(e[..4])) <= 3
    ensures !HeaderCrcOk(buffer)
  {
    SplitFlips(p, e, 4);
    assert p[..4][..3] == p[..3];
    ShortErrorsDetected(p[..4], e[..4]);
    assert buffer[..4] == Flip(p[..4], e[..4]);
    assert buffer[..4][..3] == buffer[..3];
  }

  /** Under a CRC8 the trailing check of a frame is the trailing check of its bytes. */
  lemma TrailerIsChecks(buffer: seq<byte>, n: nat)
    requires 5 <= n <= |buffer| && !HasCrc32(buffer[1])
    ensures TrailerOk(buffer, n) <==> Crc8.Checks(buffer[..n])
  {
    hide HasCrc32;
    assert buffer[..n][..n - 1] == buffer[..n - 1];
    assert buffer[n - 1..n] == [buffer[n - 1]];
  }

  /** Flips behind the header of a short packet are noticed by the trailing CRC. */
  lemma BodyFlips(p: seq<byte>, e: seq<byte>, buffer: seq<byte>)
    requires 5 <= |p| == |e| <= 15 && Flip(p, e) <= buffer && !HasCrc32(buffer[1])
    requires Crc8.Checks(p) && 1 <= Weight(MessageBits(e)) <= 3
    ensures !TrailerOk(buffer, |p|)
  {
    hide *;
    ShortErrorsDetected(p, e);
    assert buffer[..|p|] == Flip(p, e);
    TrailerIsChecks(buffer, |p|);
  }

  lemma ShortTrailer(info: Info, payload: seq<byte>)
    requires 1 <= |payload| && Sized(info, |payload|) && !Latched(info, |payload|)
    requires !HasCrc32(FinalHeader(info, |payload|)) && |Packet(info, payload)| >= 5
    ensures Crc8.Checks(Packet(info, payload))
  {
    var p := Packet(info, payload);
    hide *;
    ComposedTrailer(info, payload, p);
    ComposedFront(info, payload, p);
    TrailerIsChecks(p, |p|);
    assert p[..|p|] == p;
  }

  /** The bytes begin with the packet p, its bits flipped where e has ones. */
  predicate Damaged(stream: seq<byte>, p: seq<byte>, e: seq<byte>) {
    |p| == |e| && Flip(p, e) <= stream
  }

  /** A frame read from the damaged packet, if any is, fails one of the CRC tests. */
  lemma DamagedFrameFails(
    dev: Device, info: Info, payload: seq<byte>, e: seq<byte>, stream: seq<byte>, stale: seq<byte>
  )
    requires 1 <= |payload| && Sized(info, |payload|) && !HasCrc32(FinalHeader(info, |payload|))
    requires Damaged(stream, Packet(info, payload), e) && 1 <= Weight(MessageBits(e)) <= 3
    requires |stale| >= 35 && !Extended(FinalHeader(info, |payload|))
    requires Read(dev, stream, |stale|).Frame? && |stream| >= 4 && Checked(stream, |stale|)
    ensures var n := StoredLength(stream);
            && 6 <= n <= |stream| && n < |stale| && Overhead(stream[1]) < n && n == Read(dev, stream, |stale|).length
            && var buffer := Filled(stream, stale, n);
               buffer[1] == stream[1] && (!HeaderCrcOk(buffer) || !TrailerOk(buffer, n))
  {
    hide *;
    PlainFrame(dev, stream, |stale|);
    NotLatched(info, |payload|);
    HeaderPart(info, payload);
    var n := StoredLength(stream);
    var p := Packet(info, payload);
    SameLength(stream, p, e);
    FilledPrefix(stream, stale, n, p, e);
    if Weight(MessageBits(e[..4])) > 0 {
      HeaderWeight(e);
      DamagedHeader(p, e, Filled(stream, stale, n));
    } else {
      UnflippedStream(p, e, stream);
      DamagedBody(info, payload, e, stream, Filled(stream, stale, n));
    }
  }

  lemma SameLength(stream: seq<byte>, p: seq<byte>, e: seq<byte>)
    requires Damaged(stream, p, e)
    ensures |p| == |e|
  {
  }

  lemma DamagedHeader(p: seq<byte>, e: seq<byte>, buffer: seq<byte>)
    requires |p| == |e| >= 4 && |buffer| >= 5 && Damaged(buffer, p[..4], e[..4])
    requires Crc8.Of(p[..3]) == p[3] && !Extended(buffer[1])
    requires 1 <= Weight(MessageBits(e[..4])) <= 3
    ensures !HeaderCrcOk(buffer)
  {
    SplitFlips(p, e, 4);
    HeaderFlips(p, e, buffer);
  }

  lemma UnflippedStream(p: seq<byte>, e: seq<byte>, stream: seq<byte>)
    requires |e| >= 4 && Damaged(stream, p, e) && Weight(MessageBits(e[..4])) == 0
    ensures |stream| >= 4 && stream[0] == p[0] && stream[1] == p[1] && stream[2] == p[2] && stream[3] == p[3]
  {
    UnflippedHeader(p, e, stream);
  }

  lemma DamagedBody(info: Info, payload: seq<byte>, e: seq<byte>, stream: seq<byte>, buffer: seq<byte>)
    requires 1 <= |payload| && Sized(info, |payload|) && !Latched(info, |payload|) && |stream| >= 4
    requires !Extended(FinalHeader(info, |payload|)) && !HasCrc32(FinalHeader(info, |payload|))
    requires |Packet(info, payload)| >= 5 && forall i :: 0 <= i < 4 ==> stream[i] == Packet(info, payload)[i]
    requires |e| == |Packet(info, payload)| && 1 <= Weight(MessageBits(e)) <= 3
    requires |buffer| >= 5 && buffer[1] == stream[1] && 5 <= StoredLength(stream) <= |buffer|
    requires |e| <= StoredLength(stream) ==> Damaged(buffer, Packet(info, payload), e)
    ensures !TrailerOk(buffer, StoredLength(stream))
  {
    ShortLengthStored(info, payload, stream);
    ShortTrailer(info, payload);
    assert Flip(Packet(info, payload), e) <= buffer;
    hide *;
    BodyFlips(Packet(info, payload), e, buffer);
  }

  lemma HeaderWeight(e: seq<byte>)
    requires |e| >= 4
    ensures Weight(MessageBits(e[..4])) <= Weight(MessageBits(e))
  {
    SplitFlips(e, e, 4);
    hide Weight, MessageBits;
  }

  /** The damage does not choose the check: it does not turn both the extended length and the CRC32 bit on,
      or, if it does, the length read is refused. */
  predicate Checked(stream: seq<byte>, max: nat)
    requires |stream| >= 4
  {
    !(Extended(stream[1]) && HasCrc32(stream[1])) || 256 * ByteToInt(stream[2]) >= max
  }

  lemma PlainFrame(dev: Device, stream: seq<byte>, max: nat)
    requires Read(dev, stream, max).Frame? && |stream| >= 4 && Checked(stream, max)
    ensures var n := StoredLength(stream);
            6 <= n <= |stream| && n < max && Overhead(stream[1]) < n && n == Read(dev, stream, max).length
    ensures !Extended(stream[1])
  {
    FrameRead(dev, stream, max);
    hide Extended, HasCrc32, Overhead, Read, StoredLength, HasMac, AckRequested, Shared;
  }

  lemma FilledPrefix(stream: seq<byte>, stale: seq<byte>, n: nat, p: seq<byte>, e: seq<byte>)
    requires 6 <= n <= |stream| && n <= |stale| && Damaged(stream, p, e) && |e| >= 4
    ensures var buffer := Filled(stream, stale, n);
            buffer[1] == stream[1] && Damaged(buffer, p[..4], e[..4]) && (|e| <= n ==> Damaged(buffer, p, e))
  {
    SplitFlips(p, e, 4);
    var buffer := Filled(stream, stale, n);
    hide Flip, Weight, MessageBits;
    assert buffer[..n] == stream[..n];
  }

  /** No damage of one to three flipped bits to a packet protected by CRC8 gets past the receiver: for
      every device, whatever follows on the wire and whatever the buffer held, nothing is acknowledged,
      handed over or recorded. The one damage excluded turns both the extended length and the CRC32 bit
      on, which selects another check, and leaves a length that fits the buffer; see DamageGetsThrough. */
  lemma DamagedShortPacketRefused(
    dev: Device, recent: seq<Record>, info: Info, payload: seq<byte>, e: seq<byte>, stream: seq<byte>,
    stale: seq<byte>
  )
    requires 1 <= |payload| && Sized(info, |payload|) && !HasCrc32(FinalHeader(info, |payload|))
    requires Damaged(stream, Packet(info, payload), e) && 1 <= Weight(MessageBits(e)) <= 3
    requires |stale| >= 35 && recent != []
    requires !Extended(FinalHeader(info, |payload|))
    requires |stream| >= 4 && Checked(stream, |stale|)
    ensures var o := Reaction(dev, recent, stream, stale);
            o.code in {NAK, BUSY, FAIL} && !o.responded && o.info == None && o.payload == None && o.recent == recent
  {
    hide FinalHeader, Packet, Extended, HasCrc32, HeaderCrcOk, TrailerOk, Judge, Overhead, Weight, Read, Sized;
    hide MessageBits, StoredLength, Damaged, Checked;
    if Read(dev, stream, |stale|).Frame? {
      DamagedFrameFails(dev, info, payload, e, stream, stale);
      JudgeRefuses(dev, recent, Filled(stream, stale, StoredLength(stream)), StoredLength(stream));
    }
  }

  lemma UnflippedHeader(p: seq<byte>, e: seq<byte>, buffer: seq<byte>)
    requires |p| == |e| >= 4 && Flip(p, e) <= buffer && Weight(MessageBits(e[..4])) == 0
    ensures |buffer| >= 4 && buffer[0] == p[0] && buffer[1] == p[1] && buffer[2] == p[2] && buffer[3] == p[3]
  {
    hide *;
    SplitFlips(p, e, 4);
    NoFlippedBytes(e[..4]);
    FlipNothing(p[..4], e[..4]);
    assert buffer[..4] == p[..4];
    forall i | 0 <= i < 4 ensures buffer[i] == p[i] { assert buffer[..4][i] == p[..4][i]; }
  }

  lemma ShortLengthStored(info: Info, payload: seq<byte>, buffer: seq<byte>)
    requires 1 <= |payload| && Sized(info, |payload|) && !Latched(info, |payload|) && |buffer| >= 4
    requires !Extended(FinalHeader(info, |payload|)) && !HasCrc32(FinalHeader(info, |payload|))
    requires |Packet(info, payload)| >= 5 && forall i :: 0 <= i < 4 ==> buffer[i] == Packet(info, payload)[i]
    ensures !HasCrc32(buffer[1]) && StoredLength(buffer) == |Packet(info, payload)| <= 15
  {
    var p := Packet(info, payload);
    hide FinalHeader, Packet, Extended, HasCrc32, Latched, HeaderCrcOk, Weight, Overhead, PacketLength;
    ComposedFront(info, payload, p);
    ComposedLength(info, payload);
    ComposedHeader(info, |payload|);
    assert buffer[1] == p[1] && buffer[2] == p[2];
  }

  lemma NotLatched(info: Info, length: nat)
    requires !Extended(FinalHeader(info, length))
    ensures !Latched(info, length)
  {
  }

  lemma HeaderPart(info: Info, payload: seq<byte>)
    requires Sized(info, |payload|) && !Latched(info, |payload|) && !Extended(FinalHeader(info, |payload|))
    ensures |Packet(info, payload)| >= 5 && Crc8.Of(Packet(info, payload)[..3]) == Packet(info, payload)[3]
  {
    ComposedFront(info, payload, Packet(info, payload));
    hide FinalHeader, Packet, Extended, Latched;
  }

  lemma JudgeRefuses(dev: Device, recent: seq<Record>, buffer: seq<byte>, length: nat)
    requires |buffer| >= 35 && 5 <= length <= |buffer| && recent != [] && length >= Overhead(buffer[1])
    requires !HeaderCrcOk(buffer) || !TrailerOk(buffer, length)
    ensures Judge(dev, recent, buffer, length) == Outcome(NAK, false, None, None, recent)
  {
    hide HeaderCrcOk, TrailerOk, Overhead;
  }

  // ---------------------------------------------------------------- damage that gets through

  /** The register after each bit of a message. */
  lemma {:induction false} RollsThrough(m: Bits, registers: seq<byte>)
    requires |registers| == |m| + 1
    requires forall k :: 0 <= k < |m| ==> registers[k + 1] == Crc8.RollBit(registers[k], m[k])
    ensures Crc8.RollBits(registers[0], m) == registers[|m|]
  {
    hide Crc8.RollBit;
    if m != [] { RollsThrough(m[1..], registers[1..]); }
  }

  lemma {:induction false} RollConcat(crc: byte, a: Bits, b: Bits)
    ensures Crc8.RollBits(crc, a + b) == Crc8.RollBits(Crc8.RollBits(crc, a), b)
    decreases |a|
  {
    hide Crc8.RollBit;
    if a == [] {
      assert a + b == b;
    } else {
      assert (a + b)[1..] == a[1..] + b;
      RollConcat(Crc8.RollBit(crc, a[0]), a[1..], b);
    }
  }

  lemma BitsOf205()
    ensures ByteBits(205) == [true, false, true, true, false, false, true, true]
  {
    assert Low(0x03, 2) == [true, true];
    assert Low(0x0C, 4) == [false, false] + Low(0x03, 2) by { assert Low(0x06, 3) == [false] + Low(0x03, 2); }
    assert Low(0x33, 6) == [true, true] + Low(0x0C, 4) by { assert Low(0x19, 5) == [true] + Low(0x0C, 4); }
    assert Low(0xCD, 8) == [true, false] + Low(0x33, 6) by { assert Low(0x66, 7) == [false] + Low(0x33, 6); }
  }

  lemma BitsOf8()
    ensures ByteBits(8) == [false, false, false, true, false, false, false, false]
  {
    LowPads(0, 0, 4);
    assert Low(0x01, 5) == [true] + Low(0, 4);
    assert Low(0x04, 7) == [false, false] + Low(0x01, 5) by { assert Low(0x02, 6) == [false] + Low(0x01, 5); }
    assert Low(0x08, 8) == [false] + Low(0x04, 7);
  }

  lemma FirstByte()
    ensures Crc8.RollBits(0, ByteBits(205)) == 0x07
  {
    BitsOf205();
    RollsThrough(ByteBits(205), [0x00, 0x97, 0xDC, 0xF9, 0x7C, 0x3E, 0x1F, 0x0F, 0x07]);
  }

  lemma SecondByte()
    ensures Crc8.RollBits(0x07, ByteBits(0)) == 0xE3
  {
    ZeroByte();
    RollsThrough(ByteBits(0), [0x07, 0x94, 0x4A, 0x25, 0x85, 0xD5, 0xFD, 0xE9, 0xE3]);
  }

  lemma ThirdByte()
    ensures Crc8.RollBits(0xE3, ByteBits(8)) == 12
  {
    BitsOf8();
    RollsThrough(ByteBits(8), [0xE3, 0xE6, 0x73, 0xAE, 0xC0, 0x60, 0x30, 0x18, 0x0C]);
  }

  lemma HeaderCrcOf205()
    ensures Crc8.Of([205, 0, 8]) == 12
  {
    FirstByte();
    SecondByte();
    ThirdByte();
    hide Crc8.RollBit, Crc8.RollBits, ByteBits, MessageBits;
    ThreeBytes(205, 0, 8);
    RollConcat(0, ByteBits(205), ByteBits(0) + ByteBits(8));
    RollConcat(0x07, ByteBits(0), ByteBits(8));
  }

  lemma ThreeBytes(a: byte, b: byte, c: byte)
    ensures MessageBits([a, b, c]) == ByteBits(a) + (ByteBits(b) + ByteBits(c))
  {
    hide ByteBits;
    assert MessageBits([]) == [];
    assert MessageBits([c]) == ByteBits(c) + [] by { assert [c][1..] == []; }
    assert MessageBits([b, c]) == ByteBits(b) + MessageBits([c]) by { assert [b, c][1..] == [c]; }
    assert MessageBits([a, b, c]) == ByteBits(a) + MessageBits([b, c]) by { assert [a, b, c][1..] == [b, c]; }
  }

  /** A packet without options to the device 205 of a local bus. */
  predicate Plain(info: Info) {
    info.rx.id == 205 && info.header == 0 && info.port == NO_PORT
  }

  lemma PlainHeader(info: Info)
    requires Plain(info)
    ensures FinalHeader(info, 3) == 0 && PacketLength(info, 3) == 8 && Sized(info, 3)
    ensures !Extended(Requested(info, 3)) && Fields(info, 0) == [] && !HasCrc32(0) && !Extended(0)
  {
    assert Requested(info, 3) == 0;
    assert Overhead(0) == 5;
  }

  lemma LowOf8()
    ensures Lo(8) == 8
  {
  }

  lemma PlainFront()
    ensures Front(205, 0, 8, false) == [205, 0, 8, 12]
  {
    HeaderCrcOf205();
    LowOf8();
    hide Crc8.Of, Lo;
    var f := [205, 0] + LengthBytes(8, false);
    assert f == [205, 0, 8];
    assert Front(205, 0, 8, false) == f + [Crc8.Of(f)];
  }

  lemma PlainPacket(info: Info, payload: seq<byte>)
    requires Plain(info) && |payload| == 3 && Sized(info, 3)
    ensures var body := [205, 0, 8, 12] + payload;
            Packet(info, payload) == body + [Crc8.Of(body)]
  {
    PlainHeader(info);
    PlainFront();
    hide FinalHeader, Requested, Overhead, Fields, PacketLength, Crc8.Of, Front, Extended, HasCrc32, Sized;
    assert Head(info, 3) == Front(205, 0, 8, false) + Fields(info, 0);
    assert Head(info, 3) == [205, 0, 8, 12];
    assert [205, 0, 8, 12] + payload + [] == [205, 0, 8, 12] + payload;
  }

  lemma WeightOfEight(s: Bits)
    requires |s| == 8
    ensures Weight(s) == (if s[0] then 1 else 0) + (if s[1] then 1 else 0) + (if s[2] then 1 else 0)
                         + (if s[3] then 1 else 0) + (if s[4] then 1 else 0) + (if s[5] then 1 else 0)
                         + (if s[6] then 1 else 0) + (if s[7] then 1 else 0)
  {
    assert s[1..][1..] == s[2..] && s[2..][1..] == s[3..] && s[3..][1..] == s[4..];
    assert s[4..][1..] == s[5..] && s[5..][1..] == s[6..] && s[6..][1..] == s[7..];
    assert Weight(s[7..]) == if s[7] then 1 else 0;
    assert Weight(s[5..]) == (if s[5] then 1 else 0) + ((if s[6] then 1 else 0) + Weight(s[7..]));
    assert Weight(s[3..]) == (if s[3] then 1 else 0) + ((if s[4] then 1 else 0) + Weight(s[5..]));
    assert Weight(s[1..]) == (if s[1] then 1 else 0) + ((if s[2] then 1 else 0) + Weight(s[3..]));
  }

  lemma FlipWeights()
    ensures Weight(ByteBits(0x60)) == 2 && Weight(ByteBits(8)) == 1 && Weight(ByteBits(0)) == 0
  {
    BitsOf8();
    ZeroByte();
    assert Low(0x03, 3) == [true, true, false] by { LowPads(0, 0, 1); }
    assert Low(0x18, 6) == [false, false, false] + Low(0x03, 3) by {
      assert Low(0x0C, 5) == [false] + Low(0x06, 4) && Low(0x06, 4) == [false] + Low(0x03, 3);
    }
    assert Low(0x60, 8) == [false, false] + Low(0x18, 6) by { assert Low(0x30, 7) == [false] + Low(0x18, 6); }
    WeightOfEight(ByteBits(0x60));
    WeightOfEight(ByteBits(8));
    WeightOfEight(ByteBits(0));
  }

  /** Damage to the header: both bits turned on, and the length turned to 0. */
  const HEADER_DAMAGE: seq<byte> := [0, 0x60, 8, 0, 0, 0, 0, 0]

  lemma ThreeFlips()
    ensures Weight(MessageBits(HEADER_DAMAGE)) == 3
  {
    FlipWeights();
    ThreeBytes(0, 0x60, 8);
    var none := seq(5, i => 0 as byte);
    ZeroBytes(5);
    hide ByteBits, MessageBits, Weight;
    assert HEADER_DAMAGE == [0, 0x60, 8] + none;
    MessageConcat([0, 0x60, 8], none);
    WeightConcat(MessageBits([0, 0x60, 8]), MessageBits(none));
    WeightConcat(ByteBits(0), ByteBits(0x60) + ByteBits(8));
    WeightConcat(ByteBits(0x60), ByteBits(8));
    WeightZeros(40);
  }

  /** What arrives of that packet. */
  function Arrives(payload: seq<byte>): seq<byte>
    requires |payload| == 3
  {
    [205, 0x60, 0, 12] + payload + [Crc8.Of([205, 0, 8, 12] + payload)]
  }

  lemma ArrivesDamaged(info: Info, payload: seq<byte>)
    requires Plain(info) && |payload| == 3 && Sized(info, 3)
    ensures |Packet(info, payload)| == 8 && Flip(Packet(info, payload), HEADER_DAMAGE) == Arrives(payload)
  {
    PlainPacket(info, payload);
    hide *;
    SameTail(payload, Crc8.Of([205, 0, 8, 12] + payload));
  }

  lemma SameTail(payload: seq<byte>, last: byte)
    requires |payload| == 3
    ensures Flip([205, 0, 8, 12] + payload + [last], HEADER_DAMAGE) == [205, 0x60, 0, 12] + payload + [last]
  {
    var p, q := [205, 0, 8, 12] + payload + [last], [205, 0x60, 0, 12] + payload + [last];
    HeaderFlipped(p);
    PayloadKept(p);
    hide *;
    SameBytes(Flip(p, HEADER_DAMAGE), q);
  }

  lemma SameBytes(p: seq<byte>, q: seq<byte>)
    requires |p| == |q| == 8 && p[0] == q[0] && p[1] == q[1] && p[2] == q[2] && p[3] == q[3]
    requires p[4] == q[4] && p[5] == q[5] && p[6] == q[6] && p[7] == q[7]
    ensures p == q
  {
  }

  lemma HeaderFlipped(p: seq<byte>)
    requires |p| == 8 && p[0] == 205 && p[1] == 0 && p[2] == 8 && p[3] == 12
    ensures var q := Flip(p, HEADER_DAMAGE); q[0] == 205 && q[1] == 0x60 && q[2] == 0 && q[3] == 12
  {
  }

  lemma PayloadKept(p: seq<byte>)
    requires |p| == 8
    ensures var q := Flip(p, HEADER_DAMAGE); q[4] == p[4] && q[5] == p[5] && q[6] == p[6] && q[7] == p[7]
  {
    forall i | 4 <= i < 8 ensures Flip(p, HEADER_DAMAGE)[i] == p[i] { XorNothing(p[i], HEADER_DAMAGE[i]); }
  }

  /** Twelve bytes announced, no address filtered out, and twelve there. */
  lemma ArrivesRead(dev: Device, stream: seq<byte>, max: nat)
    requires dev.tx.id == 205 && !Shared(dev.config) && max > 12 && |stream| == 12
    requires stream[0] == 205 && stream[1] == 0x60 && stream[2] == 0 && stream[3] == 12
    ensures Read(dev, stream, max) == Frame(12)
  {
    assert !Shared(0x60) && HasCrc32(0x60) && Extended(0x60) && !HasMac(0x60) && !AckRequested(0x60);
    assert Overhead(0x60) == 9 by { hide Overhead; PlainOverhead(); }
    assert StoredLength(stream) == 12 by { ByteRoundTrip(12); }
  }

  lemma PlainOverhead()
    ensures Overhead(0x60) == 9 && CrcOverhead(0x60) == 4
  {
  }

  lemma ArrivesJudged(dev: Device, recent: seq<Record>, buffer: seq<byte>)
    requires dev.port == NO_PORT && |buffer| >= 35 && recent != []
    requires buffer[0] == 205 && buffer[1] == 0x60 && HeaderCrcOk(buffer) && TrailerOk(buffer, 12)
    requires Overhead(buffer[1]) == 9
    ensures var o := Judge(dev, recent, buffer, 12);
            o.code == ACK && o.payload == Some(buffer[5..8]) && o.info.Some?
  {
    PlainOverhead();
    assert !HasMac(0x60) && !HasId(0x60);
    hide HeaderCrcOk, TrailerOk, Overhead, CrcOverhead, HasMac, HasId, HasCrc32, AckRequested, Parsed;
    assert buffer[5..][..3] == buffer[5..8];
  }

  /** The damage excluded above can get through: three flipped bits in the header of an eight-byte packet
      turn it into one of twelve bytes under a CRC32. Where the first payload byte matches the CRC8 of the
      damaged header, and the CRC32 of what arrived follows on the wire, the device hands over bytes 5 to
      7 of the damaged packet as a payload. */
  lemma DamageGetsThrough(dev: Device, recent: seq<Record>, info: Info, b: byte, c: byte, stale: seq<byte>)
    requires dev.tx.id == 205 && !Shared(dev.config) && dev.port == NO_PORT && |stale| >= 35 && recent != []
    requires info.rx.id == 205 && info.header == 0 && info.port == NO_PORT
    ensures Sized(info, 3) && !HasCrc32(FinalHeader(info, 3)) && !Extended(FinalHeader(info, 3))
    ensures Weight(MessageBits(HEADER_DAMAGE)) == 3
    ensures var payload := [Crc8.Of([205, 0x60, 0, 12]), b, c];
            var stream := Arrives(payload) + Crc32.BigEndian(Crc32.Of(Arrives(payload)));
            var o := Reaction(dev, recent, stream, stale);
            && Damaged(stream, Packet(info, payload), HEADER_DAMAGE)
            && o.code == ACK && o.payload == Some(stream[5..8])
  {
    var payload := [Crc8.Of([205, 0x60, 0, 12]), b, c];
    PlainHeader(info);
    ThreeFlips();
    ArrivesDamaged(info, payload);
    ArrivesPrefix(payload, Packet(info, payload));
    hide *;
    ArrivesAccepted(dev, recent, payload, stale);
  }

  lemma ArrivesPrefix(payload: seq<byte>, p: seq<byte>)
    requires |payload| == 3 && |p| == 8 && Flip(p, HEADER_DAMAGE) == Arrives(payload)
    ensures Damaged(Arrives(payload) + Crc32.BigEndian(Crc32.Of(Arrives(payload))), p, HEADER_DAMAGE)
  {
    hide Crc32.Of, Crc32.BigEndian, Arrives;
  }

  lemma ArrivesAccepted(dev: Device, recent: seq<Record>, payload: seq<byte>, stale: seq<byte>)
    requires dev.tx.id == 205 && !Shared(dev.config) && dev.port == NO_PORT && |stale| >= 35 && recent != []
    requires |payload| == 3 && payload[0] == Crc8.Of([205, 0x60, 0, 12])
    ensures var stream := Arrives(payload) + Crc32.BigEndian(Crc32.Of(Arrives(payload)));
            var o := Reaction(dev, recent, stream, stale);
            o.code == ACK && o.payload == Some(stream[5..8])
  {
    hide Crc8.Of, Crc32.Of, Crc32.BigEndian, Read, Judge, HeaderCrcOk, TrailerOk, Overhead, Shared, HasCrc32, Extended;
    var stream := Arrives(payload) + Crc32.BigEndian(Crc32.Of(Arrives(payload)));
    ArrivesRead(dev, stream, |stale|);
    FrameRead(dev, stream, |stale|);
    PlainOverhead();
    var buffer := Filled(stream, stale, 12);
    assert buffer[..12] == stream;
    assert buffer[0] == stream[0] && buffer[1] == stream[1];
    ArrivesOk(payload, buffer);
    ArrivesJudged(dev, recent, buffer);
    assert buffer[5..8] == buffer[..12][5..8];
  }

  lemma ArrivesOk(payload: seq<byte>, buffer: seq<byte>)
    requires |payload| == 3 && payload[0] == Crc8.Of([205, 0x60, 0, 12]) && |buffer| >= 35
    requires buffer[..12] == Arrives(payload) + Crc32.BigEndian(Crc32.Of(Arrives(payload)))
    ensures HeaderCrcOk(buffer) && TrailerOk(buffer, 12)
  {
    assert HasCrc32(0x60) && Extended(0x60);
    hide Crc8.Of, Crc32.Of, Crc32.BigEndian, HasCrc32, Extended;
    var arrived := Arrives(payload);
    assert buffer[..12][..8] == buffer[..8] == arrived;
    assert buffer[..12][8..] == buffer[8..12];
    assert arrived[..4] == buffer[..4] == [205, 0x60, 0, 12];
    assert buffer[4] == arrived[4] && buffer[1] == arrived[1];
  }
}
