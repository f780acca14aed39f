/** Packets protected by CRC32: which bytes their CRCs cover, and what damage behind the header comes to. */
module LongPackets {
  import opened Words
  import opened Gf2
  import opened WordBits
  import opened Packets
  import opened PacketCodec
  import opened PacketTools
  import opened Reception
  import Crc8
  import Crc32
  import opened Crc8Distance

  // ---------------------------------------------------------------- what the CRCs cover

  /** Four bytes of a packet as a word, the first one highest. */
  function Word32(a: byte, b: byte, c: byte, d: byte): bv32 {
    ((a as bv32) << 24) | ((b as bv32) << 16) | ((c as bv32) << 8) | (d as bv32)
  }

  lemma BigEndianWord(w: bv32)
    ensures var s := Crc32.BigEndian(w); Word32(s[0], s[1], s[2], s[3]) == w
  {
  }

  lemma WordInjects(s: seq<byte>, w: bv32)
    requires |s| == 4
    ensures Word32(s[0], s[1], s[2], s[3]) == w <==> s == Crc32.BigEndian(w)
  {
    var t := Crc32.BigEndian(w);
    BigEndianWord(w);
    if Word32(s[0], s[1], s[2], s[3]) == w {
      SameBytes(s[0], s[1], s[2], s[3], t[0], t[1], t[2], t[3]);
      assert s == t;
    }
  }

  lemma SameBytes(a: byte, b: byte, c: byte, d: byte, a': byte, b': byte, c': byte, d': byte)
    requires Word32(a, b, c, d) == Word32(a', b', c', d')
    ensures a == a' && b == b' && c == c' && d == d'
  {
  }

  /** The CRC at the end of these bytes is that of all bytes before it: the CRC32 in the last four bytes,
      the highest first, or the CRC8 in the last one. */
  predicate Sealed(p: seq<byte>, long: bool)
    requires |p| >= 4
  {
    var n := |p|;
    if long then Word32(p[n - 4], p[n - 3], p[n - 2], p[n - 1]) == Crc32.Of(p[..n - 4])
    else p[n - 1] == Crc8.Of(p[..n - 1])
  }

  lemma SealedBy(body: seq<byte>, h: byte)
    requires |body| >= 4
    ensures Sealed(body + Trailer(h, body), HasCrc32(h))
  {
    hide HasCrc32, Crc32.Of, Crc8.Of, Crc32.BigEndian, Word32;
    var t := Trailer(h, body);
    var p := body + t;
    var n := |p|;
    assert p[..|body|] == body;
    if HasCrc32(h) {
      BigEndianWord(Crc32.Of(body));
      assert p[n - 4] == t[0] && p[n - 3] == t[1] && p[n - 2] == t[2] && p[n - 1] == t[3];
    }
  }

  /** Every composed packet, bytes left from older contents included, ends with the CRC of all that comes
      before, a CRC32 exactly if its header says so; and its header ends with a CRC8 of its own. */
  lemma ComposedCrcs(info: Info, payload: seq<byte>, stale: seq<byte>)
    requires Sized(info, |payload|)
    ensures var p := Packet(info, payload, stale);
            var k := if Extended(Requested(info, |payload|)) then 4 else 3;
            && |p| >= 5 && p[1] == FinalHeader(info, |payload|) && Sealed(p, HasCrc32(p[1]))
            && k < |p| && p[k] == Crc8.Of(p[..k])
  {
    var h, n := FinalHeader(info, |payload|), PacketLength(info, |payload|);
    var extended := Extended(Requested(info, |payload|));
    var front := Front(info.rx.id, h, n, extended);
    var body := Head(info, |payload|) + payload + stale;
    assert Packet(info, payload, stale) == body + Trailer(h, body);
    assert Head(info, |payload|) == front + Fields(info, h);
    hide *;
    SealedBy(body, h);
    FrontFirst(front, Fields(info, h), payload, stale, Trailer(h, body));
    FrontCrc(info.rx.id, h, n, extended, Packet(info, payload, stale));
  }

  lemma FrontFirst(front: seq<byte>, fields: seq<byte>, payload: seq<byte>, stale: seq<byte>, trailer: seq<byte>)
    ensures |front| <= |((front + fields) + payload + stale) + trailer|
    ensures (((front + fields) + payload + stale) + trailer)[..|front|] == front
  {
  }

  lemma FrontCrc(id: byte, h: byte, n: uint16, extended: bool, p: seq<byte>)
    requires |p| >= 5 && p[..if extended then 5 else 4] == Front(id, h, n, extended)
    ensures var k := if extended then 4 else 3; p[1] == h && p[k] == Crc8.Of(p[..k])
  {
    hide Hi, Lo, Crc8.Of;
    var f := [id, h] + LengthBytes(n, extended);
    var front := f + [Crc8.Of(f)];
    assert p[..|front|] == front;
    assert p[..|front|][..|f|] == f && p[..|front|][1] == f[1];
    assert p[..|f|] == f;
  }

  /** What composing writes into a buffer ends with that CRC, over every byte in front of it. */
  lemma ComposedSealed(content: seq<byte>, before: seq<byte>, info: Info, source: seq<byte>)
    requires Sized(info, |source|) && ComposedInto(content, before, info, source)
    ensures var n := PacketLength(info, |source|);
            n <= |content| && n >= 5 && Sealed(content[..n], HasCrc32(FinalHeader(info, |source|)))
  {
    hide FinalHeader, Head, Packet, CrcOverhead, PacketLength, Sealed, HasCrc32;
    var n := PacketLength(info, |source|);
    var stale := before[|Head(info, |source|)| + |source|..n - CrcOverhead(FinalHeader(info, |source|))];
    ComposedCrcs(info, source, stale);
    assert content[..n] == Packet(info, source, stale);
  }

  /** The test at the end of a frame accepts it if and only if it ends with that CRC. */
  lemma TrailerMeans(buffer: seq<byte>, n: nat)
    requires 5 <= n <= |buffer|
    ensures TrailerOk(buffer, n) <==> Sealed(buffer[..n], HasCrc32(buffer[1]))
  {
    hide HasCrc32, Crc32.Of, Crc8.Of, Crc32.BigEndian, Word32;
    var p := buffer[..n];
    if HasCrc32(buffer[1]) {
      assert p[..n - 4] == buffer[..n - 4];
      WordInjects(buffer[n - 4..n], Crc32.Of(p[..n - 4]));
    } else {
      assert p[..n - 1] == buffer[..n - 1] && buffer[n - 1..n] == [buffer[n - 1]];
    }
  }

  // ---------------------------------------------------------------- damage behind the header

  /** A packet with the bits of its bytes from position f on flipped where d has ones. */
  function Damaged(p: seq<byte>, f: nat, d: seq<byte>): (q: seq<byte>)
    requires f + |d| <= |p|
    ensures |q| == |p| && q[..f] == p[..f] && q[f + |d|..] == p[f + |d|..]
  {
    p[..f] + Flip(p[f..f + |d|], d) + p[f + |d|..]
  }

  /** Damage within 32 consecutive bits in front of the last four bytes changes the CRC32 they should hold. */
  lemma BurstUnseals(p: seq<byte>, f: nat, d: seq<byte>, before: nat, burst: Bits, after: nat)
    requires f + |d| + 4 == |p| && Sealed(p, true)
    requires MessageBits(d) == Zeros(before) + burst + Zeros(after) && |burst| <= 32 && true in burst
    ensures !Sealed(Damaged(p, f, d), true)
  {
    hide *;
    var n, e := |p|, Shifted(f, d);
    BurstBits(f, d, before, burst, after);
    DamagedData(p, f, d);
    Crc32.BurstsDetected(p[..n - 4], e, 8 * f + before, burst, after);
    SameTail(p, Damaged(p, f, d));
  }

  /** Damage d as damage to all the data. */
  function Shifted(f: nat, d: seq<byte>): (e: seq<byte>)
    ensures |e| == f + |d|
  {
    seq(f, i => 0 as byte) + d
  }

  lemma BurstBits(f: nat, d: seq<byte>, before: nat, burst: Bits, after: nat)
    requires MessageBits(d) == Zeros(before) + burst + Zeros(after)
    ensures MessageBits(Shifted(f, d)) == Zeros(8 * f + before) + burst + Zeros(after)
  {
    ZeroBytes(f);
    hide MessageBits;
    MessageConcat(seq(f, i => 0 as byte), d);
    BurstMoves(8 * f, before, burst, after);
  }

  /** The data under the CRC32 of a damaged packet. */
  lemma DamagedData(p: seq<byte>, f: nat, d: seq<byte>)
    requires f + |d| + 4 == |p|
    ensures Damaged(p, f, d)[..|p| - 4] == Flip(p[..|p| - 4], Shifted(f, d))
  {
    var n := |p|;
    hide Flip;
    FlipBehind(p[..f], p[f..n - 4], d);
    assert p[..n - 4] == p[..f] + p[f..n - 4];
    assert Damaged(p, f, d)[..n - 4] == p[..f] + Flip(p[f..n - 4], d);
  }

  lemma BurstMoves(k: nat, before: nat, burst: Bits, after: nat)
    ensures Zeros(k) + (Zeros(before) + burst + Zeros(after)) == Zeros(k + before) + burst + Zeros(after)
  {
  }

  lemma FlipBehind(a: seq<byte>, b: seq<byte>, d: seq<byte>)
    requires |d| == |b|
    ensures Flip(a + b, seq(|a|, i => 0 as byte) + d) == a + Flip(b, d)
  {
    var e := seq(|a|, i => 0 as byte) + d;
    forall i | 0 <= i < |a + b| ensures Flip(a + b, e)[i] == (a + Flip(b, d))[i] {
      if i < |a| { XorZero(a[i]); } else { assert (a + b)[i] == b[i - |a|] && e[i] == d[i - |a|]; }
    }
  }

  lemma XorZero(b: byte)
    ensures b ^ 0 == b
  {
  }

  /** Bytes that end with the same four bytes as a sealed packet are sealed only if their CRC32 is the same. */
  lemma SameTail(p: seq<byte>, q: seq<byte>)
    requires |p| == |q| >= 4 && Sealed(p, true) && p[|p| - 4..] == q[|p| - 4..]
    requires Crc32.Of(q[..|q| - 4]) != Crc32.Of(p[..|p| - 4])
    ensures !Sealed(q, true)
  {
    hide Crc32.Of, Word32;
    var n := |p|;
    assert p[n - 4..][0] == q[n - 4..][0] && p[n - 4..][1] == q[n - 4..][1];
    assert p[n - 4..][2] == q[n - 4..][2] && p[n - 4..][3] == q[n - 4..][3];
  }

  /** Two sealed packets with the same data end with the same four bytes. */
  lemma SameData(p: seq<byte>, q: seq<byte>, k: nat)
    requires |p| == |q| >= 4 && Sealed(p, true) && p[..|p| - 4] == q[..|p| - 4]
    requires k < 4 && p[|p| - 4 + k] != q[|p| - 4 + k]
    ensures !Sealed(q, true)
  {
    hide Crc32.Of, Word32;
    var n := |p|;
    if Sealed(q, true) { SameBytes(p[n - 4], p[n - 3], p[n - 2], p[n - 1], q[n - 4], q[n - 3], q[n - 2], q[n - 1]); }
  }

  predicate Flips(d: seq<byte>) {
    exists i :: 0 <= i < |d| && d[i] != 0
  }

  /** So does damage to those four bytes alone. */
  lemma TailUnseals(p: seq<byte>, d: seq<byte>)
    requires |d| == 4 && |p| >= 4 && Sealed(p, true) && Flips(d)
    ensures !Sealed(Damaged(p, |p| - 4, d), true)
  {
    var n, q := |p|, Damaged(p, |p| - 4, d);
    assert q[..n - 4] == p[..n - 4];
    var i :| 0 <= i < 4 && d[i] != 0;
    var t := p[n - 4..n];
    assert Flip(t, d)[i] == t[i] ^ d[i] && t[i] == p[n - 4 + i];
    assert q[n - 4 + i] == Flip(t, d)[i];
    XorChanges(p[n - 4 + i], d[i]);
    hide *;
    SameData(p, q, i);
  }

  lemma XorChanges(a: byte, d: byte)
    requires d != 0
    ensures a ^ d != a
  {
  }

  /** Any damage behind the header, data and last four bytes alike, goes unnoticed if and only if the flips in
      those four bytes are what the polynomial leaves of the flips in the data. */
  lemma UnnoticedIff(p: seq<byte>, f: nat, d: seq<byte>, tail: seq<byte>)
    requires f + |d| + 4 == |p| && |tail| == 4 && Sealed(p, true)
    ensures Sealed(Damaged(p, f, d + tail), true)
            <==> Run(Crc32.POLYNOMIAL, Zeros(32), MessageBits(d)) == WordBits32(Word(tail))
  {
    hide *;
    var n, q := |p|, Damaged(p, f, d + tail);
    DamagedBoth(p, f, d, tail);
    SealedTail(p);
    SealedTail(q);
    DataDiffers(p[..n - 4], f, d);
    TailAgrees(p[n - 4..], tail, Crc32.Of(p[..n - 4]), Crc32.Of(q[..n - 4]));
  }

  /** Where two words differ. */
  function Difference(x: bv32, y: bv32): Bits {
    WordBits32(x ^ y)
  }

  lemma DataDiffers(data: seq<byte>, f: nat, d: seq<byte>)
    requires f + |d| == |data|
    ensures Difference(Crc32.Of(data), Crc32.Of(Flip(data, Shifted(f, d))))
            == Run(Crc32.POLYNOMIAL, Zeros(32), MessageBits(d))
  {
    LeadingZeros(f, d);
    hide Crc32.Of, Run, MessageBits, Flip, WordBits32, Shifted;
    Crc32.DifferenceIsSyndrome(data, Shifted(f, d));
  }

  lemma TailAgrees(t: seq<byte>, e: seq<byte>, x: bv32, y: bv32)
    requires |t| == |e| == 4 && Word(t) == x
    ensures Word(Flip(t, e)) == y <==> Difference(x, y) == WordBits32(Word(e))
  {
    TailXor(t, e);
    hide Word, Flip, WordBits32;
    WordsAgree(x, y, Word(e));
  }

  /** Four bytes as a word. */
  function Word(t: seq<byte>): bv32
    requires |t| == 4
  {
    Word32(t[0], t[1], t[2], t[3])
  }

  lemma SealedTail(p: seq<byte>)
    requires |p| >= 4
    ensures Sealed(p, true) <==> Word(p[|p| - 4..]) == Crc32.Of(p[..|p| - 4])
  {
    hide Word32, Crc32.Of;
  }

  lemma DamagedBoth(p: seq<byte>, f: nat, d: seq<byte>, tail: seq<byte>)
    requires f + |d| + 4 == |p| && |tail| == 4
    ensures var q := Damaged(p, f, d + tail);
            && q[..|p| - 4] == Flip(p[..|p| - 4], Shifted(f, d)) && q[|p| - 4..] == Flip(p[|p| - 4..], tail)
  {
    var n := |p|;
    hide Flip;
    FlipBehind(p[..f], p[f..n - 4], d);
    FlipParts(p[f..n - 4], p[n - 4..], d, tail);
    assert p[f..] == p[f..n - 4] + p[n - 4..] && p[f..f + |d + tail|] == p[f..];
    assert p[..n - 4] == p[..f] + p[f..n - 4];
    var q := Damaged(p, f, d + tail);
    assert q == p[..f] + (Flip(p[f..n - 4], d) + Flip(p[n - 4..], tail));
    assert q[..n - 4] == p[..f] + Flip(p[f..n - 4], d);
  }

  lemma FlipParts(a: seq<byte>, b: seq<byte>, d: seq<byte>, e: seq<byte>)
    requires |a| == |d| && |b| == |e|
    ensures Flip(a + b, d + e) == Flip(a, d) + Flip(b, e)
  {
  }

  lemma LeadingZeros(f: nat, d: seq<byte>)
    ensures Run(Crc32.POLYNOMIAL, Zeros(32), MessageBits(Shifted(f, d)))
            == Run(Crc32.POLYNOMIAL, Zeros(32), MessageBits(d))
  {
    assert |Crc32.POLYNOMIAL| == 32;
    ZeroBytes(f);
    hide MessageBits, Run;
    MessageConcat(seq(f, i => 0 as byte), d);
    RunConcat(Crc32.POLYNOMIAL, Zeros(32), Zeros(8 * f), MessageBits(d));
    RunZeros(Crc32.POLYNOMIAL, 8 * f);
  }

  lemma TailXor(t: seq<byte>, e: seq<byte>)
    requires |t| == |e| == 4
    ensures Word(Flip(t, e)) == Word(t) ^ Word(e)
  {
    WordXor(t[0], t[1], t[2], t[3], e[0], e[1], e[2], e[3]);
    hide Word32;
  }

  lemma WordXor(a: byte, b: byte, c: byte, d: byte, a': byte, b': byte, c': byte, d': byte)
    ensures Word32(a ^ a', b ^ b', c ^ c', d ^ d') == Word32(a, b, c, d) ^ Word32(a', b', c', d')
  {
  }

  lemma WordsAgree(x: bv32, y: bv32, w: bv32)
    ensures x ^ w == y <==> WordBits32(x ^ y) == WordBits32(w)
  {
    if WordBits32(x ^ y) == WordBits32(w) { WordInjective(x ^ y, w); }
    hide WordBits32;
    assert x ^ w == y <==> x ^ y == w;
  }

  // ---------------------------------------------------------------- reading damaged packets

  /** Where the header CRC ends. */
  function HeaderEnd(info: Info, length: nat): nat {
    if Extended(FinalHeader(info, length)) then 5 else 4
  }

  /** The packet as its bytes name the receiver: damage may have changed the bus id. */
  function Heard(info: Info, length: nat, s: seq<byte>): Info
    requires |s| >= HeaderEnd(info, length) + 4
  {
    var f := HeaderEnd(info, length);
    if Shared(FinalHeader(info, length)) then info.(rx := info.rx.(busId := s[f..f + 4])) else info
  }

  /** The bytes begin with a composed packet damaged behind its header only. */
  predicate HeaderIntact(s: seq<byte>, info: Info, payload: seq<byte>)
    requires Sized(info, |payload|)
  {
    var p, f := Packet(info, payload), HeaderEnd(info, |payload|);
    |p| <= |s| && f + 4 <= |p| && s[..f] == p[..f]
  }

  lemma HeaderReads(s: seq<byte>, info: Info, payload: seq<byte>)
    requires 1 <= |payload| && Sized(info, |payload|) && !Latched(info, |payload|) && HeaderIntact(s, info, payload)
    ensures s[0] == info.rx.id && s[1] == FinalHeader(info, |payload|)
    ensures StoredLength(s) == PacketLength(info, |payload|) == |Packet(info, payload)| >= 6
    ensures HeaderEnd(info, |payload|) == 4 + LengthExtra(s)
  {
    var p, f := Packet(info, payload), HeaderEnd(info, |payload|);
    ComposedFront(info, payload, p);
    ComposedLength(info, payload);
    PacketIsLonger(info, |payload|);
    hide FinalHeader, Packet, PacketLength, Extended, Latched, HeaderCrcOk, Sized;
    forall i | 0 <= i < 4 ensures s[i] == p[i] { assert s[..f][i] == p[..f][i]; }
  }

  /** Whether such bytes are read to the end depends on length and addressing alone. */
  lemma IntactRead(dev: Device, s: seq<byte>, info: Info, payload: seq<byte>, max: nat)
    requires 1 <= |payload| && Sized(info, |payload|) && !Latched(info, |payload|) && HeaderIntact(s, info, payload)
    ensures Read(dev, s, max)
            == if PacketLength(info, |payload|) < max
                  && Passes(dev, Heard(info, |payload|, s), FinalHeader(info, |payload|))
               then Frame(|Packet(info, payload)|) else GaveUp
  {
    var n := PacketLength(info, |payload|);
    HeaderReads(s, info, payload);
    ComposedHeader(info, |payload|);
    assert LengthRejected(s[1], n, max) <==> n >= max;
    if n >= max {
      hide FinalHeader, PacketLength, Packet, Latched, StoredLength, LengthRejected, Passes, Sized;
      hide HeaderRejected, BusRejected, Extended;
      assert GivesUp(dev, s, 2 + LengthExtra(s), max);
    } else {
      IntactGivesUp(dev, s, info, payload, max);
      hide *;
      ReadsOn(dev, s, max, n);
    }
  }

  lemma ReadsOn(dev: Device, s: seq<byte>, max: nat, n: nat)
    requires |s| >= 5 && StoredLength(s) == n <= |s|
    ensures Read(dev, s, max)
            == if exists i :: 0 <= i < |s| && GivesUp(dev, s, i, max) then GaveUp else Frame(n)
  {
    hide GivesUp, StoredLength, Extended;
  }

  lemma IntactGivesUp(dev: Device, s: seq<byte>, info: Info, payload: seq<byte>, max: nat)
    requires 1 <= |payload| && Sized(info, |payload|) && !Latched(info, |payload|) && HeaderIntact(s, info, payload)
    requires PacketLength(info, |payload|) < max
    ensures (exists i :: 0 <= i < |s| && GivesUp(dev, s, i, max))
            <==> !Passes(dev, Heard(info, |payload|, s), FinalHeader(info, |payload|))
  {
    var h, k := FinalHeader(info, |payload|), HeaderEnd(info, |payload|);
    HeaderReads(s, info, payload);
    ComposedHeader(info, |payload|);
    assert |s| >= k + 4 && !LengthRejected(h, StoredLength(s), max);
    hide *;
    GivesUpCases(dev, s, max);
    HeardPasses(dev, s, info, payload);
    if Shared(h) {
      BusRejectedSomewhere(dev, s, s[k..k + 4]);
    } else {
      NoBusRejected(dev, s);
    }
  }

  lemma NoBusRejected(dev: Device, s: seq<byte>)
    requires |s| >= 2 && !Shared(s[1])
    ensures !exists k: nat :: BusMismatch(dev, s, k)
  {
    hide Shared;
  }

  /** The addressing rules for a packet as it was heard. */
  lemma HeardPasses(dev: Device, s: seq<byte>, info: Info, payload: seq<byte>)
    requires 1 <= |payload| && Sized(info, |payload|) && HeaderIntact(s, info, payload)
    requires s[0] == info.rx.id && s[1] == FinalHeader(info, |payload|)
    requires HasMac(s[1]) ==> HasCrc32(s[1])
    requires !(info.rx.id == BROADCAST && AckRequested(s[1]))
    ensures var k := HeaderEnd(info, |payload|);
            Passes(dev, Heard(info, |payload|, s), s[1])
            <==> !HeaderRejected(dev, s[0], s[1])
                 && (Shared(s[1]) && !dev.router && !HasMac(s[1]) ==> s[k..k + 4] == Home(dev))
  {
    hide FinalHeader, Packet, Home, HeaderEnd;
    hide Shared, HasCrc32, HasMac, AckRequested, Extended, Sized;
  }

  // ---------------------------------------------------------------- damaged packets are refused

  /** What begins with a packet under CRC32, its header intact, its end no longer the CRC32 of what comes
      before: read to the end it gives NAK, and it leaves no trace in any case. */
  lemma UnsealedRefused(
    dev: Device, recent: seq<Record>, info: Info, payload: seq<byte>, q: seq<byte>, rest: seq<byte>, stale: seq<byte>
  )
    requires 1 <= |payload| && Sized(info, |payload|) && !Latched(info, |payload|)
    requires HasCrc32(FinalHeader(info, |payload|)) && |stale| >= 35 && recent != []
    requires HeaderIntact(q, info, payload) && |q| == |Packet(info, payload)| >= HeaderEnd(info, |payload|) + 4
    requires !Sealed(q, true)
    ensures Reaction(dev, recent, q + rest, stale)
            == Outcome(if PacketLength(info, |payload|) < |stale|
                          && Passes(dev, Heard(info, |payload|, q), FinalHeader(info, |payload|)) then NAK else BUSY,
                       false, None, None, recent)
  {
    hide *;
    HeardBefore(q, rest, info, payload);
    HeaderReads(q, info, payload);
    IntactRead(dev, q + rest, info, payload, |stale|);
    UnsealedReaction(dev, recent, q, rest, stale);
  }

  /** What follows a packet changes nothing about how it is heard. */
  lemma HeardBefore(q: seq<byte>, rest: seq<byte>, info: Info, payload: seq<byte>)
    requires Sized(info, |payload|) && HeaderIntact(q, info, payload)
    ensures |q| >= HeaderEnd(info, |payload|) + 4 && HeaderIntact(q + rest, info, payload)
    ensures Heard(info, |payload|, q + rest) == Heard(info, |payload|, q)
  {
    var s, f := q + rest, HeaderEnd(info, |payload|);
    assert s[..f] == q[..f] && s[f..f + 4] == q[f..f + 4];
    hide FinalHeader, Packet, HeaderEnd, Sized, Shared;
  }

  lemma UnsealedReaction(dev: Device, recent: seq<Record>, q: seq<byte>, rest: seq<byte>, stale: seq<byte>)
    requires |stale| >= 35 && recent != [] && |q| >= 6 && HasCrc32(q[1]) && !Sealed(q, true)
    requires Read(dev, q + rest, |stale|) in {GaveUp, Frame(|q|)}
    ensures Reaction(dev, recent, q + rest, stale)
            == Outcome(if Read(dev, q + rest, |stale|).Frame? then NAK else BUSY, false, None, None, recent)
  {
    var s, n := q + rest, |q|;
    hide Sealed, HasCrc32, Extended, Overhead, HeaderCrcOk, TrailerOk, Read, Judge, StoredLength, HeaderRejected;
    if Read(dev, s, |stale|).Frame? {
      FrameRead(dev, s, |stale|);
      var buffer := Filled(s, stale, n);
      assert buffer[..n] == q && buffer[1] == q[1] && s[1] == q[1];
      TrailerMeans(buffer, n);
      UntrustedJudged(dev, recent, buffer, n);
    }
  }

  lemma UntrustedJudged(dev: Device, recent: seq<Record>, buffer: seq<byte>, n: nat)
    requires |buffer| >= 35 && 5 <= n <= |buffer| && recent != [] && n >= Overhead(buffer[1])
    requires !HeaderCrcOk(buffer) || !TrailerOk(buffer, n)
    ensures Judge(dev, recent, buffer, n) == Outcome(NAK, false, None, None, recent)
  {
    hide HeaderCrcOk, TrailerOk, Overhead;
  }

  /** Damage within 32 consecutive bits, anywhere between the header CRC and the last four bytes of a packet
      under CRC32, is always noticed: a device that reads the packet to the end answers NAK, and no device
      acknowledges it, hands it over or records it. */
  lemma DamagedLongPacketRefused(
    dev: Device, recent: seq<Record>, info: Info, payload: seq<byte>, d: seq<byte>, before: nat, burst: Bits,
    after: nat, rest: seq<byte>, stale: seq<byte>
  )
    requires 1 <= |payload| && Sized(info, |payload|) && !Latched(info, |payload|)
    requires HasCrc32(FinalHeader(info, |payload|)) && |stale| >= 35 && recent != []
    requires HeaderEnd(info, |payload|) + |d| + 4 == |Packet(info, payload)|
    requires MessageBits(d) == Zeros(before) + burst + Zeros(after) && |burst| <= 32 && true in burst
    ensures var q := Damaged(Packet(info, payload), HeaderEnd(info, |payload|), d);
            && |q| >= HeaderEnd(info, |payload|) + 4
            && Reaction(dev, recent, q + rest, stale)
               == Outcome(if PacketLength(info, |payload|) < |stale|
                             && Passes(dev, Heard(info, |payload|, q), FinalHeader(info, |payload|)) then NAK else BUSY,
                          false, None, None, recent)
  {
    var p, f := Packet(info, payload), HeaderEnd(info, |payload|);
    hide *;
    ComposedCrcs(info, payload, []);
    BurstUnseals(p, f, d, before, burst, after);
    DamageIntact(info, payload, f, d);
    UnsealedRefused(dev, recent, info, payload, Damaged(p, f, d), rest, stale);
  }

  /** In general: of all damage behind the header, what the polynomial does not leave unnoticed is refused
      like that. */
  lemma NoticedRefused(
    dev: Device, recent: seq<Record>, info: Info, payload: seq<byte>, d: seq<byte>, tail: seq<byte>, rest: seq<byte>,
    stale: seq<byte>
  )
    requires 1 <= |payload| && Sized(info, |payload|) && !Latched(info, |payload|)
    requires HasCrc32(FinalHeader(info, |payload|)) && |stale| >= 35 && recent != []
    requires HeaderEnd(info, |payload|) + |d| + 4 == |Packet(info, payload)| && |tail| == 4
    requires Run(Crc32.POLYNOMIAL, Zeros(32), MessageBits(d)) != WordBits32(Word(tail))
    ensures var q := Damaged(Packet(info, payload), HeaderEnd(info, |payload|), d + tail);
            && |q| >= HeaderEnd(info, |payload|) + 4
            && Reaction(dev, recent, q + rest, stale)
               == Outcome(if PacketLength(info, |payload|) < |stale|
                             && Passes(dev, Heard(info, |payload|, q), FinalHeader(info, |payload|)) then NAK else BUSY,
                          false, None, None, recent)
  {
    hide *;
    var p, f := Packet(info, payload), HeaderEnd(info, |payload|);
    ComposedCrcs(info, payload, []);
    UnnoticedIff(p, f, d, tail);
    DamageIntact(info, payload, f, d + tail);
    UnsealedRefused(dev, recent, info, payload, Damaged(p, f, d + tail), rest, stale);
  }

  /** The same for damage to the last four bytes. */
  lemma DamagedTailRefused(
    dev: Device, recent: seq<Record>, info: Info, payload: seq<byte>, d: seq<byte>, rest: seq<byte>, stale: seq<byte>
  )
    requires 1 <= |payload| && Sized(info, |payload|) && !Latched(info, |payload|)
    requires HasCrc32(FinalHeader(info, |payload|)) && |stale| >= 35 && recent != []
    requires |d| == 4 && Flips(d)
    ensures |Packet(info, payload)| >= 9 && HeaderEnd(info, |payload|) + 4 <= |Packet(info, payload)|
    ensures var p := Packet(info, payload);
            Reaction(dev, recent, Damaged(p, |p| - 4, d) + rest, stale)
            == Outcome(if PacketLength(info, |payload|) < |stale|
                          && Passes(dev, Heard(info, |payload|, Damaged(p, |p| - 4, d)), FinalHeader(info, |payload|))
                       then NAK else BUSY,
                       false, None, None, recent)
  {
    var p := Packet(info, payload);
    hide *;
    ComposedCrcs(info, payload, []);
    LongEnough(info, payload);
    TailUnseals(p, d);
    DamageIntact(info, payload, |p| - 4, d);
    UnsealedRefused(dev, recent, info, payload, Damaged(p, |p| - 4, d), rest, stale);
  }

  lemma LongEnough(info: Info, payload: seq<byte>)
    requires 1 <= |payload| && Sized(info, |payload|) && !Latched(info, |payload|)
    requires HasCrc32(FinalHeader(info, |payload|))
    ensures |Packet(info, payload)| >= HeaderEnd(info, |payload|) + 5
  {
    ComposedLength(info, payload);
    hide FinalHeader, Packet, Latched, Shared, HasTx, HasMac, HasPort, HasId, HasCrc32, Extended;
  }

  lemma DamageIntact(info: Info, payload: seq<byte>, f: nat, d: seq<byte>)
    requires Sized(info, |payload|) && f + |d| <= |Packet(info, payload)|
    requires HeaderEnd(info, |payload|) <= f && HeaderEnd(info, |payload|) + 4 <= |Packet(info, payload)|
    ensures HeaderIntact(Damaged(Packet(info, payload), f, d), info, payload)
  {
    hide FinalHeader, Packet, HeaderEnd, Sized;
    var p, k := Packet(info, payload), HeaderEnd(info, |payload|);
    assert Damaged(p, f, d)[..k] == p[..f][..k];
  }

  /** One to three flipped bits in the header of any packet are noticed too, unless they change the
      extended length bit. */
  lemma DamagedHeaderRefused(
    dev: Device, recent: seq<Record>, info: Info, payload: seq<byte>, e: seq<byte>, rest: seq<byte>, stale: seq<byte>
  )
    requires 1 <= |payload| && Sized(info, |payload|) && !Latched(info, |payload|) && |stale| >= 35 && recent != []
    requires |e| == HeaderEnd(info, |payload|) <= |Packet(info, payload)| && 1 <= Weight(MessageBits(e)) <= 3
    requires var q := Damaged(Packet(info, payload), 0, e); Extended(q[1]) == Extended(FinalHeader(info, |payload|))
    ensures var o := Reaction(dev, recent, Damaged(Packet(info, payload), 0, e) + rest, stale);
            o.code in {NAK, BUSY, FAIL} && !o.responded && o.info == None && o.payload == None && o.recent == recent
  {
    var p, f := Packet(info, payload), |e|;
    var q := Damaged(p, 0, e);
    HeaderChecks(info, payload);
    assert q[..f] == Flip(p[..f], e) && f == 4 + LengthExtra(q);
    hide *;
    Crc8Distance.ShortErrorsDetected(p[..f], e);
    UncheckedReaction(dev, recent, q, f, rest, stale);
  }

  lemma UncheckedReaction(dev: Device, recent: seq<Record>, q: seq<byte>, f: nat, rest: seq<byte>, stale: seq<byte>)
    requires |stale| >= 35 && recent != [] && |q| >= 5 && f == 4 + LengthExtra(q) && !Crc8.Checks(q[..f])
    ensures var o := Reaction(dev, recent, q + rest, stale);
            o.code in {NAK, BUSY, FAIL} && !o.responded && o.info == None && o.payload == None && o.recent == recent
  {
    var s := q + rest;
    hide Overhead, HeaderCrcOk, TrailerOk, Read, Judge, StoredLength, HeaderRejected, Crc8.Checks, Extended;
    if Read(dev, s, |stale|).Frame? {
      FrameRead(dev, s, |stale|);
      var n := Read(dev, s, |stale|).length;
      var buffer := Filled(s, stale, n);
      assert s[1] == q[1] && buffer[..n] == s[..n];
      assert buffer[..f] == s[..f] == q[..f];
      assert buffer[1] == s[..n][1];
      HeaderCrcMeans(buffer, f);
      UntrustedJudged(dev, recent, buffer, n);
    }
  }

  lemma HeaderCrcMeans(buffer: seq<byte>, f: nat)
    requires |buffer| >= 5 && f == 4 + LengthExtra(buffer)
    ensures HeaderCrcOk(buffer) <==> Crc8.Checks(buffer[..f])
  {
    hide Crc8.Of, Extended;
    assert buffer[..f][..f - 1] == buffer[..f - 1];
  }

  lemma HeaderChecks(info: Info, payload: seq<byte>)
    requires Sized(info, |payload|) && !Latched(info, |payload|)
    ensures var f := HeaderEnd(info, |payload|); |Packet(info, payload)| >= 5 && Crc8.Checks(Packet(info, payload)[..f])
  {
    var p := Packet(info, payload);
    ComposedFront(info, payload, p);
    hide FinalHeader, Packet, Extended, Latched, StoredLength, HeaderCrcOk;
    HeaderCrcMeans(p, HeaderEnd(info, |payload|));
  }
}
