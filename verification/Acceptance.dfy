/** Which bytes a device takes for a packet: the tests it makes byte by byte while reading, and those it
    makes of the whole frame, as one condition on header masks and positions. */
module Acceptance {
  import opened Words
  import opened Packets
  import opened PacketCodec
  import opened Reception
  import opened Layout
  import Crc8
  import LongPackets

  function CrcSize(h: byte): nat { if h & 0x20 != 0 then 4 else 1 }

  /** The length the bytes announce. */
  function Announced(s: seq<byte>): nat
    requires |s| >= 4
  {
    if s[1] & 0x40 != 0 then Number(s, 2) else ByteToInt(s[2])
  }

  /** The rules for receiver id and header. */
  predicate HeaderFit(dev: Device, id: byte, h: byte) {
    && (dev.router || dev.config & 0x01 == 0 || h & 0x01 != 0)
    && !(id == 0 && h & 0x04 != 0)
    && (h & 0x40 != 0 ==> h & 0x20 != 0) && (h & 0x08 != 0 ==> h & 0x20 != 0)
    && (dev.router || id == dev.tx.id || id == 0 || h & 0x08 != 0)
  }

  /** The rules for the length: a packet holds at least one byte besides its overhead, fits the buffer, and
      has a CRC32 if it is longer than 15 bytes. */
  predicate LengthFit(h: byte, n: nat, max: nat) {
    DataPlace(h) + CrcSize(h) < n < max && (n > 15 ==> h & 0x20 != 0)
  }

  /** The bus id expected in shared packets without a MAC address. */
  function BusExpected(dev: Device): BusId {
    if dev.config & 0x01 != 0 then dev.tx.busId else [0, 0, 0, 0]
  }

  predicate BusFit(dev: Device, s: seq<byte>)
    requires |s| >= 2
  {
    var k := Start(s[1]);
    s[1] & 0x01 != 0 && !dev.router && s[1] & 0x08 == 0 ==> |s| >= k + 4 && s[k..k + 4] == BusExpected(dev)
  }

  predicate Readable(dev: Device, s: seq<byte>, max: nat) {
    && |s| >= 4 && HeaderFit(dev, s[0], s[1]) && LengthFit(s[1], Announced(s), max) && Announced(s) <= |s|
    && BusFit(dev, s)
  }

  lemma OverheadIs(h: byte)
    ensures Overhead(h) == DataPlace(h) + CrcSize(h) && CrcOverhead(h) == CrcSize(h)
  {
    HeaderMasks(h);
    hide Shared, HasTx, HasMac, HasPort, HasId, Extended, HasCrc32;
  }

  lemma HeaderFitIs(dev: Device, id: byte, h: byte)
    ensures HeaderFit(dev, id, h) <==> !HeaderRejected(dev, id, h)
  {
    HeaderMasks(h);
    HeaderMasks(dev.config);
    hide Shared, HasMac, Extended, HasCrc32, AckRequested;
  }

  lemma LengthFitIs(h: byte, n: nat, max: nat)
    ensures LengthFit(h, n, max) <==> !LengthRejected(h, n, max)
  {
    HeaderMasks(h);
    OverheadIs(h);
    hide HasCrc32, Overhead, DataPlace;
  }

  lemma AnnouncedIs(s: seq<byte>)
    requires |s| >= 4
    ensures Announced(s) == StoredLength(s) && Start(s[1]) == 4 + LengthExtra(s)
  {
    HeaderMasks(s[1]);
    hide Extended, ByteToInt;
  }

  lemma BusFitIs(dev: Device, s: seq<byte>)
    requires |s| >= 4 && (Shared(s[1]) ==> |s| >= Start(s[1]) + 4)
    ensures BusFit(dev, s) <==> !exists k: nat :: BusMismatch(dev, s, k)
  {
    HeaderMasks(s[1]);
    HeaderMasks(dev.config);
    AnnouncedIs(s);
    var k := Start(s[1]);
    hide Shared, HasMac, Extended, Start, LengthExtra;
    if Shared(s[1]) { BusRejectedSomewhere(dev, s, s[k..k + 4]); }
  }

  /** A device reads a frame to its end if and only if these rules let it, and the frame is as long as it
      says. */
  lemma ReadIff(dev: Device, s: seq<byte>, max: nat)
    ensures Read(dev, s, max).Frame? <==> Readable(dev, s, max)
    ensures Readable(dev, s, max) ==> Read(dev, s, max) == Frame(Announced(s)) && Announced(s) >= 6
  {
    hide *;
    if Read(dev, s, max).Frame? {
      FrameReadable(dev, s, max);
    }
    if Readable(dev, s, max) {
      ReadableFrame(dev, s, max);
    }
  }

  lemma SharedRoom(h: byte)
    ensures Shared(h) ==> DataPlace(h) >= Start(h) + 5
    ensures DataPlace(h) >= 4
  {
    HeaderMasks(h);
    hide Shared;
  }

  lemma FrameReadable(dev: Device, s: seq<byte>, max: nat)
    requires Read(dev, s, max).Frame?
    ensures Readable(dev, s, max) && Read(dev, s, max) == Frame(Announced(s)) && Announced(s) >= 6
  {
    FrameRead(dev, s, max);
    assert forall i :: 0 <= i < |s| ==> !GivesUp(dev, s, i, max);
    assert !GivesUp(dev, s, 2 + LengthExtra(s), max);
    AnnouncedIs(s);
    HeaderFitIs(dev, s[0], s[1]);
    LengthFitIs(s[1], Announced(s), max);
    SharedRoom(s[1]);
    GivesUpCases(dev, s, max);
    BusFitIs(dev, s);
    hide HeaderFit, HeaderRejected, LengthRejected, StoredLength, BusFit, Overhead, Extended, BusRejected, DataPlace;
    hide Announced, Shared, Start;
  }

  lemma ReadableFrame(dev: Device, s: seq<byte>, max: nat)
    requires Readable(dev, s, max)
    ensures Read(dev, s, max) == Frame(Announced(s)) && Announced(s) >= 6
  {
    AnnouncedIs(s);
    HeaderFitIs(dev, s[0], s[1]);
    LengthFitIs(s[1], Announced(s), max);
    SharedRoom(s[1]);
    assert Announced(s) >= 6;
    assert Shared(s[1]) ==> |s| >= Start(s[1]) + 4;
    GivesUpCases(dev, s, max);
    BusFitIs(dev, s);
    hide *;
    LongPackets.ReadsOn(dev, s, max, Announced(s));
  }

  /** The MAC address, if there is one, is the device's own or that of nobody. */
  predicate MacFit(dev: Device, s: seq<byte>)
    requires |s| >= 2
  {
    var k := MacPlace(s[1]);
    s[1] & 0x08 != 0 && !dev.router ==> |s| >= k + 6 && s[k..k + 6] in {dev.tx.mac, [0, 0, 0, 0, 0, 0]}
  }

  /** The bytes of a packet a device takes: read to the end, with the CRC8 of the header behind it, the CRC of
      all of it at its end, and a MAC address that fits. */
  predicate Acceptable(dev: Device, s: seq<byte>, max: nat) {
    && Readable(dev, s, max) && Announced(s) >= 6
    && var n, k := Announced(s), Start(s[1]) - 1;
       && s[k] == Crc8.Of(s[..k])
       && LongPackets.Sealed(s[..n], s[1] & 0x20 != 0)
       && MacFit(dev, s[..n])
  }

  /** A device takes bytes for a packet if and only if they are such, whatever its buffer held. */
  lemma AcceptedIff(dev: Device, s: seq<byte>, stale: seq<byte>)
    requires |stale| >= 35
    ensures Accepted(dev, s, stale).Some? <==> Acceptable(dev, s, |stale|)
  {
    ReadIff(dev, s, |stale|);
    if Readable(dev, s, |stale|) {
      FrameJudged(dev, s, stale);
    } else {
      hide Readable, Read;
    }
  }

  lemma FrameJudged(dev: Device, s: seq<byte>, stale: seq<byte>)
    requires |stale| >= 35 && Readable(dev, s, |stale|) && Read(dev, s, |stale|) == Frame(Announced(s))
    requires Announced(s) >= 6
    ensures Accepted(dev, s, stale).Some? <==> Acceptable(dev, s, |stale|)
  {
    var n := Announced(s);
    FrameRead(dev, s, |stale|);
    AnnouncedIs(s);
    HeaderMasks(s[1]);
    var buffer := Filled(s, stale, n);
    assert buffer[..n] == s[..n] && buffer[1] == s[1];
    LongPackets.TrailerMeans(buffer, n);
    HeaderCrcIs(s, buffer, n);
    MacFitIs(dev, s, buffer, n);
    hide Read, HeaderCrcOk, TrailerOk, MacOk, Parsed, StoredLength, HeaderRejected, Overhead, Readable, Announced;
    hide LongPackets.Sealed, MacFit, HasCrc32, Start, Crc8.Of;
  }

  lemma HeaderCrcIs(s: seq<byte>, buffer: seq<byte>, n: nat)
    requires 6 <= n <= |s| && n <= |buffer| && buffer[..n] == s[..n]
    ensures var k := Start(s[1]) - 1; HeaderCrcOk(buffer) <==> s[k] == Crc8.Of(s[..k])
  {
    hide Crc8.Of, Extended;
    AnnouncedIs(s);
    FrontSame(s, buffer, n, 1);
    FrontSame(s, buffer, n, Start(s[1]) - 1);
  }

  lemma FrontSame(s: seq<byte>, buffer: seq<byte>, n: nat, k: nat)
    requires k < n <= |s| && n <= |buffer| && buffer[..n] == s[..n]
    ensures buffer[k] == s[k] && buffer[..k] == s[..k]
  {
    SliceTaken(s, n, 0, k);
    SliceTaken(buffer, n, 0, k);
    assert buffer[0..k] == buffer[..k] && s[0..k] == s[..k];
    assert buffer[..n][k] == buffer[k] && s[..n][k] == s[k];
  }

  lemma MacFitIs(dev: Device, s: seq<byte>, buffer: seq<byte>, n: nat)
    requires 6 <= n <= |s| && 35 <= |buffer| && n <= |buffer| && buffer[..n] == s[..n] && Overhead(s[1]) < n
    requires HasMac(s[1]) ==> HasCrc32(s[1])
    ensures MacOk(dev, buffer, n) <==> MacFit(dev, s[..n])
  {
    var h := s[1];
    assert buffer[..n][1] == buffer[1] && s[..n][1] == h;
    HeaderMasks(h);
    MacPosition(h);
    Places(h);
    hide HasMac, HasCrc32, Overhead, MacPlace, MacsAt, Shared, HasTx, HasPort, HasId, Extended;
    if HasMac(h) {
      var k := MacPlace(h);
      SliceTaken(s, n, k, k + 6);
      SliceTaken(buffer, n, k, k + 6);
    }
  }

  lemma SliceTaken(s: seq<byte>, n: nat, k: nat, l: nat)
    requires k <= l <= n <= |s|
    ensures s[..n][k..l] == s[k..l]
  {
  }
}
