/** Bytes and 32-bit words as bit strings in the order the CRC loops consume them: lowest bit first. */
module WordBits {
  import opened Words
  import opened Gf2

  // ---------------------------------------------------------------- words

  predicate Odd(w: bv32) {
    w & 1 != 0
  }

  function Half(w: bv32): bv32 {
    w >> 1
  }

  /** The n lowest bits of w, the lowest first. */
  function Low(w: bv32, n: nat): (s: Bits)
    ensures |s| == n
  {
    if n == 0 then [] else [Odd(w)] + Low(Half(w), n - 1)
  }

  function WordBits32(w: bv32): (s: Bits)
    ensures |s| == 32
  {
    Low(w, 32)
  }

  function ByteBits(b: byte): (s: Bits)
    ensures |s| == 8
  {
    Low(b as bv32, 8)
  }

  /** w has no bits set beyond the n lowest. */
  predicate Fits(w: bv32, n: nat) {
    if n == 0 then w == 0 else Fits(Half(w), n - 1)
  }

  /** w halved n times. */
  function Halves(w: bv32, n: nat): bv32 {
    if n == 0 then w else Halves(Half(w), n - 1)
  }

  lemma {:induction false} FitsHalved(w: bv32, n: nat)
    requires Halves(w, n) == 0
    ensures Fits(w, n)
  {
    if n > 0 { FitsHalved(Half(w), n - 1); }
  }

  lemma {:induction false} HalvesTwice(w: bv32, m: nat, n: nat)
    ensures Halves(w, m + n) == Halves(Halves(w, m), n)
  {
    if m > 0 { HalvesTwice(Half(w), m - 1, n); }
  }

  lemma HalvesFour(w: bv32)
    ensures Halves(w, 4) == w >> 4
  {
    var a, b, c := Half(w), Half(Half(w)), Half(Half(Half(w)));
    assert Halves(c, 1) == Half(c);
    assert Halves(b, 2) == Half(c);
    FourShifts(w);
  }

  lemma FourShifts(w: bv32)
    ensures Half(Half(Half(Half(w)))) == w >> 4
  {
  }

  lemma HalvesEight(w: bv32)
    ensures var v := w >> 4; Halves(w, 8) == v >> 4
  {
    var v := Halves(w, 4);
    HalvesFour(w);
    HalvesFour(v);
    HalvesTwice(w, 4, 4);
  }

  lemma WordFits(w: bv32)
    ensures Fits(w, 32) && Fits(Half(w), 31)
  {
    var w1 := Halves(w, 8);
    var w2 := Halves(w1, 8);
    var w3 := Halves(w2, 8);
    HalvesEight(w);
    HalvesEight(w1);
    HalvesEight(w2);
    HalvesEight(w3);
    ShiftedOut(w, w1, w2, w3);
    HalvesTwice(w, 8, 24);
    HalvesTwice(w1, 8, 16);
    HalvesTwice(w2, 8, 8);
    FitsHalved(w, 32);
  }

  lemma ShiftedOut(w: bv32, w1: bv32, w2: bv32, w3: bv32)
    requires w1 == w >> 4 >> 4 && w2 == w1 >> 4 >> 4 && w3 == w2 >> 4 >> 4
    ensures w3 >> 4 >> 4 == 0
  {
  }

  lemma ByteFits(b: byte)
    ensures Fits(b as bv32, 8) && Fits(Half(b as bv32), 7)
  {
    HalvesEight(b as bv32);
    assert (b as bv32) >> 4 >> 4 == 0;
    FitsHalved(b as bv32, 8);
  }

  lemma {:induction false} LowSplit(w: bv32, m: nat, n: nat)
    ensures Low(w, m + n) == Low(w, m) + Low(Halves(w, m), n)
    decreases m
  {
    if m > 0 {
      LowSplit(Half(w), m - 1, n);
      ConsConcat(Odd(w), Low(Half(w), m - 1), Low(Halves(w, m), n));
    }
  }

  lemma XorShift(a: bv32, b: bv32)
    ensures Odd(a ^ b) == (Odd(a) != Odd(b)) && Half(a ^ b) == Half(a) ^ Half(b)
  {
  }

  lemma {:induction false} LowXor(a: bv32, b: bv32, n: nat)
    ensures Low(a ^ b, n) == Xor(Low(a, n), Low(b, n))
    decreases n
  {
    if n > 0 {
      var a1, b1 := Half(a), Half(b);
      XorShift(a, b);
      LowXor(a1, b1, n - 1);
      XorCons(Odd(a), Low(a1, n - 1), Odd(b), Low(b1, n - 1));
    }
  }

  /** Beyond the bits w fits in there are only zeros. */
  lemma {:induction false} LowPads(w: bv32, n: nat, more: nat)
    requires Fits(w, n)
    ensures Low(w, n + more) == Low(w, n) + Zeros(more)
    decreases n + more
  {
    if n > 0 {
      LowPads(Half(w), n - 1, more);
      ConsConcat(Odd(w), Low(Half(w), n - 1), Zeros(more));
    } else if more > 0 {
      assert Half(w) == 0 && !Odd(w);
      LowPads(w, 0, more - 1);
      ConsZeros(more);
    }
  }

  lemma {:induction false} LowZero(w: bv32, n: nat)
    requires Fits(w, n) && Low(w, n) == Zeros(n)
    ensures w == 0
    decreases n
  {
    if n > 0 {
      assert Low(w, n)[1..] == Zeros(n - 1) && !Low(w, n)[0];
      LowZero(Half(w), n - 1);
      NoBits(w);
    }
  }

  lemma NoBits(w: bv32)
    requires Half(w) == 0 && !Odd(w)
    ensures w == 0
  {
  }

  lemma Widen(a: byte, b: byte)
    ensures (a ^ b) as bv32 == (a as bv32) ^ (b as bv32) && (a >> 1) as bv32 == Half(a as bv32)
    ensures (a & 1 != 0) == Odd(a as bv32) && ((a ^ b) as bv32 == 0 ==> a == b)
  {
  }

  lemma ByteXor(a: byte, b: byte)
    ensures ByteBits(a ^ b) == Xor(ByteBits(a), ByteBits(b))
  {
    Widen(a, b);
    LowXor(a as bv32, b as bv32, 8);
  }

  lemma ByteShift(b: byte)
    ensures ByteBits(b >> 1) == ByteBits(b)[1..] + [false]
  {
    Widen(b, b);
    ByteFits(b);
    LowPads(Half(b as bv32), 7, 1);
  }

  lemma WordShift(w: bv32)
    ensures WordBits32(Half(w)) == WordBits32(w)[1..] + [false]
  {
    WordFits(w);
    LowPads(Half(w), 31, 1);
  }

  lemma ByteInjective(a: byte, b: byte)
    requires ByteBits(a) == ByteBits(b)
    ensures a == b
  {
    ByteXor(a, b);
    XorZero(ByteBits(a), ByteBits(b));
    ByteFits(a ^ b);
    LowZero((a ^ b) as bv32, 8);
    Widen(a, b);
  }

  lemma WordInjective(a: bv32, b: bv32)
    requires WordBits32(a) == WordBits32(b)
    ensures a == b
  {
    LowXor(a, b, 32);
    XorZero(WordBits32(a), WordBits32(b));
    WordFits(a ^ b);
    LowZero(a ^ b, 32);
    SameWord(a, b);
  }

  lemma SameWord(a: bv32, b: bv32)
    requires a ^ b == 0
    ensures a == b
  {
  }

  lemma ZeroByte()
    ensures ByteBits(0) == Zeros(8)
  {
    LowPads(0, 0, 8);
  }

  /** A byte loaded into a 32-bit register occupies the eight bits that leave first. */
  lemma ByteInWord(b: byte)
    ensures WordBits32(b as bv32) == ByteBits(b) + Zeros(24)
  {
    ByteFits(b);
    LowPads(b as bv32, 8, 24);
  }

  // ---------------------------------------------------------------- messages

  /** The bits of a message, byte by byte. */
  function MessageBits(data: seq<byte>): (s: Bits)
    ensures |s| == 8 * |data|
  {
    if data == [] then [] else ByteBits(data[0]) + MessageBits(data[1..])
  }

  lemma {:induction false} MessageConcat(a: seq<byte>, b: seq<byte>)
    ensures MessageBits(a + b) == MessageBits(a) + MessageBits(b)
  {
    if a == [] {
      assert a + b == b;
    } else {
      assert (a + b)[1..] == a[1..] + b;
      MessageConcat(a[1..], b);
    }
  }

  lemma MessageAppend(a: seq<byte>, b: byte)
    ensures MessageBits(a + [b]) == MessageBits(a) + ByteBits(b)
  {
    MessageConcat(a, [b]);
    assert MessageBits([b]) == ByteBits(b) + MessageBits([]);
  }

  function Flip(data: seq<byte>, e: seq<byte>): (r: seq<byte>)
    requires |data| == |e|
    ensures |r| == |data|
  {
    seq(|data|, i requires 0 <= i < |data| => data[i] ^ e[i])
  }

  lemma {:induction false} FlipBits(data: seq<byte>, e: seq<byte>)
    requires |data| == |e|
    ensures MessageBits(Flip(data, e)) == Xor(MessageBits(data), MessageBits(e))
  {
    if data != [] {
      assert Flip(data, e)[1..] == Flip(data[1..], e[1..]);
      FlipBits(data[1..], e[1..]);
      ByteXor(data[0], e[0]);
      XorConcat(ByteBits(data[0]), MessageBits(data[1..]), ByteBits(e[0]), MessageBits(e[1..]));
    }
  }
}

/** CRC8 of headers and of packets of up to 15 bytes. */
module Crc8 {
  import opened Words
  import opened Gf2
  import opened WordBits

  /** x^8 + x^7 + x^6 + x^5 + x^3 + 1: what a right shift with 0x97 divides by. */
  const POLYNOMIAL: Bits := ByteBits(0x97)

  lemma PolynomialShape()
    ensures |POLYNOMIAL| == 8 && POLYNOMIAL[7] && Parity(POLYNOMIAL)
    ensures POLYNOMIAL == [true, true, true, false, true, false, false, true]
  {
    assert Low(0x01, 1) == [true];
    assert Low(0x04, 3) == [false] + Low(0x02, 2) && Low(0x02, 2) == [false] + Low(0x01, 1);
    assert Low(0x12, 5) == [false] + Low(0x09, 4) && Low(0x09, 4) == [true] + Low(0x04, 3);
    assert Low(0x4B, 7) == [true] + Low(0x25, 6) && Low(0x25, 6) == [true] + Low(0x12, 5);
    assert Low(0x97, 8) == [true] + Low(0x4B, 7);
    ParityOfEight(POLYNOMIAL);
  }

  lemma ParityOfEight(s: Bits)
    requires |s| == 8
    ensures Parity(s) == (s[0] != (s[1] != (s[2] != (s[3] != (s[4] != (s[5] != (s[6] != s[7])))))))
  {
    assert s[1..][1..] == s[2..] && s[2..][1..] == s[3..] && s[3..][1..] == s[4..];
    assert s[4..][1..] == s[5..] && s[5..][1..] == s[6..] && s[6..][1..] == s[7..];
    assert Parity(s[7..]) == s[7];
    assert Parity(s[5..]) == (s[5] != (s[6] != s[7]));
    assert Parity(s[3..]) == (s[3] != (s[4] != Parity(s[5..])));
    assert Parity(s[1..]) == (s[1] != (s[2] != Parity(s[3..])));
  }

  function Syndrome(m: Bits): (r: Bits)
    ensures |r| == 8
  {
    Run(POLYNOMIAL, Zeros(8), m)
  }

  /** One bit through the 8-bit register, as the loop shifts it. */
  function RollBit(crc: byte, bit: bool): byte {
    var shifted := crc >> 1;
    if (crc & 1 != 0) != bit then shifted ^ 0x97 else shifted
  }

  function RollBits(crc: byte, m: Bits): byte
    decreases |m|
  {
    if m == [] then crc else RollBits(RollBit(crc, m[0]), m[1..])
  }

  /** The CRC8 of a message. */
  function Of(data: seq<byte>): byte {
    RollBits(0, MessageBits(data))
  }

  lemma RollBitIsStep(crc: byte, bit: bool)
    ensures ByteBits(RollBit(crc, bit)) == Step(POLYNOMIAL, ByteBits(crc), bit)
  {
    Widen(crc, crc);
    ByteShift(crc);
    ByteXor(crc >> 1, 0x97);
  }

  lemma {:induction false} RollBitsIsRun(crc: byte, m: Bits)
    ensures ByteBits(RollBits(crc, m)) == Run(POLYNOMIAL, ByteBits(crc), m)
    decreases |m|
  {
    if m != [] {
      RollBitIsStep(crc, m[0]);
      RollBitsIsRun(RollBit(crc, m[0]), m[1..]);
    }
  }

  /** The CRC8 is the register content after the message. */
  lemma OfBits(data: seq<byte>)
    ensures ByteBits(Of(data)) == Syndrome(MessageBits(data))
  {
    ZeroByte();
    RollBitsIsRun(0, MessageBits(data));
  }

  method Roll(inputByte: byte, crc: byte) returns (result: byte)
    ensures ByteBits(result) == Run(POLYNOMIAL, ByteBits(crc), ByteBits(inputByte))
  {
    result := crc;
    var input := inputByte;
    for i := 8 downto 0
      invariant Run(POLYNOMIAL, ByteBits(crc), ByteBits(inputByte))
                == Run(POLYNOMIAL, ByteBits(result), Low(input as bv32, i))
    {
      RollBitIsStep(result, input & 1 != 0);
      Widen(input, result);
      assert Low(input as bv32, i + 1)[1..] == Low(Half(input as bv32), i);
      var bit := (result ^ input) & 0x01;
      assert bit != 0 <==> (result & 1 != 0) != (input & 1 != 0);
      result := result >> 1;
      if bit != 0 { result := result ^ 0x97; }
      input := input >> 1;
    }
  }

  method Compute(data: array<byte>, length: nat) returns (crc: byte)
    requires length <= data.Length
    ensures crc == Of(data[..length])
  {
    crc := 0;
    ZeroByte();
    for b := 0 to length
      invariant ByteBits(crc) == Syndrome(MessageBits(data[..b]))
    {
      MessageAppend(data[..b], data[b]);
      assert data[..b + 1] == data[..b] + [data[b]];
      RunConcat(POLYNOMIAL, Zeros(8), MessageBits(data[..b]), ByteBits(data[b]));
      crc := Roll(data[b], crc);
    }
    OfBits(data[..length]);
    ByteInjective(crc, Of(data[..length]));
  }

  // ---------------------------------------------------------------- what the CRC8 promises

  /** The CRC8 is the remainder of the message, eight zeros appended, and nothing else is. */
  lemma CrcIsRemainder(data: seq<byte>, crc: byte)
    ensures crc == Of(data) <==>
            IsRemainder(POLYNOMIAL, Dividend(Zeros(8), MessageBits(data)), ByteBits(crc))
  {
    OfBits(data);
    RegisterIsRemainder(POLYNOMIAL, Zeros(8), MessageBits(data), ByteBits(crc));
    if ByteBits(crc) == ByteBits(Of(data)) { ByteInjective(crc, Of(data)); }
  }

  /** The trailing check: the last byte is the CRC8 of the rest. */
  predicate Checks(packet: seq<byte>)
    requires packet != []
  {
    Of(packet[..|packet| - 1]) == packet[|packet| - 1]
  }

  /** The trailing check accepts exactly the bit strings the polynomial divides. */
  lemma ChecksIsZeroSyndrome(packet: seq<byte>)
    requires packet != []
    ensures Checks(packet) <==> Syndrome(MessageBits(packet)) == Zeros(8)
  {
    var n := |packet| - 1;
    var m, r := MessageBits(packet[..n]), ByteBits(packet[n]);
    assert packet == packet[..n] + [packet[n]];
    MessageAppend(packet[..n], packet[n]);
    PolynomialShape();
    Residue(POLYNOMIAL, Zeros(8), m, r);
    OfBits(packet[..n]);
    if r == ByteBits(Of(packet[..n])) { ByteInjective(packet[n], Of(packet[..n])); }
  }

  /** The CRC8 carries the parity of every bit of the message. */
  lemma CrcParity(data: seq<byte>)
    ensures Parity(ByteBits(Of(data))) == Parity(MessageBits(data))
  {
    OfBits(data);
    PolynomialShape();
    RunParity(POLYNOMIAL, Zeros(8), MessageBits(data));
    ParityZeros(8);
  }

  /** An error on a valid packet, trailing CRC8 included, goes unnoticed exactly when the polynomial
      divides the error. */
  lemma Undetected(packet: seq<byte>, e: seq<byte>)
    requires packet != [] && Checks(packet) && |e| == |packet|
    ensures Checks(Flip(packet, e)) <==> Syndrome(MessageBits(e)) == Zeros(8)
  {
    ChecksIsZeroSyndrome(packet);
    ChecksIsZeroSyndrome(Flip(packet, e));
    FlipBits(packet, e);
    ErrorSyndrome(POLYNOMIAL, Zeros(8), MessageBits(packet), MessageBits(e));
  }

  /** Every odd number of flipped bits is noticed, wherever they fall. */
  lemma OddErrorsDetected(packet: seq<byte>, e: seq<byte>)
    requires packet != [] && Checks(packet) && |e| == |packet| && Parity(MessageBits(e))
    ensures !Checks(Flip(packet, e))
  {
    Undetected(packet, e);
    PolynomialShape();
    RunParity(POLYNOMIAL, Zeros(8), MessageBits(e));
    ParityZeros(8);
  }

  /** Every error confined to eight consecutive bits is noticed, wherever it falls. */
  lemma BurstsDetected(packet: seq<byte>, e: seq<byte>, before: nat, burst: Bits, after: nat)
    requires packet != [] && Checks(packet) && |e| == |packet|
    requires MessageBits(e) == Zeros(before) + burst + Zeros(after) && |burst| <= 8 && true in burst
    ensures !Checks(Flip(packet, e))
  {
    Undetected(packet, e);
    PolynomialShape();
    BurstSyndrome(POLYNOMIAL, before, burst, after);
  }
}

/** CRC32 of packets longer than 15 bytes. */
module Crc32 {
  import opened Words
  import opened Gf2
  import opened WordBits

  /** The FCS polynomial of clause 3.2.9 of IEEE Std 802.3, the highest power first. */
  const POLYNOMIAL: Bits := WordBits32(0xEDB8_8320)

  const EXPONENTS: set<int> := {26, 23, 22, 16, 12, 11, 10, 8, 7, 5, 4, 2, 1, 0}

  lemma FourBits(w: bv32, a: bv32, b: bv32, c: bv32, d: bv32)
    requires a == Half(w) && b == Half(a) && c == Half(b) && d == Half(c)
    ensures Low(w, 4) == [Odd(w), Odd(a), Odd(b), Odd(c)] && Halves(w, 4) == d
  {
    hide Odd, Half;
    assert Low(c, 1) == [Odd(c)];
    assert Low(b, 2) == [Odd(b), Odd(c)];
    assert Low(a, 3) == [Odd(a), Odd(b), Odd(c)];
    assert Halves(d, 0) == d;
    assert Halves(c, 1) == d;
    assert Halves(b, 2) == d;
    assert Halves(a, 3) == d;
  }

  lemma HighHalf()
    ensures Low(0xEDB8, 16)
            == [false, false, false, true, true, true, false, true, true, false, true, true, false, true, true, true]
  {
    FourBits(0xEDB8, 0x76DC, 0x3B6E, 0x1DB7, 0xEDB);
    LowSplit(0xEDB8, 4, 12);
    FourBits(0xEDB, 0x76D, 0x3B6, 0x1DB, 0xED);
    LowSplit(0xEDB, 4, 8);
    FourBits(0xED, 0x76, 0x3B, 0x1D, 0xE);
    LowSplit(0xED, 4, 4);
    FourBits(0xE, 0x7, 0x3, 0x1, 0x0);
  }

  lemma LowHalf()
    ensures Low(0xEDB8_8320, 16)
            == [false, false, false, false, false, true, false, false,
                true, true, false, false, false, false, false, true]
    ensures Halves(0xEDB8_8320, 16) == 0xEDB8
  {
    FourBits(0xEDB88320, 0x76DC4190, 0x3B6E20C8, 0x1DB71064, 0xEDB8832);
    LowSplit(0xEDB88320, 4, 12);
    HalvesTwice(0xEDB88320, 4, 12);
    FourBits(0xEDB8832, 0x76DC419, 0x3B6E20C, 0x1DB7106, 0xEDB883);
    LowSplit(0xEDB8832, 4, 8);
    HalvesTwice(0xEDB8832, 4, 8);
    FourBits(0xEDB883, 0x76DC41, 0x3B6E20, 0x1DB710, 0xEDB88);
    LowSplit(0xEDB883, 4, 4);
    HalvesTwice(0xEDB883, 4, 4);
    FourBits(0xEDB88, 0x76DC4, 0x3B6E2, 0x1DB71, 0xEDB8);
  }

  lemma Coefficients()
    ensures |POLYNOMIAL| == 32 && POLYNOMIAL[31]
    ensures forall i :: 0 <= i < 32 ==> (POLYNOMIAL[i] <==> 31 - i in EXPONENTS)
  {
    LowSplit(0xEDB8_8320, 16, 16);
    LowHalf();
    HighHalf();
  }

  // ---------------------------------------------------------------- the register

  /** One shift of the register: `crc & 1 ? (crc >> 1) ^ 0xEDB88320 : crc >> 1`. */
  function Shift(crc: bv32): bv32 {
    if Odd(crc) then Half(crc) ^ 0xEDB8_8320 else Half(crc)
  }

  function Shifts(crc: bv32, n: nat): bv32
    decreases n
  {
    if n == 0 then crc else Shifts(Shift(crc), n - 1)
  }

  function Register(crc: bv32, data: seq<byte>): bv32
    decreases |data|
  {
    if data == [] then crc else Register(Shifts(crc ^ (data[0] as bv32), 8), data[1..])
  }

  /** `~w` */
  function Not(w: bv32): bv32 {
    !w
  }

  /** The CRC32 of a message continued from `previous`; 0 to start. */
  function Of(data: seq<byte>, previous: bv32 := 0): bv32 {
    Not(Register(Not(previous), data))
  }

  lemma {:induction false} ShiftsAreSteps(crc: bv32, n: nat)
    ensures WordBits32(Shifts(crc, n)) == Run(POLYNOMIAL, WordBits32(crc), Zeros(n))
    decreases n
  {
    if n > 0 {
      assert Zeros(n)[1..] == Zeros(n - 1);
      ShiftIsStep(crc);
      ShiftsAreSteps(Shift(crc), n - 1);
    }
  }

  lemma ShiftIsStep(crc: bv32)
    ensures WordBits32(Shift(crc)) == Step(POLYNOMIAL, WordBits32(crc), false)
  {
    WordShift(crc);
    LowXor(Half(crc), 0xEDB8_8320, 32);
  }

  lemma LoadedBits(crc: bv32, b: byte)
    ensures WordBits32(crc ^ (b as bv32)) == Xor(WordBits32(crc), ByteBits(b) + Zeros(24))
  {
    hide *;
    ByteInWord(b);
    WordXor(crc, b as bv32);
  }

  lemma WordXor(v: bv32, w: bv32)
    ensures WordBits32(v ^ w) == Xor(WordBits32(v), WordBits32(w))
  {
    LowXor(v, w, 32);
    hide Low, Xor;
  }

  lemma LoadByte(crc: bv32, b: byte)
    ensures WordBits32(Shifts(crc ^ (b as bv32), 8)) == Run(POLYNOMIAL, WordBits32(crc), ByteBits(b))
  {
    LoadedBits(crc, b);
    assert |POLYNOMIAL| == 32;
    hide *;
    ShiftIn(POLYNOMIAL, WordBits32(crc), ByteBits(b));
    ShiftsAreSteps(crc ^ (b as bv32), 8);
  }

  /** Loading a byte at a time and shifting eight times runs the division bit by bit. */
  lemma {:induction false} RegisterIsRun(crc: bv32, data: seq<byte>)
    ensures WordBits32(Register(crc, data)) == Run(POLYNOMIAL, WordBits32(crc), MessageBits(data))
    decreases |data|
  {
    hide Shifts;
    if data != [] {
      LoadByte(crc, data[0]);
      RegisterIsRun(Shifts(crc ^ (data[0] as bv32), 8), data[1..]);
      RunConcat(POLYNOMIAL, WordBits32(crc), ByteBits(data[0]), MessageBits(data[1..]));
    }
  }

  lemma {:induction false} RegisterConcat(crc: bv32, a: seq<byte>, b: seq<byte>)
    ensures Register(crc, a + b) == Register(Register(crc, a), b)
    decreases |a|
  {
    if a == [] {
      assert a + b == b;
    } else {
      assert (a + b)[1..] == a[1..] + b;
      RegisterConcat(Shifts(crc ^ (a[0] as bv32), 8), a[1..], b);
    }
  }

  lemma RegisterEmpty(crc: bv32, a: seq<byte>)
    requires a == []
    ensures Register(crc, a) == crc
  {
  }

  lemma RegisterAppend(crc: bv32, a: seq<byte>, b: byte)
    ensures Register(crc, a + [b]) == Shifts(Register(crc, a) ^ (b as bv32), 8)
  {
    hide Shifts;
    RegisterConcat(crc, a, [b]);
    assert [b][1..] == [];
  }

  method Compute(data: array<byte>, length: nat, previousCrc32: bv32 := 0) returns (r: bv32)
    requires length <= data.Length
    ensures r == Of(data[..length], previousCrc32)
  {
    hide Register, Not, Shifts;
    var crc := Not(previousCrc32);
    RegisterEmpty(crc, data[..0]);
    for current := 0 to length
      invariant crc == Register(Not(previousCrc32), data[..current])
    {
      assert data[..current + 1] == data[..current] + [data[current]];
      RegisterAppend(Not(previousCrc32), data[..current], data[current]);
      crc := ShiftOut(crc ^ (data[current] as bv32));
    }
    r := Not(crc);
  }

  /** The inner loop: eight shifts. */
  method ShiftOut(loaded: bv32) returns (crc: bv32)
    ensures crc == Shifts(loaded, 8)
  {
    crc := loaded;
    for bits := 8 downto 0
      invariant Shifts(loaded, 8) == Shifts(crc, bits)
    {
      if crc & 1 != 0 { crc := (crc >> 1) ^ 0xEDB8_8320; } else { crc := crc >> 1; }
    }
  }

  /** A CRC32 as the four bytes a packet carries, the highest first. */
  function BigEndian(w: bv32): (s: seq<byte>)
    ensures |s| == 4
  {
    [((w >> 24) & 0xFF) as bv8, ((w >> 16) & 0xFF) as bv8, ((w >> 8) & 0xFF) as bv8, (w & 0xFF) as bv8]
  }

  lemma BigEndianInjective(v: bv32, w: bv32)
    requires BigEndian(v) == BigEndian(w)
    ensures v == w
  {
    assert BigEndian(v)[0] == BigEndian(w)[0] && BigEndian(v)[1] == BigEndian(w)[1];
    assert BigEndian(v)[2] == BigEndian(w)[2] && BigEndian(v)[3] == BigEndian(w)[3];
  }

  method Compare(computed: bv32, data: array<byte>, received: nat) returns (equal: bool)
    requires received + 4 <= data.Length
    ensures equal <==> data[received..received + 4] == BigEndian(computed)
  {
    ghost var expected := BigEndian(computed);
    for i := 4 downto 0
      invariant forall k :: 0 <= k < 4 - i ==> data[received + k] == expected[k]
    {
      var k := 3 - i;
      var b := if k == 0 then ((computed >> 24) & 0xFF) as bv8
               else if k == 1 then ((computed >> 16) & 0xFF) as bv8
               else if k == 2 then ((computed >> 8) & 0xFF) as bv8
               else (computed & 0xFF) as bv8;
      assert b == expected[k];
      if b != data[received + k] {
        assert data[received..received + 4][k] != expected[k];
        return false;
      }
    }
    return true;
  }

  // ---------------------------------------------------------------- what the CRC32 promises

  /** The register after each of n shifts. */
  lemma {:induction false} ShiftsThrough(registers: seq<bv32>)
    requires registers != [] && forall k :: 0 <= k < |registers| - 1 ==> registers[k + 1] == Shift(registers[k])
    ensures Shifts(registers[0], |registers| - 1) == registers[|registers| - 1]
  {
    hide Shift;
    if |registers| > 1 { ShiftsThrough(registers[1..]); }
  }

  /** The CRC32 of the letter a, as any implementation of the standard gives it. */
  lemma KnownAnswer()
    ensures Of([0x61]) == 0xE8B7_BE43
  {
    ShiftsThrough([0xFFFF_FF9E, 0x7FFF_FFCF, 0xD247_7CC7, 0x849B_3D43, 0xAFF5_1D81, 0xBA42_0DE0, 0x5D21_06F0,
                   0x2E90_8378, 0x1748_41BC]);
    hide Shift, Shifts;
    assert Not(0) ^ 0x61 == 0xFFFF_FF9E && Not(0x1748_41BC) == 0xE8B7_BE43;
    var data: seq<byte> := [0x61];
    assert data[1..] == [];
  }

  /** Continuing a CRC32 over b from the CRC32 of a gives the CRC32 of a followed by b. */
  lemma Chaining(a: seq<byte>, b: seq<byte>, previous: bv32)
    ensures Of(b, Of(a, previous)) == Of(a + b, previous)
  {
    hide Register, Not;
    RegisterConcat(Not(previous), a, b);
    ComplementTwice(Register(Not(previous), a));
  }

  /** The complement of the CRC32 is the remainder of the message with its first 32 bits inverted,
      32 zeros appended, and nothing else is. */
  lemma CrcIsRemainder(data: seq<byte>, crc: bv32)
    ensures crc == Of(data) <==>
            IsRemainder(POLYNOMIAL, Dividend(WordBits32(Not(0)), MessageBits(data)), WordBits32(Not(crc)))
  {
    hide Register, Run, Low, Not;
    var start: bv32 := Not(0);
    var r := Register(start, data);
    RegisterIsRun(start, data);
    RegisterIsRemainder(POLYNOMIAL, WordBits32(start), MessageBits(data), WordBits32(Not(crc)));
    if crc == Of(data) { ComplementTwice(r); }
    if WordBits32(Not(crc)) == WordBits32(r) {
      WordInjective(Not(crc), r);
      Complement(crc, r);
    }
  }

  lemma Complement(a: bv32, b: bv32)
    requires Not(a) == b
    ensures a == Not(b)
  {
  }

  lemma ComplementTwice(a: bv32)
    ensures Not(Not(a)) == a
  {
  }

  lemma ComplementXor(a: bv32, b: bv32)
    ensures Not(a) ^ Not(b) == a ^ b
  {
  }

  lemma DifferenceBits(a: bv32, b: bv32)
    ensures WordBits32(Not(a) ^ Not(b)) == Xor(WordBits32(a), WordBits32(b))
  {
    ComplementXor(a, b);
    LowXor(a, b, 32);
  }

  /** How two CRC32s of equally long messages differ depends only on where the messages differ. */
  lemma DifferenceIsSyndrome(data: seq<byte>, e: seq<byte>)
    requires |e| == |data|
    ensures WordBits32(Of(data) ^ Of(Flip(data, e))) == Run(POLYNOMIAL, Zeros(32), MessageBits(e))
  {
    hide Register, Run, Low, Not;
    var start: bv32 := Not(0);
    var r, r' := Register(start, data), Register(start, Flip(data, e));
    RegisterIsRun(start, data);
    RegisterIsRun(start, Flip(data, e));
    FlipBits(data, e);
    ErrorSyndrome(POLYNOMIAL, WordBits32(start), MessageBits(data), MessageBits(e));
    DifferenceBits(r, r');
    XorBack(WordBits32(r), Run(POLYNOMIAL, Zeros(32), MessageBits(e)));
  }

  lemma SameWordXor(a: bv32)
    ensures a ^ a == 0
  {
  }

  lemma XorBack(a: Bits, b: Bits)
    requires |a| == |b|
    ensures Xor(a, Xor(a, b)) == b
  {
  }

  /** Every error confined to 32 consecutive bits of the data changes the CRC32. */
  lemma BurstsDetected(data: seq<byte>, e: seq<byte>, before: nat, burst: Bits, after: nat)
    requires |e| == |data| && |burst| <= 32 && true in burst
    requires MessageBits(e) == Zeros(before) + burst + Zeros(after)
    ensures Of(Flip(data, e)) != Of(data)
  {
    Coefficients();
    DifferenceIsSyndrome(data, e);
    BurstSyndrome(POLYNOMIAL, before, burst, after);
    if Of(Flip(data, e)) == Of(data) {
      SameWordXor(Of(data));
      LowPads(0, 0, 32);
    }
  }
}
