/** The distance the CRC8 comment claims: which small numbers of flipped bits can go unnoticed. */
module Crc8Distance {
  import opened Words
  import opened Gf2
  import opened WordBits
  import opened Crc8

  /** The register shifted n times with zero input. */
  function Spin(crc: byte, n: nat): byte
    decreases n
  {
    if n == 0 then crc else Spin(RollBit(crc, false), n - 1)
  }

  lemma {:induction false} SpinTwice(crc: byte, m: nat, n: nat)
    ensures Spin(crc, m + n) == Spin(Spin(crc, m), n)
    decreases m
  {
    if m > 0 { SpinTwice(RollBit(crc, false), m - 1, n); }
  }

  lemma {:induction false} SpinIsRun(crc: byte, n: nat)
    ensures ByteBits(Spin(crc, n)) == Run(POLYNOMIAL, ByteBits(crc), Zeros(n))
    decreases n
  {
    if n > 0 {
      RollBitIsStep(crc, false);
      assert Zeros(n)[1..] == Zeros(n - 1);
      SpinIsRun(RollBit(crc, false), n - 1);
    }
  }

  lemma FirstHalfTurn()
    ensures Spin(0x97, 64) == 0x19
  {
    assert Spin(0x97, 8) == 0x43;
    assert Spin(0x43, 8) == 0x79;
    assert Spin(0x79, 8) == 0x8F;
    assert Spin(0x8F, 8) == 0xF8;
    assert Spin(0xF8, 8) == 0x9E;
    assert Spin(0x9E, 8) == 0x49;
    assert Spin(0x49, 8) == 0xD6;
    assert Spin(0xD6, 8) == 0x19;
    SpinTwice(0x97, 8, 56);
    SpinTwice(0x43, 8, 48);
    SpinTwice(0x79, 8, 40);
    SpinTwice(0x8F, 8, 32);
    SpinTwice(0xF8, 8, 24);
    SpinTwice(0x9E, 8, 16);
    SpinTwice(0x49, 8, 8);
  }

  lemma SecondHalfTurn()
    ensures Spin(0x19, 63) == 0x97
  {
    assert Spin(0x19, 8) == 0x3D;
    assert Spin(0x3D, 8) == 0x15;
    assert Spin(0x15, 8) == 0xF7;
    assert Spin(0xF7, 8) == 0xF1;
    assert Spin(0xF1, 8) == 0x94;
    assert Spin(0x94, 8) == 0xE6;
    assert Spin(0xE6, 8) == 0x40;
    assert Spin(0x40, 7) == 0x97;
    SpinTwice(0x19, 8, 55);
    SpinTwice(0x3D, 8, 47);
    SpinTwice(0x15, 8, 39);
    SpinTwice(0xF7, 8, 31);
    SpinTwice(0xF1, 8, 23);
    SpinTwice(0x94, 8, 15);
    SpinTwice(0xE6, 8, 7);
  }

  /** 127 shifts bring the register of a lone bit back. */
  lemma FullTurn()
    ensures Spin(0x97, 127) == 0x97
  {
    FirstHalfTurn();
    SecondHalfTurn();
    SpinTwice(0x97, 64, 63);
  }

  // ---------------------------------------------------------------- no shorter turn

  /** a mod b by repeated subtraction; `q` counts the subtractions. */
  lemma {:induction false} OrbitRemainder(c: byte, a: nat, b: nat) returns (q: nat, r: nat)
    requires b > 0 && Spin(c, a) == c && Spin(c, b) == c
    ensures r < b && a == b * q + r && Spin(c, r) == c
    decreases a
  {
    if a < b {
      q, r := 0, a;
    } else {
      SpinTwice(c, b, a - b);
      q, r := OrbitRemainder(c, a - b, b);
      assert b * (q + 1) == b * q + b;
      q := q + 1;
    }
  }

  lemma SmallFactor(k: nat, q: nat)
    requires 2 <= k <= 11
    ensures k * q != 127
  {
    if k == 2 { assert k * q == 2 * q; }
    if k == 3 { assert k * q == 3 * q; }
    if k == 4 { assert k * q == 4 * q; }
    if k == 5 { assert k * q == 5 * q; }
    if k == 6 { assert k * q == 6 * q; }
    if k == 7 { assert k * q == 7 * q; }
    if k == 8 { assert k * q == 8 * q; }
    if k == 9 { assert k * q == 9 * q; }
    if k == 10 { assert k * q == 10 * q; }
    if k == 11 { assert k * q == 11 * q; }
  }

  /** 127 is prime. */
  lemma Prime127(k: nat, q: nat)
    requires 1 < k < 127
    ensures k * q != 127
  {
    if k <= 11 {
      SmallFactor(k, q);
    } else if q <= 11 {
      assert k * q == q * k;
      if q >= 2 { SmallFactor(q, k); }
    } else {
      assert k * q == 12 * q + (k - 12) * q;
    }
  }

  /** Fewer than 127 shifts never bring it back: the length of the turn is prime. */
  lemma {:induction false} NoShorterTurn(k: nat)
    requires 0 < k < 127
    ensures Spin(0x97, k) != 0x97
    decreases k
  {
    if k == 1 {
      assert Spin(0x97, 1) == RollBit(0x97, false);
    } else if Spin(0x97, k) == 0x97 {
      FullTurn();
      var q, r := OrbitRemainder(0x97, 127, k);
      Prime127(k, q);
      NoShorterTurn(r);
    }
  }

  // ---------------------------------------------------------------- two flipped bits

  /** Two flipped bits, d apart. */
  function Pair(i: nat, d: nat, j: nat): (e: Bits)
    requires d > 0
    ensures |e| == i + d + 1 + j
  {
    Zeros(i) + ([true] + (Zeros(d - 1) + ([true] + Zeros(j))))
  }

  lemma LoneBit()
    ensures Step(POLYNOMIAL, Zeros(8), true) == POLYNOMIAL
  {
    assert Zeros(8)[1..] + [false] == Zeros(8);
    XorZero(POLYNOMIAL, Zeros(8));
  }

  lemma SecondBit(c: Bits)
    requires |c| == 8
    ensures Step(POLYNOMIAL, c, true) == Xor(Step(POLYNOMIAL, c, false), POLYNOMIAL)
  {
    LoneBit();
    StepLinear(POLYNOMIAL, c, Zeros(8), false, true);
    XorZero(c, Zeros(8));
  }

  lemma RunFront(c: Bits, b: bool, m: Bits)
    requires |c| == 8
    ensures Run(POLYNOMIAL, c, [b] + m) == Run(POLYNOMIAL, Step(POLYNOMIAL, c, b), m)
  {
    assert ([b] + m)[1..] == m;
  }

  lemma RunBack(c: Bits, n: nat)
    requires |c| == 8
    ensures Run(POLYNOMIAL, c, Zeros(n + 1)) == Step(POLYNOMIAL, Run(POLYNOMIAL, c, Zeros(n)), false)
  {
    assert Zeros(n + 1) == Zeros(n) + [false];
    RunConcat(POLYNOMIAL, c, Zeros(n), [false]);
    RunFront(Run(POLYNOMIAL, c, Zeros(n)), false, []);
    assert [false] + [] == [false];
  }

  /** The register after the second flipped bit: back at zero exactly after a full turn. */
  lemma PairRegister(d: nat)
    requires d > 0
    ensures var c := Run(POLYNOMIAL, POLYNOMIAL, Zeros(d - 1));
            Step(POLYNOMIAL, c, true) == Zeros(8) <==> Spin(0x97, d) == 0x97
  {
    var c := Run(POLYNOMIAL, POLYNOMIAL, Zeros(d - 1));
    SecondBit(c);
    RunBack(POLYNOMIAL, d - 1);
    SpinIsRun(0x97, d);
    XorZero(ByteBits(Spin(0x97, d)), POLYNOMIAL);
    if ByteBits(Spin(0x97, d)) == POLYNOMIAL { ByteInjective(Spin(0x97, d), 0x97); }
  }

  lemma PairSyndrome(i: nat, d: nat, j: nat)
    requires d > 0
    ensures Syndrome(Pair(i, d, j)) == Zeros(8) <==> Spin(0x97, d) == 0x97
  {
    var z, p := Zeros(8), POLYNOMIAL;
    var rest := Zeros(d - 1) + ([true] + Zeros(j));
    var c := Run(p, p, Zeros(d - 1));
    RunConcat(p, z, Zeros(i), [true] + rest);
    RunZeros(p, i);
    RunFront(z, true, rest);
    LoneBit();
    RunConcat(p, p, Zeros(d - 1), [true] + Zeros(j));
    RunFront(c, true, Zeros(j));
    PairRegister(d);
    PolynomialShape();
    RunZeros(p, j);
    if Run(p, Step(p, c, true), Zeros(j)) == z { ZerosInjective(p, Step(p, c, true), j); }
  }

  // ---------------------------------------------------------------- weight

  function Weight(m: Bits): nat {
    if m == [] then 0 else (if m[0] then 1 else 0) + Weight(m[1..])
  }

  lemma {:induction false} WeightParity(m: Bits)
    ensures Parity(m) <==> Weight(m) % 2 == 1
  {
    if m != [] { WeightParity(m[1..]); }
  }

  lemma {:induction false} NoFlips(m: Bits)
    requires Weight(m) == 0
    ensures m == Zeros(|m|)
  {
    if m != [] {
      NoFlips(m[1..]);
      ConsTail(m);
    }
  }

  lemma {:induction false} FirstFlip(m: Bits) returns (i: nat, rest: Bits)
    requires Weight(m) > 0
    ensures m == Zeros(i) + ([true] + rest) && Weight(rest) == Weight(m) - 1
  {
    if m[0] {
      i, rest := 0, m[1..];
      ConsTail(m);
    } else {
      i, rest := FirstFlip(m[1..]);
      assert m == [false] + m[1..];
      assert [false] + Zeros(i) == Zeros(i + 1);
      ConsConcat(false, Zeros(i), [true] + rest);
      i := i + 1;
    }
  }

  lemma TwoFlips(m: Bits) returns (i: nat, d: nat, j: nat)
    requires Weight(m) == 2
    ensures d > 0 && m == Pair(i, d, j)
  {
    var rest, last;
    i, rest := FirstFlip(m);
    d, last := FirstFlip(rest);
    NoFlips(last);
    d, j := d + 1, |last|;
  }

  // ---------------------------------------------------------------- the distance

  /** Up to 15 bytes, every error of one, two or three flipped bits is noticed, CRC8 byte included. */
  lemma ShortErrorsDetected(packet: seq<byte>, e: seq<byte>)
    requires 0 < |packet| == |e| <= 15 && Checks(packet)
    requires 1 <= Weight(MessageBits(e)) <= 3
    ensures !Checks(Flip(packet, e))
  {
    var m := MessageBits(e);
    WeightParity(m);
    if Weight(m) == 2 {
      var i, d, j := TwoFlips(m);
      Undetected(packet, e);
      PairSyndrome(i, d, j);
      NoShorterTurn(d);
    } else {
      OddErrorsDetected(packet, e);
    }
  }

  /** The two bits of a 16-byte packet that lie a full turn apart. */
  function FarPair(n: nat): (e: seq<byte>)
    requires n >= 16
    ensures |e| == n
  {
    [0x01] + (seq(14, i => 0 as byte) + ([0x80] + seq(n - 16, i => 0 as byte)))
  }

  lemma {:induction false} ZeroBytes(n: nat)
    ensures MessageBits(seq(n, i => 0 as byte)) == Zeros(8 * n)
    decreases n
  {
    var zeros := seq(n, i => 0 as byte);
    if n > 0 {
      assert zeros[1..] == seq(n - 1, i => 0 as byte);
      ZeroBytes(n - 1);
      ZeroByte();
    }
  }

  lemma LowAndHighBit()
    ensures ByteBits(0x01) == [true] + Zeros(7) && ByteBits(0x80) == Zeros(7) + [true]
  {
    LowPads(0x01, 1, 7);
    assert Low(0x01, 1) == [true];
    assert Low(0x04, 3) == [false] + Low(0x02, 2) && Low(0x02, 2) == [false] + Low(0x01, 1);
    assert Low(0x10, 5) == [false] + Low(0x08, 4) && Low(0x08, 4) == [false] + Low(0x04, 3);
    assert Low(0x40, 7) == [false] + Low(0x20, 6) && Low(0x20, 6) == [false] + Low(0x10, 5);
    assert Low(0x80, 8) == [false] + Low(0x40, 7);
  }

  lemma FarPairBits(n: nat)
    requires n >= 16
    ensures MessageBits(FarPair(n)) == Pair(0, 127, 8 * (n - 16))
  {
    var middle, tail := seq(14, i => 0 as byte), seq(n - 16, i => 0 as byte);
    MessageConcat([0x01], middle + ([0x80] + tail));
    MessageConcat(middle, [0x80] + tail);
    MessageConcat([0x80], tail);
    ZeroBytes(14);
    ZeroBytes(n - 16);
    LowAndHighBit();
    assert MessageBits([0x01]) == ByteBits(0x01) + MessageBits([]);
    assert MessageBits([0x80]) == ByteBits(0x80) + MessageBits([]);
  }

  lemma {:induction false} WeightConcat(a: Bits, b: Bits)
    ensures Weight(a + b) == Weight(a) + Weight(b)
  {
    if a == [] {
      assert a + b == b;
    } else {
      assert (a + b)[1..] == a[1..] + b;
      WeightConcat(a[1..], b);
    }
  }

  lemma {:induction false} WeightZeros(n: nat)
    ensures Weight(Zeros(n)) == 0
  {
    if n > 0 {
      assert Zeros(n)[1..] == Zeros(n - 1);
      WeightZeros(n - 1);
    }
  }

  lemma PairWeight(i: nat, d: nat, j: nat)
    requires d > 0
    ensures Weight(Pair(i, d, j)) == 2
  {
    WeightZeros(i);
    WeightZeros(d - 1);
    WeightZeros(j);
    WeightConcat(Zeros(i), [true] + (Zeros(d - 1) + ([true] + Zeros(j))));
    WeightConcat([true], Zeros(d - 1) + ([true] + Zeros(j)));
    WeightConcat(Zeros(d - 1), [true] + Zeros(j));
    WeightConcat([true], Zeros(j));
    assert Weight([true]) == 1 + Weight([]);
  }

  /** From 16 bytes on there are two bits whose flips no packet notices. */
  lemma LongPacketsFail(packet: seq<byte>)
    requires |packet| >= 16 && Checks(packet)
    ensures Weight(MessageBits(FarPair(|packet|))) == 2 && Checks(Flip(packet, FarPair(|packet|)))
  {
    FarPairBits(|packet|);
    PairWeight(0, 127, 8 * (|packet| - 16));
    FullTurn();
    PairSyndrome(0, 127, 8 * (|packet| - 16));
    Undetected(packet, FarPair(|packet|));
  }

  /** The length limit on packets that carry a CRC8 is exact: every error of one to three flipped bits
      on a valid packet is noticed if and only if the packet has at most 15 bytes. */
  lemma FifteenBytesIsTheLimit(packet: seq<byte>)
    requires packet != [] && Checks(packet)
    ensures |packet| <= 15 <==>
            forall e: seq<byte> :: |e| == |packet| && 1 <= Weight(MessageBits(e)) <= 3 ==>
              !Checks(Flip(packet, e))
  {
    if |packet| <= 15 {
      forall e: seq<byte> | |e| == |packet| && 1 <= Weight(MessageBits(e)) <= 3
        ensures !Checks(Flip(packet, e))
      {
        ShortErrorsDetected(packet, e);
      }
    } else {
      LongPacketsFail(packet);
    }
  }
}
