/** Polynomials over GF(2) as bit strings, highest degree first, and the shift register that divides
    by a polynomial x^w + p one message bit at a time. */
module Gf2 {

  type Bits = seq<bool>

  function Zeros(n: nat): (z: Bits)
    ensures |z| == n && forall i :: 0 <= i < n ==> !z[i]
  {
    seq(n, i => false)
  }

  function Xor(a: Bits, b: Bits): (r: Bits)
    requires |a| == |b|
    ensures |r| == |a| && forall i :: 0 <= i < |a| ==> r[i] == (a[i] != b[i])
  {
    seq(|a|, i requires 0 <= i < |a| => a[i] != b[i])
  }

  /** One register step: the bit that leaves, added to the message bit, decides whether the
      polynomial is subtracted. */
  function Step(p: Bits, c: Bits, b: bool): (r: Bits)
    requires |p| == |c| > 0
    ensures |r| == |c|
  {
    if c[0] != b then Xor(c[1..] + [false], p) else c[1..] + [false]
  }

  function Run(p: Bits, c: Bits, m: Bits): (r: Bits)
    requires |p| == |c| > 0
    ensures |r| == |c|
    decreases |m|
  {
    if m == [] then c else Run(p, Step(p, c, m[0]), m[1..])
  }

  lemma {:induction false} RunConcat(p: Bits, c: Bits, a: Bits, b: Bits)
    requires |p| == |c| > 0
    ensures Run(p, c, a + b) == Run(p, Run(p, c, a), b)
    decreases |a|
  {
    if a == [] {
      assert a + b == b;
    } else {
      assert (a + b)[1..] == a[1..] + b;
      RunConcat(p, Step(p, c, a[0]), a[1..], b);
    }
  }

  // ---------------------------------------------------------------- linearity

  lemma StepLinear(p: Bits, c: Bits, c': Bits, b: bool, b': bool)
    requires |p| == |c| == |c'| > 0
    ensures Step(p, Xor(c, c'), b != b') == Xor(Step(p, c, b), Step(p, c', b'))
  {
  }

  /** The register over the sum of two messages is the sum of the registers. */
  lemma {:induction false} RunLinear(p: Bits, c: Bits, c': Bits, m: Bits, m': Bits)
    requires |p| == |c| == |c'| > 0 && |m| == |m'|
    ensures Run(p, Xor(c, c'), Xor(m, m')) == Xor(Run(p, c, m), Run(p, c', m'))
    decreases |m|
  {
    if m == [] {
      assert Xor(m, m') == [];
    } else {
      StepLinear(p, c, c', m[0], m'[0]);
      assert Xor(m, m')[1..] == Xor(m[1..], m'[1..]);
      RunLinear(p, Step(p, c, m[0]), Step(p, c', m'[0]), m[1..], m'[1..]);
    }
  }

  lemma {:induction false} RunZeros(p: Bits, n: nat)
    requires |p| > 0
    ensures Run(p, Zeros(|p|), Zeros(n)) == Zeros(|p|)
    decreases n
  {
    if n > 0 {
      assert Step(p, Zeros(|p|), false) == Zeros(|p|);
      assert Zeros(n)[1..] == Zeros(n - 1);
      RunZeros(p, n - 1);
    }
  }

  lemma XorCons(x: bool, s: Bits, y: bool, t: Bits)
    requires |s| == |t|
    ensures Xor([x] + s, [y] + t) == [x != y] + Xor(s, t)
  {
  }

  lemma XorConcat(s: Bits, t: Bits, s': Bits, t': Bits)
    requires |s| == |s'| && |t| == |t'|
    ensures Xor(s + t, s' + t') == Xor(s, s') + Xor(t, t')
  {
  }

  lemma ConsConcat(x: bool, s: Bits, t: Bits)
    ensures ([x] + s) + t == [x] + (s + t)
  {
  }

  lemma ConsTail(s: Bits)
    requires s != []
    ensures [s[0]] + s[1..] == s
  {
  }

  lemma ConsZeros(n: nat)
    requires n > 0
    ensures [false] + ([] + Zeros(n - 1)) == [] + Zeros(n)
  {
  }

  lemma XorZero(a: Bits, b: Bits)
    requires |a| == |b|
    ensures Xor(a, b) == Zeros(|a|) <==> a == b
    ensures Xor(a, Zeros(|a|)) == a
  {
    if a != b {
      var i :| 0 <= i < |a| && a[i] != b[i];
      assert Xor(a, b)[i] && !Zeros(|a|)[i];
    }
  }

  /** How far an error pattern moves the register does not depend on the message or on the start. */
  lemma ErrorSyndrome(p: Bits, c: Bits, m: Bits, e: Bits)
    requires |p| == |c| > 0 && |m| == |e|
    ensures Run(p, c, Xor(m, e)) == Xor(Run(p, c, m), Run(p, Zeros(|p|), e))
    ensures Run(p, c, Xor(m, e)) == Run(p, c, m) <==> Run(p, Zeros(|p|), e) == Zeros(|p|)
  {
    RunLinear(p, c, Zeros(|p|), m, e);
    XorZero(c, Zeros(|p|));
    var r, s := Run(p, c, m), Run(p, Zeros(|p|), e);
    XorZero(r, Xor(r, s));
    assert Xor(r, Xor(r, s)) == s;
  }

  // ---------------------------------------------------------------- the register step is a bijection

  /** With a constant term in the polynomial the step loses nothing. */
  lemma StepInjective(p: Bits, c: Bits, c': Bits)
    requires |p| == |c| == |c'| > 0 && p[|p| - 1]
    requires Step(p, c, false) == Step(p, c', false)
    ensures c == c'
  {
    var s, s', w := Step(p, c, false), Step(p, c', false), |p|;
    assert s[w - 1] == c[0] && s'[w - 1] == c'[0];
    forall i | 0 <= i < w ensures c[i] == c'[i] {
      if i > 0 { assert s[i - 1] == (c[i] != (c[0] && p[i - 1])); }
    }
  }

  /** Every register is reached: running the step backwards. */
  lemma StepSurjective(p: Bits, r: Bits) returns (c: Bits)
    requires |p| == |r| > 0 && p[|p| - 1]
    ensures |c| == |p| && Step(p, c, false) == r
  {
    var w := |p|;
    var lead := r[w - 1];
    c := [lead] + (if lead then Xor(r, p) else r)[..w - 1];
  }

  lemma {:induction false} ZerosInjective(p: Bits, c: Bits, n: nat)
    requires |p| == |c| > 0 && p[|p| - 1]
    requires Run(p, c, Zeros(n)) == Zeros(|p|)
    ensures c == Zeros(|p|)
    decreases n
  {
    if n > 0 {
      assert Zeros(n)[1..] == Zeros(n - 1);
      ZerosInjective(p, Step(p, c, false), n - 1);
      assert Step(p, Zeros(|p|), false) == Zeros(|p|);
      StepInjective(p, c, Zeros(|p|));
    }
  }

  /** Up to w bits can be added to the front of the register at once and then shifted out. */
  lemma {:induction false} ShiftIn(p: Bits, c: Bits, b: Bits)
    requires |b| <= |p| == |c| && |p| > 0
    ensures Run(p, c, b) == Run(p, Xor(c, b + Zeros(|p| - |b|)), Zeros(|b|))
    decreases |b|
  {
    var w := |p|;
    if b == [] {
      assert b + Zeros(w) == Zeros(w);
      XorZero(c, Zeros(w));
    } else {
      var c1, b1 := Step(p, c, b[0]), b[1..];
      ShiftIn(p, c1, b1);
      ShiftInStep(p, c, b);
      assert Zeros(|b|)[1..] == Zeros(|b1|);
    }
  }

  lemma ShiftInStep(p: Bits, c: Bits, b: Bits)
    requires 0 < |b| <= |p| == |c|
    ensures Step(p, Xor(c, b + Zeros(|p| - |b|)), false)
            == Xor(Step(p, c, b[0]), b[1..] + Zeros(|p| - |b[1..]|))
  {
    var w, x := |p|, b + Zeros(|p| - |b|);
    var l, r := Step(p, Xor(c, x), false), Xor(Step(p, c, b[0]), b[1..] + Zeros(w - |b[1..]|));
    forall i | 0 <= i < w ensures l[i] == r[i] {
      assert (b[1..] + Zeros(w - |b[1..]|))[i] == (i + 1 < w && x[i + 1]);
    }
  }

  /** A message followed by its own register content leaves zero, and nothing else does. */
  lemma Residue(p: Bits, c: Bits, m: Bits, r: Bits)
    requires |p| == |c| == |r| > 0 && p[|p| - 1]
    ensures Run(p, c, m + r) == Zeros(|p|) <==> r == Run(p, c, m)
  {
    var w, d := |p|, Run(p, c, m);
    RunConcat(p, c, m, r);
    ShiftIn(p, d, r);
    assert r + Zeros(0) == r;
    XorZero(d, r);
    if r == d {
      RunZeros(p, w);
    } else if Run(p, c, m + r) == Zeros(w) {
      ZerosInjective(p, Xor(d, r), w);
    }
  }

  lemma ShortBurst(p: Bits, burst: Bits)
    requires 0 < |p| && p[|p| - 1] && |burst| <= |p| && true in burst
    ensures Run(p, Zeros(|p|), burst) != Zeros(|p|)
  {
    var z := Zeros(|p|);
    var start := Xor(z, burst + Zeros(|p| - |burst|));
    var i :| 0 <= i < |burst| && burst[i];
    assert start[i];
    ShiftIn(p, z, burst);
    if Run(p, start, Zeros(|burst|)) == z { ZerosInjective(p, start, |burst|); }
  }

  /** A nonzero error confined to w consecutive bits never leaves the register at zero. */
  lemma BurstSyndrome(p: Bits, before: nat, burst: Bits, after: nat)
    requires 0 < |p| && p[|p| - 1] && |burst| <= |p| && true in burst
    ensures Run(p, Zeros(|p|), Zeros(before) + burst + Zeros(after)) != Zeros(|p|)
  {
    var z := Zeros(|p|);
    ShortBurst(p, burst);
    RunConcat(p, z, Zeros(before) + burst, Zeros(after));
    RunConcat(p, z, Zeros(before), burst);
    RunZeros(p, before);
    var c := Run(p, z, burst);
    if Run(p, c, Zeros(after)) == z { ZerosInjective(p, c, after); }
  }

  // ---------------------------------------------------------------- division

  /** The product q * (x^w + p). */
  function Product(p: Bits, q: Bits): (r: Bits)
    ensures |r| == |q| + |p|
  {
    if q == [] then Zeros(|p|)
    else
      Xor((if q[0] then [true] + p else Zeros(|p| + 1)) + Zeros(|q| - 1), [false] + Product(p, q[1..]))
  }

  /** r is the remainder of `dividend` by x^w + p: subtracting it leaves a multiple. */
  ghost predicate IsRemainder(p: Bits, dividend: Bits, r: Bits)
    requires |r| == |p| <= |dividend|
  {
    exists q: Bits :: |q| + |p| == |dividend| && Product(p, q) == Xor(dividend, Zeros(|q|) + r)
  }

  /** c * x^n + m * x^w for a message m of n bits: the dividend of a register started at c. */
  function Dividend(c: Bits, m: Bits): (d: Bits)
    ensures |d| == |c| + |m|
  {
    Xor(c + Zeros(|m|), m + Zeros(|c|))
  }

  function Quotient(p: Bits, c: Bits, m: Bits): (q: Bits)
    requires |p| == |c| > 0
    ensures |q| == |m|
    decreases |m|
  {
    if m == [] then [] else [c[0] != m[0]] + Quotient(p, Step(p, c, m[0]), m[1..])
  }

  lemma DivisionStep(p: Bits, c: Bits, m: Bits, product: Bits, r: Bits)
    requires |p| == |c| == |r| > 0 && m != [] && |product| == |m| - 1 + |p|
    requires Dividend(Step(p, c, m[0]), m[1..]) == Xor(product, Zeros(|m| - 1) + r)
    ensures Dividend(c, m) == Xor(Xor(Feedback(p, c, m), [false] + product), Zeros(|m|) + r)
  {
    forall i | 0 <= i < |m| + |p|
      ensures Dividend(c, m)[i]
              == Xor(Xor(Feedback(p, c, m), [false] + product), Zeros(|m|) + r)[i]
    {
      if i > 0 {
        DividendBit(p, c, m, i);
        assert (Zeros(|m|) + r)[i] == (Zeros(|m| - 1) + r)[i - 1];
      }
    }
  }

  /** The multiple of the polynomial subtracted by the first step over m. */
  function Feedback(p: Bits, c: Bits, m: Bits): (f: Bits)
    requires |p| == |c| > 0 && m != []
    ensures |f| == |m| + |p|
  {
    (if c[0] != m[0] then [true] + p else Zeros(|p| + 1)) + Zeros(|m| - 1)
  }

  lemma DividendBit(p: Bits, c: Bits, m: Bits, i: nat)
    requires |p| == |c| > 0 && m != [] && 0 < i < |m| + |p|
    ensures Dividend(Step(p, c, m[0]), m[1..])[i - 1] == (Dividend(c, m)[i] != Feedback(p, c, m)[i])
  {
    var s, n := Step(p, c, m[0]), |m|;
    assert (m[1..] + Zeros(|p|))[i - 1] == (m + Zeros(|p|))[i];
    if i <= |p| {
      assert s[i - 1] == ((i < |p| && c[i]) != (c[0] != m[0] && p[i - 1]));
    }
  }

  lemma {:induction false} RegisterDivides(p: Bits, c: Bits, m: Bits)
    requires |p| == |c| > 0
    ensures Dividend(c, m) == Xor(Product(p, Quotient(p, c, m)), Zeros(|m|) + Run(p, c, m))
    decreases |m|
  {
    if m != [] {
      var c1 := Step(p, c, m[0]);
      RegisterDivides(p, c1, m[1..]);
      DivisionStep(p, c, m, Product(p, Quotient(p, c1, m[1..])), Run(p, c, m));
      assert Quotient(p, c, m)[1..] == Quotient(p, c1, m[1..]);
    }
  }

  lemma {:induction false} ProductLinear(p: Bits, q: Bits, q': Bits)
    requires |q| == |q'|
    ensures Product(p, Xor(q, q')) == Xor(Product(p, q), Product(p, q'))
  {
    if q != [] {
      ProductLinear(p, q[1..], q'[1..]);
      assert Xor(q, q')[1..] == Xor(q[1..], q'[1..]);
    }
  }

  /** A multiple of degree below w is zero. */
  lemma {:induction false} SmallMultipleIsZero(p: Bits, q: Bits)
    requires forall i :: 0 <= i < |q| ==> !Product(p, q)[i]
    ensures Product(p, q) == Zeros(|q| + |p|)
  {
    if q != [] {
      var rest := Product(p, q[1..]);
      assert Product(p, q)[0] == q[0];
      forall i | 0 <= i < |q| + |p| - 1 ensures rest[i] == Product(p, q)[i + 1] { }
      SmallMultipleIsZero(p, q[1..]);
    }
  }

  lemma TailDifference(d: Bits, n: nat, r: Bits, r': Bits, i: nat)
    requires |r| == |r'| && |d| == n + |r| && i < |d|
    ensures Xor(Xor(d, Zeros(n) + r), Xor(d, Zeros(n) + r'))[i] == (i >= n && r[i - n] != r'[i - n])
  {
    assert (Zeros(n) + r)[i] == (i >= n && r[i - n]);
    assert (Zeros(n) + r')[i] == (i >= n && r'[i - n]);
  }

  lemma TailsAgree(d: Bits, n: nat, r: Bits, r': Bits)
    requires |r| == |r'| && |d| == n + |r|
    requires Xor(Xor(d, Zeros(n) + r), Xor(d, Zeros(n) + r')) == Zeros(|d|)
    ensures r == r'
  {
    forall i | 0 <= i < |r| ensures r[i] == r'[i] {
      TailDifference(d, n, r, r', n + i);
      assert !Zeros(|d|)[n + i];
    }
  }

  lemma LowPartAgrees(p: Bits, q: Bits, d: Bits, r: Bits, r': Bits)
    requires |r| == |r'| == |p| && |q| + |p| == |d|
    requires Product(p, q) == Xor(Xor(d, Zeros(|q|) + r), Xor(d, Zeros(|q|) + r'))
    ensures forall i :: 0 <= i < |q| ==> !Product(p, q)[i]
  {
    forall i: nat | i < |q| ensures !Product(p, q)[i] { TailDifference(d, |q|, r, r', i); }
  }

  lemma SmallDifference(p: Bits, q: Bits, d: Bits, r: Bits, r': Bits)
    requires |r| == |r'| == |p| && |q| + |p| == |d|
    requires Product(p, q) == Xor(Xor(d, Zeros(|q|) + r), Xor(d, Zeros(|q|) + r'))
    ensures r == r'
  {
    LowPartAgrees(p, q, d, r, r');
    SmallMultipleIsZero(p, q);
    TailsAgree(d, |q|, r, r');
  }

  lemma RemainderUnique(p: Bits, d: Bits, q: Bits, r: Bits, q': Bits, r': Bits)
    requires |r| == |r'| == |p| && |q| == |q'| && |q| + |p| == |d|
    requires Product(p, q) == Xor(d, Zeros(|q|) + r) && Product(p, q') == Xor(d, Zeros(|q|) + r')
    ensures r == r'
  {
    ProductLinear(p, q, q');
    SmallDifference(p, Xor(q, q'), d, r, r');
  }

  /** The register holds the remainder of its dividend by x^w + p, and no other value is one. */
  lemma RegisterIsRemainder(p: Bits, c: Bits, m: Bits, r: Bits)
    requires |p| == |c| == |r| > 0
    ensures IsRemainder(p, Dividend(c, m), r) <==> r == Run(p, c, m)
  {
    var d, q, own := Dividend(c, m), Quotient(p, c, m), Run(p, c, m);
    RegisterDivides(p, c, m);
    XorTwice(d, Product(p, q), Zeros(|m|) + own);
    if IsRemainder(p, d, r) {
      var q' :| |q'| + |p| == |d| && Product(p, q') == Xor(d, Zeros(|q'|) + r);
      RemainderUnique(p, d, q, own, q', r);
    }
  }

  lemma XorTwice(d: Bits, a: Bits, b: Bits)
    requires |a| == |b| == |d| && d == Xor(a, b)
    ensures a == Xor(d, b)
  {
  }

  // ---------------------------------------------------------------- parity

  function Parity(s: Bits): bool {
    if s == [] then false else s[0] != Parity(s[1..])
  }

  lemma {:induction false} ParityZeros(n: nat)
    ensures !Parity(Zeros(n))
  {
    if n > 0 {
      assert Zeros(n)[1..] == Zeros(n - 1);
      ParityZeros(n - 1);
    }
  }

  lemma {:induction false} ParityConcat(a: Bits, b: Bits)
    ensures Parity(a + b) == (Parity(a) != Parity(b))
  {
    if a == [] {
      assert a + b == b;
    } else {
      assert (a + b)[1..] == a[1..] + b;
      ParityConcat(a[1..], b);
    }
  }

  lemma {:induction false} ParityXor(a: Bits, b: Bits)
    requires |a| == |b|
    ensures Parity(Xor(a, b)) == (Parity(a) != Parity(b))
  {
    if a != [] {
      assert Xor(a, b)[1..] == Xor(a[1..], b[1..]);
      ParityXor(a[1..], b[1..]);
    }
  }

  /** When x + 1 divides the polynomial (p has odd weight) the register keeps the message parity. */
  lemma {:induction false} RunParity(p: Bits, c: Bits, m: Bits)
    requires |p| == |c| > 0 && Parity(p)
    ensures Parity(Run(p, c, m)) == (Parity(c) != Parity(m))
    decreases |m|
  {
    if m != [] {
      RunParity(p, Step(p, c, m[0]), m[1..]);
      ParityConcat(c[1..], [false]);
      ParityXor(c[1..] + [false], p);
    }
  }
}
