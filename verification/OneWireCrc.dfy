/** The Dallas/Maxim CRC-8 as a remainder of polynomials over the two-element field. */
module OneWireCrc {

  // Polynomials are sequences of coefficients, highest power first.

  function Zeros(n: nat): (z: seq<bool>)
    ensures |z| == n
  {
    seq(n, _ => false)
  }

  function Xor(a: seq<bool>, b: seq<bool>): (r: seq<bool>)
    requires |a| == |b|
    ensures |r| == |a|
    ensures forall i :: 0 <= i < |a| ==> r[i] == (a[i] != b[i])
  {
    seq(|a|, i requires 0 <= i < |a| => a[i] != b[i])
  }

  /** x^8 + x^5 + x^4 + 1 */
  const POLY: seq<bool> := [true, false, false, true, true, false, false, false, true]

  function Scaled(b: bool): (p: seq<bool>)
    ensures |p| == 9 && p[0] == b
  {
    if b then POLY else Zeros(9)
  }

  /** The product of q and POLY: (q * x + b) * POLY = (q * POLY) * x + b * POLY. */
  function Times(q: seq<bool>): (p: seq<bool>)
    ensures |p| == |q| + 8
  {
    if q == [] then Zeros(8)
    else Xor(Times(q[..|q| - 1]) + [false], Zeros(|q| - 1) + Scaled(q[|q| - 1]))
  }

  /** r is what is left of m * x^8 after subtracting q times POLY; r has degree below 8. */
  predicate Divides(m: seq<bool>, q: seq<bool>, r: seq<bool>) {
    && |q| == |m| && |r| == 8
    && m + Zeros(8) == Xor(Times(q), Zeros(|m|) + r)
  }

  /** The divisor is x^8 + x^5 + x^4 + 1. */
  lemma Divisor()
    ensures Times([true]) == [true, false, false, true, true, false, false, false, true]
  {
    assert [true][..0] == [];
  }

  /** The leading coefficients of a multiple of POLY determine the factor. */
  lemma {:induction false} TimesInjective(a: seq<bool>, b: seq<bool>)
    requires |a| == |b| && Times(a)[..|a|] == Times(b)[..|b|]
    ensures a == b
  {
    if a != [] {
      var n := |a| - 1;
      SameLead(a, b, a[..n], b[..n], n);
      TimesInjective(a[..n], b[..n]);
      SameLast(a, b, n);
    }
  }

  lemma SameLead(a: seq<bool>, b: seq<bool>, a': seq<bool>, b': seq<bool>, n: nat)
    requires |a| == |b| == n + 1 && a' == a[..n] && b' == b[..n] && Times(a)[..n + 1] == Times(b)[..n + 1]
    ensures Times(a')[..n] == Times(b')[..n]
    ensures (Times(a')[n] != a[n]) == (Times(b')[n] != b[n])
  {
    var ta, ua := Lead(a, n);
    var tb, ub := Lead(b, n);
    TakeLess(ta, tb, n);
  }

  lemma Lead(q: seq<bool>, n: nat) returns (t: seq<bool>, u: seq<bool>)
    requires |q| == n + 1
    ensures t == Times(q) && u == Times(q[..n]) && t[..n] == u[..n] && t[n] == (u[n] != q[n])
  {
    t, u := Times(q), Times(q[..n]);
    TimesLead(q, t, u);
  }

  lemma SameLast(a: seq<bool>, b: seq<bool>, n: nat)
    requires |a| == |b| == n + 1 && a[..n] == b[..n]
    requires (Times(a[..n])[n] != a[n]) == (Times(b[..n])[n] != b[n])
    ensures a == b
  {
    assert a == a[..n] + [a[n]] && b == b[..n] + [b[n]];
  }

  lemma TakeLess(s: seq<bool>, t: seq<bool>, n: nat)
    requires n < |s| && n < |t| && s[..n + 1] == t[..n + 1]
    ensures s[..n] == t[..n] && s[n] == t[n]
  {
    assert s[..n] == s[..n + 1][..n];
    assert s[n] == s[..n + 1][n] == t[..n + 1][n];
  }

  lemma TimesLead(q: seq<bool>, t: seq<bool>, u: seq<bool>)
    requires q != [] && t == Times(q) && u == Times(q[..|q| - 1])
    ensures t[..|q| - 1] == u[..|q| - 1]
    ensures t[|q| - 1] == (u[|q| - 1] != q[|q| - 1])
  {
    XorLead(u, Scaled(q[|q| - 1]), |q| - 1, t);
  }

  lemma XorLead(u: seq<bool>, s: seq<bool>, n: nat, t: seq<bool>)
    requires |u| == n + 8 && |s| == 9 && t == Xor(u + [false], Zeros(n) + s)
    ensures t[..n] == u[..n] && t[n] == (u[n] != s[0])
  {
    forall i | 0 <= i < n
      ensures t[i] == u[i]
    {
      assert (Zeros(n) + s)[i] == false;
    }
    assert (Zeros(n) + s)[n] == s[0];
  }

  lemma RowsAgree(t: seq<bool>, t': seq<bool>, r: seq<bool>, r': seq<bool>, n: nat)
    requires |t| == |t'| == n + 8 && |r| == |r'| == 8 && Xor(t, Zeros(n) + r) == Xor(t', Zeros(n) + r')
    ensures t[..n] == t'[..n] && (t == t' ==> r == r')
  {
    var a, b := Zeros(n) + r, Zeros(n) + r';
    forall i | 0 <= i < n + 8
      ensures (t[i] != a[i]) == (t'[i] != b[i])
    {
      assert Xor(t, a)[i] == Xor(t', b)[i];
    }
    forall i | 0 <= i < 8
      ensures r[i] == a[n + i] && r'[i] == b[n + i]
    {}
  }

  /** Quotient and remainder are unique. */
  lemma RemainderUnique(m: seq<bool>, q: seq<bool>, r: seq<bool>, q': seq<bool>, r': seq<bool>)
    requires Divides(m, q, r) && Divides(m, q', r')
    ensures q == q' && r == r'
  {
    RowsAgree(Times(q), Times(q'), r, r', |m|);
    TimesInjective(q, q');
  }

  // The shift register, as the coefficients from x^7 down to 1.

  /** One bit of input: times x, plus the bit at x^8, reduced by POLY. */
  function Step(r: seq<bool>, bit: bool): (s: seq<bool>)
    requires |r| == 8
    ensures |s| == 8
  {
    var feedback := r[0] != bit;
    [r[1], r[2], r[3] != feedback, r[4] != feedback, r[5], r[6], r[7], feedback]
  }

  predicate NextCoefficient(r: seq<bool>, bit: bool, i: nat)
    requires |r| == 8 && i < 8
  {
    if i == 7 then r[0] != bit else if i == 2 || i == 3 then r[i + 1] != (r[0] != bit) else r[i + 1]
  }

  lemma StepAt(r: seq<bool>, bit: bool, i: nat)
    requires |r| == 8 && i < 8
    ensures Step(r, bit)[i] == NextCoefficient(r, bit, i)
  {}

  lemma StepIs(r: seq<bool>, bit: bool, s: seq<bool>)
    requires |r| == |s| == 8 && forall i :: 0 <= i < 8 ==> s[i] == NextCoefficient(r, bit, i)
    ensures s == Step(r, bit)
  {
    forall i | 0 <= i < 8
      ensures s[i] == Step(r, bit)[i]
    {
      StepAt(r, bit, i);
    }
  }

  /** The register after more bits. */
  function Feed(r: seq<bool>, bits: seq<bool>): (s: seq<bool>)
    requires |r| == 8
    ensures |s| == 8
  {
    if bits == [] then r else Step(Feed(r, bits[..|bits| - 1]), bits[|bits| - 1])
  }

  lemma {:induction false} FeedAppend(r: seq<bool>, a: seq<bool>, b: seq<bool>)
    requires |r| == 8
    ensures Feed(r, a + b) == Feed(Feed(r, a), b)
  {
    if b == [] {
      assert a + b == a;
    } else {
      var n := |b| - 1;
      FeedAppend(r, a, b[..n]);
      assert (a + b)[..|a| + n] == a + b[..n];
    }
  }

  lemma StepReduces(r: seq<bool>, bit: bool)
    requires |r| == 8
    ensures Xor(r + [false], [bit] + Zeros(8)) == Xor(Scaled(r[0] != bit), [false] + Step(r, bit))
  {}

  /** The bits fed back, one per input bit: the quotient. */
  function Quotient(bits: seq<bool>): (q: seq<bool>)
    ensures |q| == |bits|
  {
    if bits == [] then [] else
      var n := |bits| - 1;
      Quotient(bits[..n]) + [Feed(Zeros(8), bits[..n])[0] != bits[n]]
  }

  /** One step of long division, on the aligned coefficient rows. */
  lemma DivideStep(m: seq<bool>, bit: bool, t: seq<bool>, r: seq<bool>, s: seq<bool>, r': seq<bool>)
    requires |r| == |r'| == 8 && |s| == 9 && |t| == |m| + 8
    requires m + Zeros(8) == Xor(t, Zeros(|m|) + r)
    requires Xor(r + [false], [bit] + Zeros(8)) == Xor(s, [false] + r')
    ensures (m + [bit]) + Zeros(8) == Xor(Xor(t + [false], Zeros(|m|) + s), Zeros(|m| + 1) + r')
  {
    var n := |m|;
    var left, right := (m + [bit]) + Zeros(8), Xor(Xor(t + [false], Zeros(n) + s), Zeros(n + 1) + r');
    forall i | 0 <= i < n + 9
      ensures left[i] == right[i]
    {
      if i < n {
        assert (m + Zeros(8))[i] == Xor(t, Zeros(n) + r)[i];
      } else {
        var j := i - n;
        assert Xor(r + [false], [bit] + Zeros(8))[j] == Xor(s, [false] + r')[j];
        if i < n + 8 {
          assert (m + Zeros(8))[i] == Xor(t, Zeros(n) + r)[i];
        }
      }
    }
  }

  lemma DividesMore(m: seq<bool>, bit: bool, q: seq<bool>, r: seq<bool>, q': seq<bool>, r': seq<bool>)
    requires Divides(m, q, r) && q' == q + [r[0] != bit] && r' == Step(r, bit)
    ensures Divides(m + [bit], q', r')
  {
    StepReduces(r, bit);
    assert q'[..|m|] == q;
    DivideStep(m, bit, Times(q), r, Scaled(r[0] != bit), r');
  }

  /** The register holds the remainder of the message times x^8. */
  lemma {:induction false} RegisterIsRemainder(bits: seq<bool>)
    ensures Divides(bits, Quotient(bits), Feed(Zeros(8), bits))
  {
    if bits != [] {
      var n := |bits| - 1;
      var before := bits[..n];
      RegisterIsRemainder(before);
      assert bits == before + [bits[n]];
      DividesMore(before, bits[n], Quotient(before), Feed(Zeros(8), before), Quotient(bits), Feed(Zeros(8), bits));
    }
  }

  // Algebra of the register.

  lemma StepLinear(a: seq<bool>, b: seq<bool>, p: bool, q: bool)
    requires |a| == |b| == 8
    ensures Step(Xor(a, b), p != q) == Xor(Step(a, p), Step(b, q))
  {
    var s, t := Step(a, p), Step(b, q);
    forall i | 0 <= i < 8
      ensures Xor(s, t)[i] == NextCoefficient(Xor(a, b), p != q, i)
    {
      StepAt(a, p, i);
      StepAt(b, q, i);
    }
    StepIs(Xor(a, b), p != q, Xor(s, t));
  }

  lemma {:induction false} FeedLinear(a: seq<bool>, b: seq<bool>, p: seq<bool>, q: seq<bool>)
    requires |a| == |b| == 8 && |p| == |q|
    ensures Feed(Xor(a, b), Xor(p, q)) == Xor(Feed(a, p), Feed(b, q))
  {
    if p != [] {
      var n := |p| - 1;
      FeedLinear(a, b, p[..n], q[..n]);
      assert Xor(p, q)[..n] == Xor(p[..n], q[..n]);
      StepLinear(Feed(a, p[..n]), Feed(b, q[..n]), p[n], q[n]);
    }
  }

  /** A register fed with its own coefficients runs empty. */
  lemma {:induction false} FeedOwn(r: seq<bool>, k: nat)
    requires |r| == 8 && k <= 8
    ensures Feed(r, r[..k]) == r[k..] + Zeros(k)
  {
    if k == 0 {
      assert r[..0] == [];
      assert r[0..] + Zeros(0) == r;
    } else {
      FeedOwn(r, k - 1);
      assert r[..k][..k - 1] == r[..k - 1];
      StepOwn(r[k - 1..] + Zeros(k - 1));
      ShiftOut(r, k - 1);
    }
  }

  lemma ShiftOut(r: seq<bool>, k: nat)
    requires k < |r|
    ensures (r[k..] + Zeros(k))[1..] + [false] == r[k + 1..] + Zeros(k + 1)
    ensures (r[k..] + Zeros(k))[0] == r[k]
  {}

  lemma StepOwn(r: seq<bool>)
    requires |r| == 8
    ensures Step(r, r[0]) == r[1..] + [false]
  {}

  lemma StepInjective(a: seq<bool>, b: seq<bool>)
    requires |a| == |b| == 8 && Step(a, false) == Step(b, false)
    ensures a == b
  {
    var s, t := Step(a, false), Step(b, false);
    assert s[0] == t[0] && s[1] == t[1] && s[2] == t[2] && s[3] == t[3];
    assert s[4] == t[4] && s[5] == t[5] && s[6] == t[6] && s[7] == t[7];
  }

  lemma {:induction false} IdleInjective(a: seq<bool>, b: seq<bool>, k: nat)
    requires |a| == |b| == 8 && Feed(a, Zeros(k)) == Feed(b, Zeros(k))
    ensures a == b
  {
    if k > 0 {
      assert Zeros(k)[..k - 1] == Zeros(k - 1);
      StepInjective(Feed(a, Zeros(k - 1)), Feed(b, Zeros(k - 1)));
      IdleInjective(a, b, k - 1);
    }
  }

  /** Feeding eight bits is adding them to the register and idling for eight steps. */
  lemma FeedByte(r: seq<bool>, x: seq<bool>)
    requires |r| == |x| == 8
    ensures Feed(r, x) == Feed(Xor(r, x), Zeros(8))
  {
    var d := Xor(r, x);
    assert r == Xor(x, d) && x == Xor(x, Zeros(8));
    FeedLinear(x, d, x, Zeros(8));
    FeedOwn(x, 8);
    assert x[..8] == x && x[8..] + Zeros(8) == Zeros(8);
    assert Xor(Zeros(8), Feed(d, Zeros(8))) == Feed(d, Zeros(8));
  }

  // Messages of bytes, least significant bit first.

  function Mask(i: nat): bv8 {
    if i == 0 then 1 else if i == 1 then 2 else if i == 2 then 4 else if i == 3 then 8
    else if i == 4 then 16 else if i == 5 then 32 else if i == 6 then 64 else 128
  }

  function Coefficients(c: bv8): (r: seq<bool>)
    ensures |r| == 8
  {
    seq(8, i requires 0 <= i < 8 => c & Mask(i) != 0)
  }

  function Message(bytes: seq<bv8>): (m: seq<bool>)
    ensures |m| == 8 * |bytes|
  {
    if bytes == [] then [] else Message(bytes[..|bytes| - 1]) + Coefficients(bytes[|bytes| - 1])
  }

  /** Coefficients of the CRC of a message. */
  function Crc(bytes: seq<bv8>): (r: seq<bool>)
    ensures |r| == 8
  {
    Feed(Zeros(8), Message(bytes))
  }

  lemma FeedOne(bits: seq<bool>, bit: bool, more: seq<bool>, r: seq<bool>, r': seq<bool>)
    requires more == bits + [bit] && |r| == 8 && Feed(Zeros(8), bits) == r && r' == Step(r, bit)
    ensures Feed(Zeros(8), more) == r'
  {
    assert more[..|bits|] == bits;
  }

  /** The CRC of the byte 1, as in the table of Maxim's application note 27. */
  lemma CrcOfOne()
    ensures Crc([1]) == Coefficients(0x5E)
  {
    var t, f := true, false;
    FeedOne([], t, [t], [f, f, f, f, f, f, f, f],
            [f, f, t, t, f, f, f, t]);
    FeedOne([t], f, [t, f], [f, f, t, t, f, f, f, t],
            [f, t, t, f, f, f, t, f]);
    FeedOne([t, f], f, [t, f, f], [f, t, t, f, f, f, t, f],
            [t, t, f, f, f, t, f, f]);
    FeedOne([t, f, f], f, [t, f, f, f], [t, t, f, f, f, t, f, f],
            [t, f, t, t, t, f, f, t]);
    FeedOne([t, f, f, f], f, [t, f, f, f, f], [t, f, t, t, t, f, f, t],
            [f, t, f, f, f, f, t, t]);
    FeedOne([t, f, f, f, f], f, [t, f, f, f, f, f], [f, t, f, f, f, f, t, t],
            [t, f, f, f, f, t, t, f]);
    FeedOne([t, f, f, f, f, f], f, [t, f, f, f, f, f, f], [t, f, f, f, f, t, t, f],
            [f, f, t, t, t, t, f, t]);
    FeedOne([t, f, f, f, f, f, f], f, [t, f, f, f, f, f, f, f], [f, f, t, t, t, t, f, t],
            [f, t, t, t, t, f, t, f]);
    OneCoefficients();
    MessageOfOne(1);
  }

  lemma MessageOfOne(b: bv8)
    ensures Message([b]) == Coefficients(b)
  {
    assert [b][..0] == [];
  }

  lemma OneCoefficients()
    ensures Coefficients(1) == [true, false, false, false, false, false, false, false]
    ensures Coefficients(0x5E) == [false, true, true, true, true, false, true, false]
  {}

  /** The CRC is the remainder of the message times x^8, and there is no other. */
  lemma CrcIsRemainder(bytes: seq<bv8>, q: seq<bool>, r: seq<bool>)
    ensures Divides(Message(bytes), Quotient(Message(bytes)), Crc(bytes))
    ensures Divides(Message(bytes), q, r) ==> r == Crc(bytes)
  {
    RegisterIsRemainder(Message(bytes));
    if Divides(Message(bytes), q, r) {
      RemainderUnique(Message(bytes), q, r, Quotient(Message(bytes)), Crc(bytes));
    }
  }

  lemma CrcAppend(bytes: seq<bv8>, x: bv8)
    ensures Crc(bytes + [x]) == Feed(Xor(Crc(bytes), Coefficients(x)), Zeros(8))
  {
    assert (bytes + [x])[..|bytes|] == bytes;
    FeedAppend(Zeros(8), Message(bytes), Coefficients(x));
    FeedByte(Crc(bytes), Coefficients(x));
  }

  /** c is the bytewise sum of a and b. */
  predicate IsSum(a: seq<bv8>, b: seq<bv8>, c: seq<bv8>) {
    |a| == |b| == |c| && forall i :: 0 <= i < |a| ==> c[i] == a[i] ^ b[i]
  }

  lemma XorBit(x: bv8, y: bv8, z: bv8, m: bv8)
    requires z == x ^ y && m in {1, 2, 4, 8, 16, 32, 64, 128}
    ensures (z & m != 0) == ((x & m != 0) != (y & m != 0))
  {}

  lemma CoefficientAt(c: bv8, i: nat, m: bv8)
    requires i < 8 && m == Mask(i)
    ensures Coefficients(c)[i] == (c & m != 0)
  {}

  lemma XorAt(x: bv8, y: bv8, z: bv8, i: nat, m: bv8)
    requires z == x ^ y && i < 8 && m == Mask(i)
    ensures Coefficients(z)[i] == (Coefficients(x)[i] != Coefficients(y)[i])
  {
    CoefficientAt(x, i, m);
    CoefficientAt(y, i, m);
    CoefficientAt(z, i, m);
    XorBit(x, y, z, m);
  }

  lemma XorIs(a: seq<bool>, b: seq<bool>, c: seq<bool>)
    requires |a| == |b| == |c| && forall i :: 0 <= i < |a| ==> c[i] == (a[i] != b[i])
    ensures c == Xor(a, b)
  {}

  lemma XorCoefficients(x: bv8, y: bv8, z: bv8)
    requires z == x ^ y
    ensures Coefficients(z) == Xor(Coefficients(x), Coefficients(y))
  {
    var a, b, c := Coefficients(x), Coefficients(y), Coefficients(z);
    forall i | 0 <= i < 8
      ensures c[i] == (a[i] != b[i])
    {
      XorAt(x, y, z, i, Mask(i));
    }
    XorIs(a, b, c);
  }

  lemma {:induction false} XorMessage(a: seq<bv8>, b: seq<bv8>, c: seq<bv8>)
    requires IsSum(a, b, c)
    ensures Message(c) == Xor(Message(a), Message(b))
  {
    if a != [] {
      var n := |a| - 1;
      XorMessage(a[..n], b[..n], c[..n]);
      XorCoefficients(a[n], b[n], c[n]);
      XorConcat(Message(a[..n]), Message(b[..n]), Coefficients(a[n]), Coefficients(b[n]));
    }
  }

  lemma XorConcat(a: seq<bool>, b: seq<bool>, x: seq<bool>, y: seq<bool>)
    requires |a| == |b| && |x| == |y|
    ensures Xor(a + x, b + y) == Xor(a, b) + Xor(x, y)
  {}

  /** The CRC of a sum is the sum of the CRCs. */
  lemma CrcLinear(a: seq<bv8>, b: seq<bv8>, c: seq<bv8>)
    requires IsSum(a, b, c)
    ensures Crc(c) == Xor(Crc(a), Crc(b))
  {
    XorMessage(a, b, c);
    assert Xor(Zeros(8), Zeros(8)) == Zeros(8);
    FeedLinear(Zeros(8), Zeros(8), Message(a), Message(b));
  }

  /** A message followed by one byte has residue 0 exactly when that byte is its CRC. */
  lemma Residue(bytes: seq<bv8>, c: bv8)
    ensures Crc(bytes + [c]) == Zeros(8) <==> Coefficients(c) == Crc(bytes)
  {
    CrcAppend(bytes, c);
    var d := Xor(Crc(bytes), Coefficients(c));
    IdleZero(8);
    if Crc(bytes + [c]) == Zeros(8) {
      IdleInjective(d, Zeros(8), 8);
      XorCancels(Crc(bytes), Coefficients(c));
    }
    if Coefficients(c) == Crc(bytes) {
      assert d == Zeros(8);
    }
  }

  lemma XorCancels(a: seq<bool>, b: seq<bool>)
    requires |a| == |b| && Xor(a, b) == Zeros(|a|)
    ensures a == b
  {
    forall i | 0 <= i < |a|
      ensures a[i] == b[i]
    {
      assert Xor(a, b)[i] == Zeros(|a|)[i];
    }
  }

  lemma {:induction false} IdleZero(k: nat)
    ensures Feed(Zeros(8), Zeros(k)) == Zeros(8)
  {
    if k > 0 {
      assert Zeros(k)[..k - 1] == Zeros(k - 1);
      IdleZero(k - 1);
      assert Step(Zeros(8), false) == Zeros(8);
    }
  }

  lemma CoefficientsInjective(x: bv8, y: bv8)
    requires Coefficients(x) == Coefficients(y)
    ensures x == y
  {
    var a, b := Coefficients(x), Coefficients(y);
    assert a[0] == b[0] && a[1] == b[1] && a[2] == b[2] && a[3] == b[3];
    assert a[4] == b[4] && a[5] == b[5] && a[6] == b[6] && a[7] == b[7];
  }

  /** Messages that differ in exactly one byte have different CRCs. */
  lemma {:induction false} SingleByteDetected(a: seq<bv8>, b: seq<bv8>, at: nat)
    requires |a| == |b| && at < |a| && a[at] != b[at]
    requires a[..at] == b[..at] && a[at + 1..] == b[at + 1..]
    ensures Crc(a) != Crc(b)
  {
    var n := |a| - 1;
    var a', b' := a[..n], b[..n];
    assert a == a' + [a[n]] && b == b' + [b[n]];
    if at < n {
      assert a'[..at] == a[..at] && b'[..at] == b[..at];
      assert a'[at + 1..] == a[at + 1..][..n - at - 1] && b'[at + 1..] == b[at + 1..][..n - at - 1];
      assert a[at + 1..][n - at - 1] == b[at + 1..][n - at - 1];
      SingleByteDetected(a', b', at);
    } else {
      assert a' == b';
    }
    if Crc(a) == Crc(b) { LastByte(a', b', a[n], b[n]); }
  }

  /** Equal CRCs after one byte more: the CRCs before and the bytes agree, or neither do. */
  lemma LastByte(a: seq<bv8>, b: seq<bv8>, x: bv8, y: bv8)
    requires Crc(a + [x]) == Crc(b + [y])
    ensures Crc(a) == Crc(b) <==> x == y
  {
    CrcAppend(a, x);
    CrcAppend(b, y);
    IdleInjective(Xor(Crc(a), Coefficients(x)), Xor(Crc(b), Coefficients(y)), 8);
    XorAgree(Crc(a), Crc(b), Coefficients(x), Coefficients(y));
    if Coefficients(x) == Coefficients(y) { CoefficientsInjective(x, y); }
  }

  lemma XorAgree(a: seq<bool>, b: seq<bool>, x: seq<bool>, y: seq<bool>)
    requires |a| == |b| == |x| == |y| && Xor(a, x) == Xor(b, y)
    ensures a == b <==> x == y
  {
    forall i | 0 <= i < |a|
      ensures a[i] == b[i] <==> x[i] == y[i]
    {
      assert Xor(a, x)[i] == Xor(b, y)[i];
    }
  }

  // The code.

  /** One bit of input on the register as the code keeps it: bit i is the coefficient of x^(7-i). */
  function ShiftIn(crc: bv8, tmp: bv8): bv8 {
    var inputBit := (crc ^ tmp) & 1;
    ((if inputBit != 0 then crc ^ 0x18 else crc) >> 1) | (inputBit << 7)
  }

  lemma ShiftBit(crc: bv8, tmp: bv8, i: nat)
    requires i < 8
    ensures var feedback := (crc & 1 != 0) != (tmp & 1 != 0);
            (ShiftIn(crc, tmp) & Mask(i) != 0) ==
            if i == 7 then feedback
            else if i == 2 || i == 3 then (crc & Mask(i + 1) != 0) != feedback
            else crc & Mask(i + 1) != 0
  {}

  lemma ShiftIsStep(crc: bv8, tmp: bv8, d: bv8)
    requires d == ShiftIn(crc, tmp)
    ensures Coefficients(d) == Step(Coefficients(crc), Coefficients(tmp)[0])
  {
    var c, bit := Coefficients(crc), Coefficients(tmp)[0];
    forall i | 0 <= i < 8
      ensures Coefficients(d)[i] == NextCoefficient(c, bit, i)
    {
      ShiftBit(crc, tmp, i);
    }
    StepIs(c, bit, Coefficients(d));
  }

  lemma ShiftRest(tmp: bv8, i: nat)
    ensures i < 7 ==> ((tmp >> 1) & Mask(i) != 0) == (tmp & Mask(i + 1) != 0)
    ensures (tmp >> 1) & Mask(7) == 0
  {}

  lemma RestIsTail(tmp: bv8, d: bv8)
    requires d == tmp >> 1
    ensures Coefficients(d) == Coefficients(tmp)[1..] + [false]
  {
    forall i | 0 <= i < 8
      ensures Coefficients(d)[i] == (Coefficients(tmp)[1..] + [false])[i]
    {
      ShiftRest(tmp, i);
    }
  }

  /** The code, over the first `length` bytes of a buffer. */
  method CalculateCrc(buffer: seq<bv8>, length: nat) returns (crc: bv8)
    requires length <= |buffer| && length < 256
    ensures Coefficients(crc) == Crc(buffer[..length])
  {
    crc := 0;
    assert Coefficients(0) == Zeros(8);
    for i := 0 to length
      invariant Coefficients(crc) == Crc(buffer[..i])
    {
      crc := TakeByte(crc, buffer[i]);
      assert buffer[..i + 1][..i] == buffer[..i];
      FeedAppend(Zeros(8), Message(buffer[..i]), Coefficients(buffer[i]));
    }
  }

  /** The inner loop. */
  method TakeByte(before: bv8, byte: bv8) returns (crc: bv8)
    ensures Coefficients(crc) == Feed(Coefficients(before), Coefficients(byte))
  {
    ghost var r, x := Coefficients(before), Coefficients(byte);
    crc := before;
    var tmp := byte;
    assert x[..0] == [] && x[0..] + Zeros(0) == x;
    for j := 0 to 8
      invariant Coefficients(crc) == Feed(r, x[..j])
      invariant Coefficients(tmp) == x[j..] + Zeros(j)
    {
      ghost var c, t := Coefficients(crc), Coefficients(tmp);
      crc, tmp := TakeBit(crc, tmp);
      FeedNext(r, x, j, c, t, Coefficients(crc), Coefficients(tmp));
    }
    assert x[..8] == x;
  }

  lemma FeedNext(r: seq<bool>, x: seq<bool>, j: nat, c: seq<bool>, t: seq<bool>, c': seq<bool>, t': seq<bool>)
    requires |r| == |x| == |c| == |t| == 8 && j < 8
    requires c == Feed(r, x[..j]) && t == x[j..] + Zeros(j)
    requires c' == Step(c, t[0]) && t' == t[1..] + [false]
    ensures c' == Feed(r, x[..j + 1]) && t' == x[j + 1..] + Zeros(j + 1)
  {
    assert x[..j + 1][..j] == x[..j];
    ShiftOut(x, j);
  }

  method TakeBit(before: bv8, rest: bv8) returns (crc: bv8, tmp: bv8)
    ensures Coefficients(crc) == Step(Coefficients(before), Coefficients(rest)[0])
    ensures Coefficients(tmp) == Coefficients(rest)[1..] + [false]
  {
    crc, tmp := before, rest;
    ShiftIsStep(crc, tmp, ShiftIn(crc, tmp));
    RestIsTail(tmp, tmp >> 1);
    var inputBit := (crc ^ tmp) & 1;
    if inputBit != 0 {
      crc := crc ^ 0x18;
    }
    crc := crc >> 1;
    tmp := tmp >> 1;
    crc := crc | (inputBit << 7);
  }
}
