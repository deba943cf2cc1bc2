/** Integer arithmetic that the C code does with shifts and masks.  `&` on
    unsigned values is defined bit by bit; the two mask lemmas turn the two uses
    made of it into remainder and round-down. */
module Bits {

  type byte = b: int | 0 <= b < 256

  function Pow2(k: nat): (p: nat)
    ensures p > 0
  {
    if k == 0 then 1 else 2 * Pow2(k - 1)
  }

  function Min(a: int, b: int): int {
    if a <= b then a else b
  }

  function BitAnd(a: nat, b: nat): nat {
    if a == 0 || b == 0 then 0
    else (if a % 2 == 1 && b % 2 == 1 then 1 else 0) + 2 * BitAnd(a / 2, b / 2)
  }

  function LdWord(s: seq<byte>, at: nat): (w: nat)
    requires at + 2 <= |s|
    ensures w < 0x1_0000
  {
    (s[at + 1] as int) * 256 + s[at] as int
  }

  function LdDword(s: seq<byte>, at: nat): (w: nat)
    requires at + 4 <= |s|
    ensures w < 0x1_0000_0000
  {
    s[at + 3] * 0x100_0000 + s[at + 2] * 0x1_0000 + (s[at + 1] as int) * 256 + s[at] as int
  }

  /** A number in two and in four bytes, low byte first. */
  function Word(n: nat): (b: seq<byte>)
    requires n < 0x1_0000
    ensures |b| == 2
  {
    [n % 256, n / 256]
  }

  function Dword(n: nat): (b: seq<byte>)
    requires n < 0x1_0000_0000
    ensures |b| == 4
  {
    [n % 256, n / 256 % 256, n / 0x1_0000 % 256, n / 0x100_0000]
  }

  lemma LdWordIs(s: seq<byte>, at: nat, n: nat)
    requires at + 2 <= |s| && n < 0x1_0000 && s[at..at + 2] == Word(n)
    ensures LdWord(s, at) == n
  {
    assert s[at] == s[at..at + 2][0] && s[at + 1] == s[at..at + 2][1];
  }

  lemma LdDwordIs(s: seq<byte>, at: nat, n: nat)
    requires at + 4 <= |s| && n < 0x1_0000_0000 && s[at..at + 4] == Dword(n)
    ensures LdDword(s, at) == n
  {
    var b := s[at..at + 4];
    assert s[at] == b[0] && s[at + 1] == b[1] && s[at + 2] == b[2] && s[at + 3] == b[3];
    var q := n / 256;
    assert n / 0x1_0000 == q / 256 && n / 0x100_0000 == q / 256 / 256;
  }

  lemma MulLe(a: nat, b: nat, m: nat)
    requires a <= b
    ensures a * m <= b * m
  {}

  lemma MulSucc(a: nat, m: nat)
    ensures (a + 1) * m == a * m + m
  {}

  lemma DivModEq(a: int, m: int)
    requires m > 0
    ensures a == m * (a / m) + a % m && 0 <= a % m < m
  {}

  /** Euclidean division is determined by its equation. */
  lemma DivModUnique(a: int, m: int, q: int, r: int)
    requires m > 0 && a == m * q + r && 0 <= r < m
    ensures a / m == q && a % m == r
  {
    var q', r' := a / m, a % m;
    assert a == m * q' + r' by { DivModEq(a, m); }
    var d := q - q';
    assert m * d == m * q - m * q';
    if d >= 1 {
      MulLe(1, d, m);
    }
  }

  lemma DivPred(j: nat, m: nat)
    requires j > 0 && m > 0
    ensures j % m == 0 ==> j / m > 0 && (j - 1) / m == j / m - 1
    ensures j % m != 0 ==> (j - 1) / m == j / m
  {
    var q, r := j / m, j % m;
    assert j == m * q + r;
    if r == 0 {
      assert j - 1 == m * (q - 1) + (m - 1);
      DivModUnique(j - 1, m, q - 1, m - 1);
    } else {
      DivModUnique(j - 1, m, q, r - 1);
    }
  }

  lemma DivMono(a: nat, b: nat, m: nat)
    requires a <= b && m > 0
    ensures a / m <= b / m
  {
    if a / m > b / m {
      MulLe(b / m + 1, a / m, m);
      assert false;
    }
  }

  /** `a / (m * n)` is division in two steps. */
  lemma DivDiv(a: nat, m: nat, n: nat)
    requires m > 0 && n > 0
    ensures m * n > 0 && a / (m * n) == a / m / n
    ensures a % (m * n) == a % m + m * (a / m % n)
  {
    var q, r := a / m, a % m;
    var q2, r2 := q / n, q % n;
    assert q == n * q2 + r2;
    assert a == m * q + r;
    calc {
      a;
      m * (n * q2 + r2) + r;
      m * (n * q2) + m * r2 + r;
      m * n * q2 + (m * r2 + r);
    }
    MulLe(r2, n - 1, m);
    assert m * r2 + r < m * n;
    DivModUnique(a, m * n, q2, m * r2 + r);
  }

  lemma {:induction false} Pow2Mono(k: nat, n: nat)
    requires k <= n
    ensures Pow2(k) <= Pow2(n)
  {
    if k < n { Pow2Mono(k, n - 1); }
  }

  lemma {:induction false} Pow2Add(a: nat, b: nat)
    ensures Pow2(a + b) == Pow2(a) * Pow2(b)
  {
    if a > 0 {
      Pow2Add(a - 1, b);
      Double(Pow2(a - 1), Pow2(b));
    }
  }

  lemma AndOdd(a: nat, b: nat, m: nat)
    requires m == 2 * b + 1
    ensures BitAnd(a, m) == a % 2 + 2 * BitAnd(a / 2, b)
  {
    assert m / 2 == b;
  }

  lemma AndEven(a: nat, b: nat, m: nat)
    requires m == 2 * b
    ensures BitAnd(a, m) == 2 * BitAnd(a / 2, b)
  {}

  lemma Double(p: nat, q: nat)
    ensures 2 * p * q == 2 * (p * q)
  {}

  lemma {:induction false} AndQuotient(a: nat, k: nat, m: nat) returns (q: nat)
    requires m == Pow2(k) - 1
    ensures a == Pow2(k) * q + BitAnd(a, m)
    ensures BitAnd(a, m) < Pow2(k)
  {
    if k == 0 {
      q := a;
    } else {
      var m' := Pow2(k - 1) - 1;
      q := AndQuotient(a / 2, k - 1, m');
      AndOdd(a, m', m);
      Double(Pow2(k - 1), q);
    }
  }

  /** Masking with 2^k - 1 is the remainder modulo 2^k. */
  lemma AndLowMask(a: nat, k: nat)
    ensures BitAnd(a, Pow2(k) - 1) == a % Pow2(k)
  {
    var m := Pow2(k) - 1;
    var q := AndQuotient(a, k, m);
    DivModUnique(a, Pow2(k), q, BitAnd(a, m));
  }

  lemma {:induction false} AndSplit(a: nat, k: nat, n: nat, hi: nat, lo: nat)
    requires k <= n && a < Pow2(n)
    requires hi == Pow2(n) - Pow2(k) && lo == Pow2(k) - 1
    ensures BitAnd(a, hi) + BitAnd(a, lo) == a
  {
    if k > 0 {
      var hi', lo' := Pow2(n - 1) - Pow2(k - 1), Pow2(k - 1) - 1;
      AndSplit(a / 2, k - 1, n - 1, hi', lo');
      AndEven(a, hi', hi);
      AndOdd(a, lo', lo);
    } else if n > 0 {
      var hi' := Pow2(n - 1) - 1;
      AndSplit(a / 2, 0, n - 1, hi', 0);
      AndOdd(a, hi', hi);
    }
  }

  /** Masking an n-bit value with the complement of 2^k - 1 rounds it down to a
      multiple of 2^k. */
  lemma AndHighMask(a: nat, k: nat, n: nat)
    requires k <= n && a < Pow2(n)
    ensures Pow2(k) <= Pow2(n)
    ensures BitAnd(a, Pow2(n) - Pow2(k)) == a - a % Pow2(k)
  {
    Pow2Mono(k, n);
    var hi, lo := Pow2(n) - Pow2(k), Pow2(k) - 1;
    AndSplit(a, k, n, hi, lo);
    AndLowMask(a, k);
  }
}
