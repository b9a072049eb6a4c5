/**
 * Unsigned 64-bit arithmetic and decimal digit strings: the uint64_t range,
 * powers, the digits snprintf prints for "%" PRIu64 and the value a digit
 * run denotes.
 */
module Decimal {

  /** 2^64: uint64_t arithmetic is arithmetic modulo U64. */
  const U64: nat := 0x1_0000_0000_0000_0000
  const UINT64_MAX: nat := U64 - 1

  function Pow(b: nat, e: nat): nat {
    if e == 0 then 1 else b * Pow(b, e - 1)
  }

  lemma {:induction false} PowPositive(b: nat, e: nat)
    requires b > 0
    ensures Pow(b, e) > 0
  {
    if e > 0 {
      PowPositive(b, e - 1);
    }
  }

  /** The powers of ten on either side of 2^64. */
  lemma TenPowers()
    ensures Pow(10, 19) == 10_000_000_000_000_000_000
    ensures Pow(10, 20) == 100_000_000_000_000_000_000
  {
    assert Pow(10, 5) == 100_000;
    PowAdd(10, 5, 5);
    var t: nat := Pow(10, 10);
    assert t == 10_000_000_000;
    PowAdd(10, 10, 10);
    assert Pow(10, 20) == t * t;
    assert Pow(10, 20) == 10 * Pow(10, 19);
  }

  lemma {:induction false} PowAdd(b: nat, e1: nat, e2: nat)
    ensures Pow(b, e1 + e2) == Pow(b, e1) * Pow(b, e2)
  {
    if e2 > 0 {
      PowAdd(b, e1, e2 - 1);
      assert Pow(b, e1 + e2) == b * Pow(b, e1 + e2 - 1);
      assert Pow(b, e1) * Pow(b, e2) == Pow(b, e1) * (b * Pow(b, e2 - 1));
    }
  }

  lemma {:induction false} PowMonotone(b: nat, e1: nat, e2: nat)
    requires b > 0 && e1 <= e2
    ensures Pow(b, e1) <= Pow(b, e2)
  {
    PowAdd(b, e1, e2 - e1);
    PowPositive(b, e2 - e1);
    PowPositive(b, e1);
  }

  /** A larger base gives a larger power. */
  lemma {:induction false} PowBaseMonotone(b1: nat, b2: nat, e: nat)
    requires b1 <= b2
    ensures Pow(b1, e) <= Pow(b2, e)
  {
    if e > 0 {
      PowBaseMonotone(b1, b2, e - 1);
      MulMonotone(b1, Pow(b1, e - 1), b2, Pow(b2, e - 1));
    }
  }

  lemma MulMonotone(a: nat, b: nat, c: nat, d: nat)
    requires a <= c && b <= d
    ensures a * b <= c * d
  {
    assert a * b <= c * b;
  }

  lemma MulAssoc(a: int, b: int, c: int)
    ensures a * (b * c) == (a * b) * c
  {
  }

  lemma MulDistrib(a: int, b: int, c: int)
    ensures (a + b) * c == a * c + b * c
  {
  }

  lemma MulComm(a: int, b: int)
    ensures a * b == b * a
  {
  }

  /** Euclidean division: quotient and remainder are the only ones. */
  lemma DivUnique(x: int, m: int, q: int, r: int)
    requires m > 0 && 0 <= r < m && x == q * m + r
    ensures x / m == q && x % m == r
  {
    var q', r' := x / m, x % m;
    assert x == q' * m + r';
    assert (q - q') * m == r' - r;
    if q - q' >= 1 {
      MulAtLeast(q - q', m);
    } else if q' - q >= 1 {
      MulAtLeast(q' - q, m);
    }
  }

  lemma MulAtLeast(a: int, m: int)
    requires a >= 1 && m > 0
    ensures a * m >= m
  {
  }

  lemma DivBounds(x: int, m: int)
    requires x >= 0 && m > 0
    ensures 0 <= x / m <= x && 0 <= x % m < m
  {
    QuotientBounds(x, m, x / m, x % m);
  }

  /** A quotient and remainder of a non-negative x by m lie between 0 and x. */
  lemma QuotientBounds(x: int, m: int, q: int, r: int)
    requires x >= 0 && m > 0 && x == q * m + r && 0 <= r < m
    ensures 0 <= q <= x
  {
    if q < 0 {
      MulAtMost(q, m);
    } else if q > x {
      MulAtLeast(q, m);
    }
  }

  lemma MulAtMost(a: int, m: int)
    requires a <= -1 && m > 0
    ensures a * m <= -m
  {
    MulAtLeast(-a, m);
    assert (-a) * m == -(a * m);
  }

  /** Whole multiples of m pass through division and vanish from the remainder. */
  lemma DivAdd(a: int, b: int, m: int)
    requires m > 0
    ensures (a * m + b) / m == a + b / m
    ensures (a * m + b) % m == b % m
  {
    var q, r := b / m, b % m;
    assert a * m + b == (a + q) * m + r;
    DivUnique(a * m + b, m, a + q, r);
  }

  predicate IsDigit(c: char) {
    '0' <= c <= '9'
  }

  predicate AllDigits(s: seq<char>) {
    forall i :: 0 <= i < |s| ==> IsDigit(s[i])
  }

  function DigitValue(c: char): (d: nat)
    requires IsDigit(c)
    ensures d < 10
  {
    c as int - '0' as int
  }

  function DigitChar(d: nat): (c: char)
    requires d < 10
    ensures IsDigit(c) && DigitValue(c) == d
  {
    ('0' as int + d) as char
  }

  /** The number a run of decimal digits denotes, most significant first. */
  function Value(s: seq<char>): nat
    requires AllDigits(s)
  {
    if s == [] then 0 else Value(s[..|s| - 1]) * 10 + DigitValue(s[|s| - 1])
  }

  /** A digit run is worth less than 10 to the power of its length. */
  lemma {:induction false} ValueBound(s: seq<char>)
    requires AllDigits(s)
    ensures Value(s) < Pow(10, |s|)
  {
    if s != [] {
      ValueBound(s[..|s| - 1]);
    }
  }

  /** Appending digits shifts the value left by their count. */
  lemma {:induction false} ValueConcat(a: seq<char>, b: seq<char>)
    requires AllDigits(a) && AllDigits(b)
    ensures AllDigits(a + b)
    ensures Value(a + b) == Value(a) * Pow(10, |b|) + Value(b)
  {
    if b != [] {
      var b' := b[..|b| - 1];
      assert (a + b)[..|a + b| - 1] == a + b';
      ValueConcat(a, b');
      var x, y, d, q := Value(a), Value(b'), DigitValue(b[|b| - 1]), Pow(10, |b'|);
      assert Value(a + b) == (x * q + y) * 10 + d;
      assert Pow(10, |b|) == 10 * q;
      Shift(x, y, d, q);
    } else {
      assert a + b == a;
    }
  }

  /** Regrouping for ValueConcat: one more digit below a shifted prefix. */
  lemma Shift(x: nat, y: nat, d: nat, q: nat)
    ensures (x * q + y) * 10 + d == x * (10 * q) + (y * 10 + d)
  {
  }

  /** Zero digits are worth nothing. */
  lemma {:induction false} ValueOfZeros(z: seq<char>)
    requires forall i :: 0 <= i < |z| ==> z[i] == '0'
    ensures AllDigits(z) && Value(z) == 0
  {
    if z != [] {
      ValueOfZeros(z[..|z| - 1]);
    }
  }

  /**
   * snprintf "%" PRIu64: the decimal digits of n, without leading zeros.
   */
  function Render(n: nat): (s: seq<char>)
    ensures 1 <= |s| && AllDigits(s)
    ensures Value(s) == n
    ensures |s| > 1 ==> s[0] != '0'
  {
    if n < 10 then [DigitChar(n)]
    else
      var s := Render(n / 10) + [DigitChar(n % 10)];
      assert s[..|s| - 1] == Render(n / 10);
      s
  }

  /** Rendering a number below 10^k takes at most k digits. */
  lemma {:induction false} RenderLength(n: nat, k: nat)
    requires 1 <= k && n < Pow(10, k)
    ensures |Render(n)| <= k
  {
    if n >= 10 {
      assert Pow(10, k) == 10 * Pow(10, k - 1);
      assert k > 1;
      RenderLength(n / 10, k - 1);
    }
  }

  /** The digit runs denoting n without leading zeros are exactly Render(n). */
  lemma {:induction false} RenderUnique(s: seq<char>)
    requires 1 <= |s| && AllDigits(s) && (|s| > 1 ==> s[0] != '0')
    ensures Render(Value(s)) == s
  {
    if |s| > 1 {
      var p := s[..|s| - 1];
      RenderUnique(p);
      ValueLeading(p);
      assert Value(s) / 10 == Value(p) && Value(s) % 10 == DigitValue(s[|s| - 1]);
      assert s == p + [s[|s| - 1]];
    }
  }

  /** A digit run whose leading digit is not zero is worth at least 1. */
  lemma {:induction false} ValueLeading(s: seq<char>)
    requires 1 <= |s| && AllDigits(s) && s[0] != '0'
    ensures Value(s) >= 1
  {
    if |s| > 1 {
      ValueLeading(s[..|s| - 1]);
    }
  }
}
