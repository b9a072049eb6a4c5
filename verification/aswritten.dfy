/**
 * The parts of src-api/common/string.c whose code parts from what its
 * documentation and callers intend, modelled as written: uint64_t products
 * that wrap, the digit loop's division of the multiplier by ten, and the
 * signed encoder's lost minus sign. Each variant comes with an input that
 * shows the difference and a lemma saying where it agrees with the intended
 * definitions in modules Encoder and Parser.
 */
module AsWritten {
  import opened Wrappers
  import opened Decimal
  import opened Units
  import opened CString
  import Encoder
  import Parser

  // ---------------------------------------------------------------------
  // The encoder's scaling loop in uint64_t arithmetic
  // ---------------------------------------------------------------------

  /** The loop `multiplier *= 10` run f times on a uint64_t. */
  function TenPow(f: nat): (m: nat)
    ensures m < U64
  {
    if f == 0 then 1 else TenPow(f - 1) * 10 % U64
  }

  /** Without wrap-around the loop computes 10^f. */
  lemma {:induction false} TenPowExact(f: nat)
    requires Pow(10, f) <= UINT64_MAX
    ensures TenPow(f) == Pow(10, f)
  {
    if f > 0 {
      PowMonotone(10, f - 1, f);
      TenPowExact(f - 1);
    }
  }

  /** From 20 fractional digits on the loop wraps: 10^20 becomes 10^20 mod 2^64. */
  lemma TenPowWraps()
    ensures TenPow(20) == 7_766_279_631_452_241_920
    ensures TenPow(20) != Pow(10, 20)
  {
    TenPowers();
    TenPowExact(19);
    DivUnique(100_000_000_000_000_000_000, U64, 5, 7_766_279_631_452_241_920);
  }

  /** Where the scaling loop stops: the suffix index and the multiplier it holds then. */
  datatype Scaled = Scaled(index: nat, multiplier: nat)

  /**
   * The scaling loop as written: the guard compares number with the wrapped
   * product multiplier * step, and the multiplier wraps when it grows.
   */
  function Scale(number: nat, m: nat, step: nat, k: nat): (s: Scaled)
    requires k <= |SYMBOLS|
    ensures k <= s.index <= |SYMBOLS|
    ensures s.index == k ==> s.multiplier == m
    ensures s.index > k ==> s.multiplier < U64
    decreases |SYMBOLS| - k
  {
    if k < |SYMBOLS| && number >= m * step % U64 then Scale(number, m * step % U64, step, k + 1)
    else Scaled(k, m)
  }

  /** UINT64_MAX with no fraction: 1000^7 wraps below the number, so the loop walks onto the table's terminator. */
  lemma ScalePastE()
    ensures Scale(UINT64_MAX, TenPow(0), Step(false), 0) == Scaled(|SYMBOLS|, 3_875_820_019_684_212_736)
    ensures Encoder.ScaleIndex(UINT64_MAX, 1, Step(false)) == 6
  {
    var x, last := UINT64_MAX, Scaled(7, 3_875_820_019_684_212_736);
    assert TenPow(0) == 1 && Step(false) == 1000;
    assert 1_000_000_000_000_000_000 * 1000 % U64 == 3_875_820_019_684_212_736;
    assert 1_000_000_000_000_000 * 1000 % U64 == 1_000_000_000_000_000_000;
    assert 1_000_000_000_000 * 1000 % U64 == 1_000_000_000_000_000;
    assert 1_000_000_000 * 1000 % U64 == 1_000_000_000_000;
    assert 1_000_000 * 1000 % U64 == 1_000_000_000;
    assert 1000 * 1000 % U64 == 1_000_000;
    assert 1 * 1000 % U64 == 1000;
    assert Scale(x, 3_875_820_019_684_212_736, 1000, 7) == last;
    assert Scale(x, 1_000_000_000_000_000_000, 1000, 6) == last;
    assert Scale(x, 1_000_000_000_000_000, 1000, 5) == last;
    assert Scale(x, 1_000_000_000_000, 1000, 4) == last;
    assert Scale(x, 1_000_000_000, 1000, 3) == last;
    assert Scale(x, 1_000_000, 1000, 2) == last;
    assert Scale(x, 1000, 1000, 1) == last;
    assert Scale(x, 1, 1000, 0) == last;
    ExactIndexOfMax();
  }

  /** In exact arithmetic UINT64_MAX scales to 'E'. */
  lemma ExactIndexOfMax()
    ensures Encoder.ScaleIndex(UINT64_MAX, 1, Step(false)) == 6
  {
    assert Pow(1000, 2) == 1_000_000;
    assert Pow(1000, 4) == Pow(1000, 2) * Pow(1000, 2) by { PowAdd(1000, 2, 2); }
    assert Pow(1000, 6) == Pow(1000, 4) * Pow(1000, 2) by { PowAdd(1000, 4, 2); }
    Encoder.ScaleStopsAtE(UINT64_MAX, 1, 1000);
    Encoder.ScaleIndexIsLargest(UINT64_MAX, 1, 1000, 6);
  }

  /** UINT64_MAX with four binary decimals: 10^4 * 1024^6 is 625 * 2^64, so the multiplier wraps to zero and number / multiplier divides by zero. */
  lemma ScaleToZero()
    ensures Scale(UINT64_MAX, TenPow(4), Step(true), 0).multiplier == 0
  {
    var x, last := UINT64_MAX, Scaled(7, 0);
    assert TenPow(1) == 10;
    assert TenPow(2) == 100;
    assert TenPow(3) == 1000;
    assert TenPow(4) == 10000 && Step(true) == 1024;
    assert 0 * 1024 % U64 == 0;
    assert 11_258_999_068_426_240_000 * 1024 % U64 == 0;
    assert 10_995_116_277_760_000 * 1024 % U64 == 11_258_999_068_426_240_000;
    assert 10_737_418_240_000 * 1024 % U64 == 10_995_116_277_760_000;
    assert 10_485_760_000 * 1024 % U64 == 10_737_418_240_000;
    assert 10_240_000 * 1024 % U64 == 10_485_760_000;
    assert 10000 * 1024 % U64 == 10_240_000;
    assert Scale(x, 0, 1024, 7) == last;
    assert Scale(x, 0, 1024, 6) == last;
    assert Scale(x, 11_258_999_068_426_240_000, 1024, 5) == last;
    assert Scale(x, 10_995_116_277_760_000, 1024, 4) == last;
    assert Scale(x, 10_737_418_240_000, 1024, 3) == last;
    assert Scale(x, 10_485_760_000, 1024, 2) == last;
    assert Scale(x, 10_240_000, 1024, 1) == last;
    assert Scale(x, 10000, 1024, 0) == last;
  }

  /**
   * While no product the loop forms exceeds UINT64_MAX, the loop as written
   * agrees with the exact Encoder.ScaleFrom.
   */
  lemma {:induction false} ScaleAgrees(number: nat, m0: nat, step: nat, k: nat)
    requires m0 >= 1 && step >= 1 && k <= |SYMBOLS|
    requires var j := Encoder.ScaleFrom(number, m0, step, k);
             && m0 * Pow(step, j) <= UINT64_MAX
             && (j < |SYMBOLS| ==> m0 * Pow(step, j + 1) <= UINT64_MAX)
    ensures var j := Encoder.ScaleFrom(number, m0, step, k);
            Scale(number, m0 * Pow(step, k), step, k) == Scaled(j, m0 * Pow(step, j))
    decreases |SYMBOLS| - k
  {
    var j := Encoder.ScaleFrom(number, m0, step, k);
    if k < |SYMBOLS| {
      if k < j {
        ScaledMonotone(m0, step, k + 1, j);
      }
      NoWrap(m0, step, k);
      if number >= m0 * Pow(step, k + 1) {
        ScaleAgrees(number, m0, step, k + 1);
      }
    }
  }

  /** m0 * step^a grows with a. */
  lemma ScaledMonotone(m0: nat, step: nat, a: nat, b: nat)
    requires step >= 1 && a <= b
    ensures m0 * Pow(step, a) <= m0 * Pow(step, b)
  {
    PowMonotone(step, a, b);
    MulMonotone(m0, Pow(step, a), m0, Pow(step, b));
  }

  /** One more step of the loop stays exact while the product fits. */
  lemma NoWrap(m0: nat, step: nat, k: nat)
    requires m0 * Pow(step, k + 1) <= UINT64_MAX
    ensures m0 * Pow(step, k) * step % U64 == m0 * Pow(step, k + 1)
  {
    MulAssoc(m0, Pow(step, k), step);
    MulComm(Pow(step, k), step);
    DivUnique(m0 * Pow(step, k + 1), U64, 0, m0 * Pow(step, k + 1));
  }

  /**
   * For a number and a fraction small enough that number * step and
   * 10^f * step fit in a uint64_t, the scaling loop as written picks the
   * suffix index and multiplier of the exact layout.
   */
  lemma ScaleExact(number: nat, fraction: int, binary: bool)
    requires number <= UINT64_MAX / Step(binary)
    requires Pow(10, Encoder.FractionDigits(fraction)) <= UINT64_MAX / Step(binary)
    ensures var p := Encoder.Plan(number, fraction, binary, false);
            Scale(number, TenPow(Encoder.FractionDigits(fraction)), Step(binary), 0) == Scaled(p.index, p.multiplier)
  {
    var f0, step := Encoder.FractionDigits(fraction), Step(binary);
    var m0 := Pow(10, f0);
    DivBounds(UINT64_MAX, step);
    PowPositive(10, f0);
    TenPowExact(f0);
    ScaleFits(number, m0, step);
    assert Pow(step, 0) == 1;
    assert m0 * Pow(step, 0) == m0;
    ScaleAgrees(number, m0, step, 0);
  }

  /** Below UINT64_MAX / step, no product the scaling loop forms exceeds UINT64_MAX. */
  lemma ScaleFits(number: nat, m0: nat, step: nat)
    requires m0 >= 1 && step >= 1
    requires number <= UINT64_MAX / step && m0 <= UINT64_MAX / step
    ensures var j := Encoder.ScaleFrom(number, m0, step, 0);
            && m0 * Pow(step, j) <= UINT64_MAX
            && (j < |SYMBOLS| ==> m0 * Pow(step, j + 1) <= UINT64_MAX)
  {
    var j := Encoder.ScaleFrom(number, m0, step, 0);
    Parser.OverflowGuard(number, step);
    Parser.OverflowGuard(m0, step);
    PowPositive(step, j);
    FitsArith(number, m0, step, Pow(step, j), j > 0);
  }

  /** ScaleFits with step^j as a plain number p, where number >= m0 * p unless p is 1. */
  lemma FitsArith(number: nat, m0: nat, step: nat, p: nat, scaled: bool)
    requires step >= 1 && p >= 1
    requires number * step <= UINT64_MAX && m0 * step <= UINT64_MAX
    requires scaled ==> number >= m0 * p
    requires !scaled ==> p == 1
    ensures m0 * p <= UINT64_MAX && m0 * (step * p) <= UINT64_MAX
  {
    MulAssoc(m0, p, step);
    MulComm(p, step);
    if scaled {
      MulMonotone(m0 * p, step, number, step);
    }
    MulMonotone(m0 * p, 1, m0 * p, step);
  }

  // ---------------------------------------------------------------------
  // The encoder's digit loop
  // ---------------------------------------------------------------------

  /**
   * The digit loop as written, as the values it stores with '0' + print:
   * n is reduced modulo the multiplier, the multiplier is divided by ten,
   * and print is n / multiplier. The loop stops once the remainder is zero
   * or budget digits are out; m >= 10^budget keeps the divisor non-zero.
   * Without a suffix the code has no budget, but its multiplier is then
   * 10^f, so the remainder is zero after f digits and budget f says the same.
   */
  function Digits(n: nat, m: nat, budget: nat): (ps: seq<nat>)
    requires Pow(10, budget) <= m
    ensures |ps| <= budget
    decreases budget
  {
    PowPositive(10, budget);
    var r := n % m;
    if r == 0 || budget == 0 then []
    else
      DivideByTen(m, budget);
      DivBounds(r, m / 10);
      var digit: nat := r / (m / 10);
      [digit] + Digits(r, m / 10, budget - 1)
  }

  lemma DivideByTen(m: nat, budget: nat)
    requires budget >= 1 && Pow(10, budget) <= m
    ensures Pow(10, budget - 1) <= m / 10
  {
    assert Pow(10, budget) == 10 * Pow(10, budget - 1);
  }

  /** The values of a digit run, most significant first. */
  function DigitValues(ds: seq<char>): (vs: seq<nat>)
    requires AllDigits(ds)
    ensures |vs| == |ds|
  {
    if ds == [] then [] else [DigitValue(ds[0])] + DigitValues(ds[1..])
  }

  /**
   * 2047 in binary units with no fraction: the multiplier is 1024, and the
   * first digit printed is 1023 / 102 == 10, which trips assert(print < 10);
   * the exact digits are those of 1023/1024 == 0.999...
   */
  lemma BinaryDigitOverflow()
    ensures Digits(2047, 1024, 3) == [10, 0, 3]
    ensures Encoder.Plan(2047, 0, true, false) == Encoder.Layout(1, 1024, 1, "999")
  {
    assert Pow(10, 3) == 1000;
    assert Encoder.ScaleIndex(2047, Pow(10, 0), Step(true)) == 1;
    assert Encoder.FracDigits(1023, 1024, 3) == "999";
  }

  /**
   * With binary steps the digits go wrong even where each stays below 10:
   * 1536 prints 1, then 512/102, 2/10 and 2/1, that is "1.502 k", while
   * its exact value is 1.5 k.
   */
  lemma BinaryDigitsSkew()
    ensures Digits(1536, 1024, 3) == [5, 0, 2]
    ensures Encoder.Plan(1536, 0, true, false) == Encoder.Layout(1, 1024, 1, "5")
    ensures Encoder.Body(1536, 0, true, false) == "1.5 k"
  {
    SkewDigits();
    SkewPlan();
    SkewBody();
  }

  lemma SkewDigits()
    ensures Pow(10, 3) <= 1024 && Digits(1536, 1024, 3) == [5, 0, 2]
  {
    assert Pow(10, 3) == 1000;
  }

  lemma SkewPlan()
    ensures Encoder.Plan(1536, 0, true, false) == Encoder.Layout(1, 1024, 1, "5")
  {
    assert Encoder.ScaleIndex(1536, Pow(10, 0), Step(true)) == 1;
    assert Encoder.Multiplier(0, true, 1) == 1024;
    assert Encoder.FracDigits(0, 1024, 2) == [];
    DivUnique(5120, 1024, 5, 0);
    assert Encoder.FracDigits(512, 1024, 3) == [DigitChar(5)];
  }

  lemma SkewBody()
    ensures Encoder.Body(1536, 0, true, false) == "1.5 k"
  {
    SkewPlan();
    assert Render(1) == "1";
  }

  /** Scaling the remainder and the multiplier alike leaves the digits alone. */
  lemma {:induction false} FracDigitsScale(c: nat, r: nat, m: nat, budget: nat)
    requires c >= 1 && r < m && c * r < c * m
    ensures Encoder.FracDigits(c * r, c * m, budget) == Encoder.FracDigits(r, m, budget)
    decreases budget
  {
    if r != 0 && budget != 0 {
      MulAtLeast(c, r);
      var d, s := r * 10 / m, r * 10 % m;
      Encoder.DigitBound(r, m);
      assert c * r * 10 == d * (c * m) + c * s by {
        MulAssoc(c, r, 10);
        MulDistrib(d * m, s, c);
        MulComm(d * m, c);
        MulComm(s, c);
        MulAssoc(c, d, m);
        MulComm(c, d);
        MulAssoc(d, c, m);
      }
      MulStrict(c, s, m);
      DivUnique(c * r * 10, c * m, d, c * s);
      FracDigitsScale(c, s, m, budget - 1);
    }
  }

  lemma MulStrict(c: nat, x: nat, y: nat)
    requires c >= 1 && x < y
    ensures c * x < c * y
  {
    MulAtLeast(c, y - x);
    assert c * (y - x) == c * y - c * x;
  }

  /**
   * With a power of ten as the multiplier, the digit loop as written prints
   * exactly the digits of Encoder.FracDigits.
   */
  lemma {:induction false} DigitsAgree(n: nat, e: nat, budget: nat)
    requires budget <= e
    ensures 1 <= Pow(10, budget) <= Pow(10, e)
    ensures Digits(n, Pow(10, e), budget) == DigitValues(Encoder.FracDigits(n % Pow(10, e), Pow(10, e), budget))
    decreases budget
  {
    PowPositive(10, budget);
    PowMonotone(10, budget, e);
    var m := Pow(10, e);
    DivBounds(n, m);
    var r := n % m;
    if r == 0 || budget == 0 {
      assert Digits(n, m, budget) == [];
      assert Encoder.FracDigits(r, m, budget) == [];
    } else {
      var m' := Pow(10, e - 1);
      PowPositive(10, e - 1);
      assert m == 10 * m';
      var q, s := DigitSplit(r, m', m);
      DigitsAgree(r, e - 1, budget - 1);
      AgreeStep(n, m, budget, r, m', q, s);
    }
  }

  /** The recursive case of DigitsAgree, given its induction hypothesis. */
  lemma AgreeStep(n: nat, m: nat, budget: nat, r: nat, m': nat, q: nat, s: nat)
    requires Pow(10, budget) <= m && budget > 0 && 0 < r < m && r == n % m
    requires m' >= 1 && m / 10 == m' && Pow(10, budget - 1) <= m'
    requires q == r / m' && r * 10 / m == q && r * 10 % m == 10 * s && 10 * s < 10 * m' && 10 * m' == m
    requires s < m' && r % m' == s
    requires Digits(r, m', budget - 1) == DigitValues(Encoder.FracDigits(s, m', budget - 1))
    ensures Digits(n, m, budget) == DigitValues(Encoder.FracDigits(r, m, budget))
  {
    var t := 10 * s;
    DigitsStep(n, m, budget, m', q);
    assert Digits(n, m, budget) == [q] + DigitValues(Encoder.FracDigits(s, m', budget - 1));
    FracDigitsScale(10, s, m', budget - 1);
    assert Encoder.FracDigits(t, m, budget - 1) == Encoder.FracDigits(s, m', budget - 1);
    FirstDigit(r, m, budget, q, t);
  }

  /** One round of the digit loop as written, taken apart. */
  lemma DigitsStep(n: nat, m: nat, budget: nat, m': nat, q: nat)
    requires Pow(10, budget) <= m && budget > 0 && m / 10 == m' && m' >= 1
    requires n % m != 0 && q == n % m / m'
    ensures Pow(10, budget - 1) <= m'
    ensures Digits(n, m, budget) == [q] + Digits(n % m, m', budget - 1)
  {
    DivideByTen(m, budget);
  }

  /** Dividing by m / 10 == m' gives the digit the exact loop finds by r * 10 / m. */
  lemma DigitSplit(r: nat, m': nat, m: nat) returns (q: nat, s: nat)
    requires m' >= 1 && m == 10 * m' && r < m
    ensures m / 10 == m' && q == r / m' && s == r % m'
    ensures r * 10 / m == q && r * 10 % m == 10 * s && 10 * s < 10 * m'
  {
    DivUnique(m, 10, m', 0);
    DivBounds(r, m');
    q, s := r / m', r % m';
    assert r * 10 == q * m + s * 10 by {
      assert r == q * m' + s;
      MulDistrib(q * m', s, 10);
      MulAssoc(q, m', 10);
    }
    MulStrict(10, s, m');
    DivUnique(r * 10, m, q, s * 10);
  }

  /** One round of the exact digit loop, taken apart. */
  lemma FirstDigit(r: nat, m: nat, budget: nat, q: nat, s: nat)
    requires 0 < r < m && budget > 0 && r * 10 / m == q && r * 10 % m == s
    ensures var ds := Encoder.FracDigits(r, m, budget);
            q < 10 && ds != [] && DigitValues(ds) == [q] + DigitValues(Encoder.FracDigits(s, m, budget - 1))
  {
    Encoder.DigitBound(r, m);
    var ds := Encoder.FracDigits(r, m, budget);
    assert ds == [DigitChar(q)] + Encoder.FracDigits(s, m, budget - 1);
    assert ds[1..] == Encoder.FracDigits(s, m, budget - 1);
  }

  lemma {:induction false} ThousandPow(k: nat)
    ensures Pow(1000, k) == Pow(10, 3 * k)
  {
    if k > 0 {
      ThousandPow(k - 1);
      PowAdd(10, 3, 3 * (k - 1));
      assert Pow(10, 3) == 1000;
    }
  }

  /**
   * For decimal steps every multiplier is a power of ten, so the digit loop
   * as written prints the exact digits the encoder's layout holds.
   */
  lemma DecimalDigitsAgree(number: nat, fraction: int, raw: bool)
    requires number <= UINT64_MAX
    ensures var p := Encoder.Plan(number, fraction, false, raw);
            var budget := if p.index == 0 then Encoder.FractionDigits(fraction) else 3;
            && Pow(10, budget) <= p.multiplier
            && Digits(number, p.multiplier, budget) == DigitValues(p.digits)
  {
    var f0 := Encoder.FractionDigits(fraction);
    var p := Encoder.Plan(number, fraction, false, raw);
    var k := p.index;
    var budget := if k == 0 then f0 else 3;
    var e := f0 + 3 * k;
    ThousandPow(k);
    PowAdd(10, f0, 3 * k);
    assert p.multiplier == Pow(10, e);
    PlanDigits(number, fraction, false, raw);
    assert p.digits == Encoder.FracDigits(number % Pow(10, e), Pow(10, e), budget);
    DigitsAgree(number, e, budget);
  }

  /** The layout's digits are the digit loop run on the remainder of its multiplier. */
  lemma PlanDigits(number: nat, fraction: int, binary: bool, raw: bool)
    requires number <= UINT64_MAX
    ensures var p := Encoder.Plan(number, fraction, binary, raw);
            var budget := if p.index == 0 then Encoder.FractionDigits(fraction) else 3;
            && number % p.multiplier < p.multiplier
            && p.digits == Encoder.FracDigits(number % p.multiplier, p.multiplier, budget)
  {
  }

  // ---------------------------------------------------------------------
  // str_get_human_readable_s64
  // ---------------------------------------------------------------------

  /**
   * str_get_human_readable_s64 as written, over the exact encoder: only
   * INT64_MIN gets a '-', written to the first byte of the buffer, and the
   * returned string starts behind it; every other negative number is
   * encoded by its magnitude alone.
   */
  function HumanReadableS64(size: nat, number: int, unit: Option<seq<char>>, fraction: int, binary: bool, raw: bool): (r: seq<char>)
    requires Encoder.IsInt64(number)
    requires unit.Some? ==> NoNul(unit.value)
    requires Encoder.Capacity(fraction) + (if number < 0 then 1 else 0) <= size
    ensures |r| > 0 && IsDigit(r[0])
    ensures number >= 0 ==> r == Encoder.HumanReadableS64(size, number, unit, fraction, binary, raw)
    ensures number == -0x8000_0000_0000_0000 ==> ['-'] + r == Encoder.HumanReadableS64(size, number, unit, fraction, binary, raw)
    ensures -0x8000_0000_0000_0000 < number < 0 ==>
              ['-'] + r == Encoder.HumanReadableS64(size + 1, number, unit, fraction, binary, raw)
  {
    var len := if number == -0x8000_0000_0000_0000 then size - 1 else size;
    Encoder.StartsWithDigit(len, Encoder.Magnitude(number), unit, fraction, binary, raw);
    var r := Encoder.HumanReadableU64(len, Encoder.Magnitude(number), unit, fraction, binary, raw);
    if number < 0 then SignedPrefix(len, number, unit, fraction, binary, raw, r); r
    else r
  }

  /** The corrected encoder's text for a negative number is '-' before its magnitude's. */
  lemma SignedPrefix(len: nat, number: int, unit: Option<seq<char>>, fraction: int, binary: bool, raw: bool, r: seq<char>)
    requires Encoder.IsInt64(number) && number < 0
    requires unit.Some? ==> NoNul(unit.value)
    requires Encoder.Capacity(fraction) <= len
    requires r == Encoder.HumanReadableU64(len, Encoder.Magnitude(number), unit, fraction, binary, raw)
    ensures ['-'] + r == Encoder.HumanReadableS64(len + 1, number, unit, fraction, binary, raw)
  {
    var t := Encoder.HumanReadableS64(len + 1, number, unit, fraction, binary, raw);
    assert t == [t[0]] + t[1..];
  }

  /** The documented example: -120000 should read "-120 k", and the code returns "120 k". */
  lemma NegativeLosesSign()
    ensures HumanReadableS64(32, -120000, None, 0, false, false) == "120 k"
    ensures Encoder.HumanReadableS64(32, -120000, None, 0, false, false) == "-120 k"
  {
    Encode120k();
  }

  /** 120000 encodes as "120 k". */
  lemma Encode120k()
    ensures Encoder.Body(120000, 0, false, false) == "120 k"
  {
    assert Pow(1000, 2) == 1_000_000;
    assert Encoder.ScaleFrom(120000, 1, 1000, 1) == 1;
    assert Encoder.ScaleIndex(120000, Pow(10, 0), Step(false)) == 1;
    var p := Encoder.Plan(120000, 0, false, false);
    assert p == Encoder.Layout(1, 1000, 120, []);
    assert Render(120) == "120";
  }

  // ---------------------------------------------------------------------
  // str_parse_human_readable_u64's fixed-point accumulation
  // ---------------------------------------------------------------------

  /** The fraction loop as written: `num *= 10; num += digit` per digit, both in uint64_t. */
  function ShiftIn(num: nat, frac: seq<char>): (r: nat)
    requires num < U64 && AllDigits(frac)
    ensures r < U64
  {
    if frac == [] then num
    else (ShiftIn(num, frac[..|frac| - 1]) * 10 % U64 + DigitValue(frac[|frac| - 1])) % U64
  }

  /** The padding loop as written: `num *= 10` k times in uint64_t. */
  function Pad(num: nat, k: nat): (r: nat)
    requires num < U64
    ensures r < U64
  {
    if k == 0 then num else Pad(num, k - 1) * 10 % U64
  }

  /** The fixed-point value the code accumulates. */
  function FixedPoint(num: nat, frac: seq<char>, f0: nat): nat
    requires num < U64 && AllDigits(frac) && |frac| <= f0
  {
    Pad(ShiftIn(num, frac), f0 - |frac|)
  }

  /** One wrapped step `x = x * 10 + d` only sees x modulo 2^64. */
  lemma ModStep(x: nat, d: nat)
    ensures (x % U64 * 10 % U64 + d) % U64 == (x * 10 + d) % U64
  {
    var a := x % U64;
    var b := a * 10 % U64;
    DivBounds(x, U64);
    DivBounds(a * 10, U64);
    var q, q2 := x / U64, a * 10 / U64;
    assert x * 10 + d == (q * 10 + q2) * U64 + (b + d);
    DivAdd(q * 10 + q2, b + d, U64);
  }

  lemma {:induction false} ShiftWraps(num: nat, frac: seq<char>)
    requires num < U64 && AllDigits(frac)
    ensures ShiftIn(num, frac) == (num * Pow(10, |frac|) + Value(frac)) % U64
  {
    if frac != [] {
      var p := frac[..|frac| - 1];
      var d := DigitValue(frac[|frac| - 1]);
      var q, v := Pow(10, |p|), Value(p);
      ShiftWraps(num, p);
      assert Value(frac) == v * 10 + d && Pow(10, |frac|) == 10 * q;
      Shift(num, v, d, q);
      MulMonotone(0, 0, num, q);
      MulMonotone(0, 0, num, 10 * q);
      var x: nat := num * q + v;
      var y: nat := num * (10 * q) + (v * 10 + d);
      ShiftStep(ShiftIn(num, p), x, d, ShiftIn(num, frac), y);
    } else {
      DivUnique(num, U64, 0, num);
    }
  }

  /** ModStep with the operands named. */
  lemma ShiftStep(a: nat, x: nat, d: nat, r: nat, y: nat)
    requires a == x % U64 && r == (a * 10 % U64 + d) % U64 && y == x * 10 + d
    ensures r == y % U64
  {
    ModStep(x, d);
  }

  lemma {:induction false} PadWraps(y: nat, k: nat)
    ensures Pad(y % U64, k) == y * Pow(10, k) % U64
  {
    if k > 0 {
      PadWraps(y, k - 1);
      var z := y * Pow(10, k - 1);
      ModStep(z, 0);
      DivBounds(z % U64 * 10, U64);
      DivUnique(z % U64 * 10 % U64, U64, 0, z % U64 * 10 % U64);
      MulAssoc(y, Pow(10, k - 1), 10);
      MulComm(Pow(10, k - 1), 10);
    } else {
      DivBounds(y, U64);
    }
  }

  /** The code's accumulation is the exact fixed-point value modulo 2^64. */
  lemma FixedPointWraps(num: nat, frac: seq<char>, f0: nat)
    requires num < U64 && AllDigits(frac) && |frac| <= f0
    ensures FixedPoint(num, frac, f0) == Parser.FixedPoint(num, frac, f0) % U64
  {
    MulMonotone(0, 0, num, Pow(10, |frac|));
    var x: nat := num * Pow(10, |frac|) + Value(frac);
    var k := f0 - |frac|;
    assert Parser.FixedPoint(num, frac, f0) == x * Pow(10, k);
    assert FixedPoint(num, frac, f0) == Pad(ShiftIn(num, frac), k);
    ShiftWraps(num, frac);
    PadWraps(x, k);
  }

  /**
   * str_parse_human_readable_u64 as written: Parser.ParseU64 with the
   * fixed-point value accumulated in uint64_t, so the overflow guard sees
   * it after it has wrapped.
   */
  function ParseU64(hrn: seq<char>, fraction: int, binary: bool): (r: Option<nat>)
    requires NoNul(hrn) && Parser.NoLeadingSpaceOrSign(hrn)
    ensures r.Some? ==> r.value <= UINT64_MAX
  {
    var e := Parser.DigitRun(hrn, 0);
    var num := Value(hrn[..e]);
    if num > UINT64_MAX then None
    else if e == |hrn| then Some(num)
    else
      var f0 := Encoder.FractionDigits(fraction);
      var t := Parser.FractionCount(hrn, e, f0);
      var next := if hrn[e] == '.' then e + 1 + t else e;
      Parser.ApplyFactor(FixedPoint(num, hrn[e + 1..e + 1 + t], f0), Parser.TrailingFactor(hrn, Parser.SpaceRun(hrn, next), binary))
  }

  /**
   * The parser as written differs from the exact one only where the exact
   * one reports an error: every value the exact parser returns, the code
   * returns too.
   */
  lemma ParseAgrees(hrn: seq<char>, fraction: int, binary: bool)
    requires NoNul(hrn) && Parser.NoLeadingSpaceOrSign(hrn)
    ensures ParseU64(hrn, fraction, binary) != Parser.ParseU64(hrn, fraction, binary) ==>
              Parser.ParseU64(hrn, fraction, binary) == None
  {
    var e := Parser.DigitRun(hrn, 0);
    var num := Value(hrn[..e]);
    if num <= UINT64_MAX && e < |hrn| {
      var f0 := Encoder.FractionDigits(fraction);
      var t := Parser.FractionCount(hrn, e, f0);
      var next := if hrn[e] == '.' then e + 1 + t else e;
      var frac := hrn[e + 1..e + 1 + t];
      var x := Parser.FixedPoint(num, frac, f0);
      var factor := Parser.TrailingFactor(hrn, Parser.SpaceRun(hrn, next), binary);
      Parser.ParseRestSteps(hrn, e, num, fraction, binary, t, next);
      assert Parser.ParseU64(hrn, fraction, binary) == Parser.ApplyFactor(x, factor);
      FixedPointWraps(num, frac, f0);
      if x <= UINT64_MAX {
        DivUnique(x, U64, 0, x);
      } else if factor.Some? {
        Parser.ApplyFactorExact(x, factor.value);
        MulAtLeast(factor.value, x);
      }
    }
  }

  /**
   * "18446744073709551615." with one decimal: the exact value is ten times
   * UINT64_MAX, which is an error, but num *= 10 wraps to 2^64 - 10 and the
   * guard lets it through.
   */
  lemma ParseWrapsAround()
    ensures var s := Render(UINT64_MAX) + ".";
            && NoNul(s) && Parser.NoLeadingSpaceOrSign(s)
            && ParseU64(s, 1, false) == Some(18_446_744_073_709_551_606)
            && Parser.ParseU64(s, 1, false) == None
  {
    MaxWithPointRejected();
    MaxWithPointWraps();
  }

  /** The exact parser rejects "18446744073709551615." with one decimal. */
  lemma MaxWithPointRejected()
    ensures var s := Render(UINT64_MAX) + ".";
            && NoNul(s) && Parser.NoLeadingSpaceOrSign(s)
            && Parser.ParseU64(s, 1, false) == None
  {
    var whole := Render(UINT64_MAX);
    assert Parser.Format(whole, true, [], 0, None) == whole + ".";
    assert Pow(10, 0) == 1 && Pow(10, 1) == 10 && Value([]) == 0;
    assert Parser.FormatValue(whole, [], 1, 1) == UINT64_MAX * 10;
    Parser.ParseFormatted(whole, true, [], 0, None, 1, false);
  }

  /** The parser as written reads "18446744073709551615." with one decimal as 2^64 - 10. */
  lemma MaxWithPointWraps()
    ensures var s := Render(UINT64_MAX) + ".";
            && NoNul(s) && Parser.NoLeadingSpaceOrSign(s)
            && ParseU64(s, 1, false) == Some(18_446_744_073_709_551_606)
  {
    MaxWithPointRejected();
    var whole := Render(UINT64_MAX);
    var s := whole + ".";
    assert Parser.Format(whole, true, [], 0, None) == s;
    Parser.FormatScan(whole, true, [], 0, None, 1);
    var e := |whole|;
    Parser.ScanFraction(s, e, true, [], 1);
    Parser.ScanSuffix(s, Parser.SpaceRun(s, e + 1), None, false);
    assert Pad(UINT64_MAX, 1) == 18_446_744_073_709_551_606;
  }
}
