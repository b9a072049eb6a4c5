/**
 * The human-readable number encoder of src-api/common/string.c:
 * _get_human_readable_u64 and its wrappers str_get_human_readable_u64 and
 * str_get_human_readable_s64.
 *
 * The arithmetic here is exact: this is the encoder as its documentation
 * and callers intend it. The code as written lets two uint64_t products
 * wrap, trips its own assert for binary steps, and drops the minus sign of
 * negative numbers; module AsWritten models those variants and shows where
 * they part from this one.
 */
module Encoder {
  import opened Wrappers
  import opened Decimal
  import opened Units
  import opened CString

  /** The number of fractional digits a requested count stands for: none when it is <= 0. */
  function FractionDigits(fraction: int): nat {
    if fraction > 0 then fraction else 0
  }

  /**
   * The scaling loop from suffix index k on: it advances while a symbol is
   * left (the table's terminator stops it) and number >= m0 * step^(k+1).
   */
  function ScaleFrom(number: nat, m0: nat, step: nat, k: nat): (j: nat)
    requires k <= |SYMBOLS|
    ensures k <= j <= |SYMBOLS|
    ensures j == k || number >= m0 * Pow(step, j)
    ensures j == |SYMBOLS| || number < m0 * Pow(step, j + 1)
    decreases |SYMBOLS| - k
  {
    if k < |SYMBOLS| && number >= m0 * Pow(step, k + 1) then ScaleFrom(number, m0, step, k + 1) else k
  }

  /** The suffix index the scaling loop settles on. */
  function ScaleIndex(number: nat, m0: nat, step: nat): nat {
    ScaleFrom(number, m0, step, 0)
  }

  /**
   * The chosen index is the largest power of the step, up to the table's
   * end, with number >= m0 * step^k.
   */
  lemma ScaleIndexIsLargest(number: nat, m0: nat, step: nat, k: nat)
    requires m0 >= 1 && step >= 1 && k <= |SYMBOLS|
    ensures k <= ScaleIndex(number, m0, step) <==> k == 0 || number >= m0 * Pow(step, k)
  {
    var j := ScaleIndex(number, m0, step);
    if 0 < k <= j {
      PowMonotone(step, k, j);
      MulMonotone(m0, Pow(step, k), m0, Pow(step, j));
    } else if k > j {
      PowMonotone(step, j + 1, k);
      MulMonotone(m0, Pow(step, j + 1), m0, Pow(step, k));
    }
  }

  /** A 64-bit number never scales past 'E': the terminator is out of reach. */
  lemma ScaleStopsAtE(number: nat, m0: nat, step: nat)
    requires number <= UINT64_MAX && m0 >= 1 && step >= 1000
    ensures ScaleIndex(number, m0, step) < |SYMBOLS|
  {
    if ScaleIndex(number, m0, step) == |SYMBOLS| {
      PowBaseMonotone(1000, step, 7);
      assert Pow(1000, 7) == 1_000_000_000_000_000_000_000;
      MulMonotone(1, Pow(step, 7), m0, Pow(step, 7));
    }
  }

  /**
   * The digit loop: up to budget fractional digits of rem / m, stopping
   * early once the remainder is zero. Each digit is rem * 10 / m.
   */
  function FracDigits(rem: nat, m: nat, budget: nat): (ds: seq<char>)
    requires rem < m
    ensures |ds| <= budget && AllDigits(ds)
    ensures Value(ds) == rem * Pow(10, |ds|) / m
    ensures |ds| < budget ==> rem * Pow(10, |ds|) % m == 0
    decreases budget
  {
    if rem == 0 || budget == 0 then []
    else
      var rest := FracDigits(rem * 10 % m, m, budget - 1);
      DigitStep(rem, m, rest);
      [DigitChar(rem * 10 / m)] + rest
  }

  /** One round of the digit loop, given what the rounds behind it produce. */
  lemma DigitStep(rem: nat, m: nat, rest: seq<char>)
    requires rem < m && AllDigits(rest)
    requires Value(rest) == rem * 10 % m * Pow(10, |rest|) / m
    ensures rem * 10 / m < 10
    ensures var ds := [DigitChar(rem * 10 / m)] + rest;
            && AllDigits(ds)
            && Value(ds) == rem * Pow(10, |ds|) / m
            && (rem * 10 % m * Pow(10, |rest|) % m == 0 ==> rem * Pow(10, |ds|) % m == 0)
  {
    var d, r, p := rem * 10 / m, rem * 10 % m, Pow(10, |rest|);
    DigitBound(rem, m);
    var ds := [DigitChar(d)] + rest;
    ValueConcat([ds[0]], rest);
    assert [ds[0]] + rest == ds;
    assert Pow(10, |ds|) == 10 * p;
    Shifted(rem, m, p);
  }

  lemma DigitBound(rem: nat, m: nat)
    requires rem < m
    ensures rem * 10 / m < 10
    ensures rem * 10 == (rem * 10 / m) * m + rem * 10 % m
  {
    var d, r := rem * 10 / m, rem * 10 % m;
    DivUnique(rem * 10, m, d, r);
    if d >= 10 {
      MulMonotone(10, m, d, m);
    }
  }

  /** Scaling x == d * m + r by p scales both parts. */
  lemma SplitProduct(y: int, x: int, p: int, d: int, m: int, r: int)
    requires y == x * p && x == d * m + r
    ensures y == (d * p) * m + r * p
  {
    MulDistrib(d * m, r, p);
    MulAssoc(d, m, p);
    MulComm(m, p);
    MulAssoc(d, p, m);
  }

  /** The remainder scaled by p splits into d * p whole units of m and the rest. */
  lemma Shifted(rem: nat, m: nat, p: nat)
    requires rem < m
    ensures (rem * 10 / m) * p + (rem * 10 % m) * p / m == rem * (10 * p) / m
    ensures (rem * 10 % m) * p % m == rem * (10 * p) % m
  {
    var x, d, r := rem * 10, rem * 10 / m, rem * 10 % m;
    DigitBound(rem, m);
    SplitProduct(rem * (10 * p), x, p, d, m, r) by {
      MulAssoc(rem, 10, p);
    }
    DivAdd(d * p, r * p, m);
  }

  /** The digits with the trailing zeros the encoder drops removed. */
  function Significant(ds: seq<char>): (sig: seq<char>)
    ensures |sig| <= |ds| && sig == ds[..|sig|]
    ensures sig == [] || sig[|sig| - 1] != '0'
    ensures forall i :: |sig| <= i < |ds| ==> ds[i] == '0'
  {
    if ds == [] || ds[|ds| - 1] != '0' then ds else Significant(ds[..|ds| - 1])
  }

  /** Dropping trailing zeros divides the value by ten per zero. */
  lemma SignificantValue(ds: seq<char>)
    requires AllDigits(ds)
    ensures var sig := Significant(ds);
            AllDigits(sig) && Value(ds) == Value(sig) * Pow(10, |ds| - |sig|)
  {
    var sig := Significant(ds);
    var zs := ds[|sig|..];
    assert ds == sig + zs;
    ValueOfZeros(zs);
    ValueConcat(sig, zs);
  }

  /**
   * How _get_human_readable_u64 lays out a number: suffix index, the
   * multiplier 10^f * step^index, the whole part and the fractional digits
   * it computes (before trailing zeros are dropped).
   */
  datatype Layout = Layout(index: nat, multiplier: nat, whole: nat, digits: seq<char>)

  /**
   * The layout: raw output never scales. Without a suffix the loop prints
   * digits until the remainder is zero, which happens within f digits as
   * the multiplier is 10^f; with a suffix at most 3 digits are printed.
   */
  function Plan(number: nat, fraction: int, binary: bool, raw: bool): (p: Layout)
    requires number <= UINT64_MAX
    ensures p.index < |SYMBOLS| && p.multiplier >= 1 && p.whole <= number
    ensures p.multiplier == Pow(10, FractionDigits(fraction)) * Pow(Step(binary), p.index)
    ensures raw ==> p.index == 0
    ensures !raw ==> p.index == ScaleIndex(number, Pow(10, FractionDigits(fraction)), Step(binary))
    ensures p == Arrange(number, p.index, p.multiplier, Budget(p.index, fraction))
  {
    var m0 := Pow(10, FractionDigits(fraction));
    PowPositive(10, FractionDigits(fraction));
    ScaleStopsAtE(number, m0, Step(binary));
    var k := if raw then 0 else ScaleIndex(number, m0, Step(binary));
    Arrange(number, k, Multiplier(fraction, binary, k), Budget(k, fraction))
  }

  /** 10^f for the fractional digits times the step once per suffix. */
  function Multiplier(fraction: int, binary: bool, index: nat): (m: nat)
    ensures m >= 1 && m == Pow(10, FractionDigits(fraction)) * Pow(Step(binary), index)
  {
    PowPositive(10, FractionDigits(fraction));
    PowPositive(Step(binary), index);
    MulMonotone(1, 1, Pow(10, FractionDigits(fraction)), Pow(Step(binary), index));
    Pow(10, FractionDigits(fraction)) * Pow(Step(binary), index)
  }

  /** Fractional digits printed: up to f without a suffix, up to 3 with one. */
  function Budget(index: nat, fraction: int): nat {
    if index == 0 then FractionDigits(fraction) else 3
  }

  /**
   * The layout at multiplier m: the whole units, then at most budget
   * fractional digits, stopping early only when nothing remains.
   */
  function Arrange(number: nat, k: nat, m: nat, budget: nat): (p: Layout)
    requires m >= 1
    ensures p.index == k && p.multiplier == m && p.whole <= number
    ensures AllDigits(p.digits) && |p.digits| <= budget
    ensures p.whole * Pow(10, |p.digits|) + Value(p.digits) == number * Pow(10, |p.digits|) / m
    ensures |p.digits| < budget ==> number * Pow(10, |p.digits|) % m == 0
  {
    DivBounds(number, m);
    var ds := FracDigits(number % m, m, budget);
    PlanValue(number, m, Pow(10, |ds|));
    Layout(k, m, number / m, ds)
  }

  /** Whole units of m, then the remainder scaled by p: together number * p / m. */
  lemma PlanValue(number: int, m: int, p: int)
    requires number >= 0 && m >= 1
    ensures (number / m) * p + number % m * p / m == number * p / m
    ensures number % m * p % m == number * p % m
  {
    var q, r := number / m, number % m;
    SplitProduct(number * p, number, p, q, m, r);
    DivAdd(q * p, r * p, m);
  }

  /**
   * The text _get_human_readable_u64 writes before the unit: the whole part,
   * '.' and the significant fractional digits when there are any, then ' '
   * and the suffix symbol (' ' for none).
   */
  function Body(number: nat, fraction: int, binary: bool, raw: bool): (s: seq<char>)
    requires number <= UINT64_MAX
    ensures NoNul(s)
  {
    var p := Plan(number, fraction, binary, raw);
    var sig := Significant(p.digits);
    Render(p.whole) + (if sig == [] then [] else ['.'] + sig) + [' ', SYMBOLS[p.index]]
  }

  /**
   * The bytes of the output buffer the code writes: snprintf's digits and
   * terminator, '.', every fractional digit computed, and the final three
   * bytes behind the last significant one.
   */
  function Footprint(number: nat, fraction: int, binary: bool, raw: bool): nat
    requires number <= UINT64_MAX
  {
    var p := Plan(number, fraction, binary, raw);
    var written := |Render(p.whole)| + 1 + |p.digits|;
    var body := |Body(number, fraction, binary, raw)| + 1;
    if written >= body then written else body
  }

  /**
   * The buffer size that holds every encoding with this fraction count: the
   * 20 digits of a uint64_t, '.', the fractional digits (at most 3 with a
   * suffix), ' ', the symbol and the terminator. A human_readable_str is a
   * buffer sized for this worst case.
   */
  function Capacity(fraction: int): nat {
    var d := FractionDigits(fraction);
    24 + (if d > 3 then d else 3)
  }

  /** The bytes the encoder writes always fit in that capacity. */
  lemma FootprintWithin(number: nat, fraction: int, binary: bool, raw: bool)
    requires number <= UINT64_MAX
    ensures Footprint(number, fraction, binary, raw) <= Capacity(fraction)
  {
    var p := Plan(number, fraction, binary, raw);
    WholeDigits(p.whole);
    BodyLength(number, fraction, binary, raw);
  }

  /** A uint64_t has at most 20 decimal digits. */
  lemma WholeDigits(w: nat)
    requires w <= UINT64_MAX
    ensures |Render(w)| <= 20
  {
    assert Pow(10, 5) == 100_000;
    PowAdd(10, 5, 5);
    PowAdd(10, 10, 10);
    assert Pow(10, 20) == 100_000_000_000_000_000_000;
    RenderLength(w, 20);
  }

  /** The body's length: the whole part, '.' and the significant digits when any, ' ' and the symbol. */
  lemma BodyLength(number: nat, fraction: int, binary: bool, raw: bool)
    requires number <= UINT64_MAX
    ensures var p := Plan(number, fraction, binary, raw);
            |Body(number, fraction, binary, raw)| <= |Render(p.whole)| + 1 + |p.digits| + 2
  {
  }

  /**
   * _get_human_readable_u64 (and str_get_human_readable_u64, which passes
   * its buffer's size as outLen): the string it returns. The
   * unit, when given, is appended by strscat within outLen.
   */
  function HumanReadableU64(outLen: nat, number: nat, unit: Option<seq<char>>, fraction: int, binary: bool, raw: bool): (r: seq<char>)
    requires number <= UINT64_MAX
    requires unit.Some? ==> NoNul(unit.value)
    requires Capacity(fraction) <= outLen
    ensures unit.None? ==> r == Body(number, fraction, binary, raw)
    ensures unit.Some? ==>
              var s := Body(number, fraction, binary, raw) + unit.value;
              r == s[..Min(|s|, outLen - 1)]
  {
    FootprintWithin(number, fraction, binary, raw);
    var body := Body(number, fraction, binary, raw);
    // the bytes behind the terminator are not modelled; the buffer holds NUL there
    var buf := body + Zeros(outLen - |body|);
    StrLenOfTerminated(body, Zeros(outLen - |body|));
    if unit.None? then Str(buf)
    else
      var src := unit.value + [NUL];
      StrLenOfTerminated(unit.value, [NUL]);
      Str(Strscat(Some(buf), Some(src), outLen).value)
  }

  /** A signed 64-bit integer. */
  predicate IsInt64(n: int) {
    -0x8000_0000_0000_0000 <= n < 0x8000_0000_0000_0000
  }

  /** The magnitude of a signed 64-bit number, as uint64_t (INT64_MIN's fits). */
  function Magnitude(n: int): (m: nat)
    requires IsInt64(n)
    ensures m <= UINT64_MAX
  {
    if n < 0 then -n else n
  }

  /**
   * str_get_human_readable_s64 as documented: '-' and then the magnitude,
   * encoded in the rest of the buffer, for every negative number.
   */
  function HumanReadableS64(size: nat, number: int, unit: Option<seq<char>>, fraction: int, binary: bool, raw: bool): (r: seq<char>)
    requires IsInt64(number)
    requires unit.Some? ==> NoNul(unit.value)
    requires Capacity(fraction) + (if number < 0 then 1 else 0) <= size
    ensures |r| > 0 && (r[0] == '-' <==> number < 0)
    ensures number < 0 ==> r[1..] == HumanReadableU64(size - 1, Magnitude(number), unit, fraction, binary, raw)
    ensures number >= 0 ==> r == HumanReadableU64(size, number, unit, fraction, binary, raw)
  {
    if number < 0 then ['-'] + HumanReadableU64(size - 1, Magnitude(number), unit, fraction, binary, raw)
    else
      StartsWithDigit(size, number, unit, fraction, binary, raw);
      HumanReadableU64(size, number, unit, fraction, binary, raw)
  }

  /** The encoding of a magnitude starts with a digit of its whole part. */
  lemma StartsWithDigit(outLen: nat, number: nat, unit: Option<seq<char>>, fraction: int, binary: bool, raw: bool)
    requires number <= UINT64_MAX
    requires unit.Some? ==> NoNul(unit.value)
    requires Capacity(fraction) <= outLen
    ensures var r := HumanReadableU64(outLen, number, unit, fraction, binary, raw);
            |r| > 0 && IsDigit(r[0])
  {
    BodyStartsWithDigit(number, fraction, binary, raw);
  }

  /** The body is at least a digit, ' ' and the symbol, and begins with the digit. */
  lemma BodyStartsWithDigit(number: nat, fraction: int, binary: bool, raw: bool)
    requires number <= UINT64_MAX
    ensures var body := Body(number, fraction, binary, raw);
            |body| >= 3 && IsDigit(body[0]) && Footprint(number, fraction, binary, raw) > |body|
  {
    var p := Plan(number, fraction, binary, raw);
    var w := Render(p.whole);
    assert IsDigit(w[0]);
    var body := Body(number, fraction, binary, raw);
    assert body[0] == w[0];
  }
}
