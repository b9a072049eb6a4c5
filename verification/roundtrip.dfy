/**
 * The human-readable codec end to end: what the encoder writes is a text
 * the parser reads, the parser takes back every encoding that does not
 * print more fractional digits than it is asked for, the value it reads
 * back is the number truncated to the last digit printed, and with raw
 * output the round trip is exact, for unsigned and signed numbers alike.
 */
module RoundTrip {
  import opened Wrappers
  import opened Decimal
  import opened Units
  import opened CString
  import opened Encoder
  import opened Parser

  /** The spaces and suffix the encoder writes behind the digits, in the parser's terms. */
  function Spacing(index: nat): nat {
    if index == 0 then 2 else 1
  }

  function Suffix(index: nat): Option<char>
    requires index < |SYMBOLS|
  {
    if index == 0 then None else Some(SYMBOLS[index])
  }

  /**
   * Without a unit the encoder writes a formatted number: the whole part,
   * '.' and the significant digits when there are any, then two spaces
   * without a suffix, or one space and the suffix symbol.
   */
  lemma EncodedFormat(outLen: nat, n: nat, fraction: int, binary: bool, raw: bool)
    requires n <= UINT64_MAX
    requires Capacity(fraction) <= outLen
    ensures var p := Plan(n, fraction, binary, raw);
            var sig := Significant(p.digits);
            HumanReadableU64(outLen, n, None, fraction, binary, raw)
              == Format(Render(p.whole), sig != [], sig, Spacing(p.index), Suffix(p.index))
  {
    var p := Plan(n, fraction, binary, raw);
    if p.index == 0 {
      assert Tail(2, None) == [' ', SYMBOLS[0]];
    } else {
      assert Tail(1, Some(SYMBOLS[p.index])) == [' ', SYMBOLS[p.index]];
    }
  }

  /** The parts of an encoding meet the parser's grammar whenever the digits fit the fraction. */
  lemma EncodedWellFormatted(n: nat, fraction: int, binary: bool, raw: bool)
    requires n <= UINT64_MAX
    ensures var p := Plan(n, fraction, binary, raw);
            var sig := Significant(p.digits);
            |sig| <= FractionDigits(fraction) ==>
              && WellFormatted(Render(p.whole), sig != [], sig, Spacing(p.index), Suffix(p.index), FractionDigits(fraction))
              && Value(Render(p.whole)) <= UINT64_MAX
  {
    var p := Plan(n, fraction, binary, raw);
    SignificantValue(p.digits);
    if p.index != 0 {
      SuffixPowerInvertsSymbols(SYMBOLS[p.index]);
    }
    DivBounds(n, p.multiplier);
  }

  /**
   * Encoding and parsing back: the parser accepts the text exactly when it
   * holds no more fractional digits than the fraction, and then reads a
   * value v no larger than n, short of it by less than one unit of the last
   * digit the encoder computed, and equal to n when those digits left no
   * remainder.
   */
  lemma Reparse(outLen: nat, n: nat, fraction: int, binary: bool, raw: bool)
    requires n <= UINT64_MAX
    requires Capacity(fraction) <= outLen
    ensures var s := HumanReadableU64(outLen, n, None, fraction, binary, raw);
            NoNul(s) && NoLeadingSpaceOrSign(s)
    ensures var s := HumanReadableU64(outLen, n, None, fraction, binary, raw);
            var p := Plan(n, fraction, binary, raw);
            && (ParseU64(s, fraction, binary).Some? <==> |Significant(p.digits)| <= FractionDigits(fraction))
            && (ParseU64(s, fraction, binary).Some? ==>
                  var v := ParseU64(s, fraction, binary).value;
                  && v <= n && (n - v) * Pow(10, |p.digits|) < p.multiplier
                  && (n * Pow(10, |p.digits|) % p.multiplier == 0 ==> v == n))
  {
    var p := Plan(n, fraction, binary, raw);
    EncodedFormat(outLen, n, fraction, binary, raw);
    SignificantValue(p.digits);
    if |Significant(p.digits)| <= FractionDigits(fraction) {
      ReparseAccepted(n, fraction, binary, raw);
    } else {
      ReparseRejected(n, fraction, binary, raw);
    }
  }

  /** The encoding's text, given its parts, when the digits fit the fraction. */
  lemma ReparseAccepted(n: nat, fraction: int, binary: bool, raw: bool)
    requires n <= UINT64_MAX
    requires |Significant(Plan(n, fraction, binary, raw).digits)| <= FractionDigits(fraction)
    ensures var p := Plan(n, fraction, binary, raw);
            var sig := Significant(p.digits);
            var s := Format(Render(p.whole), sig != [], sig, Spacing(p.index), Suffix(p.index));
            && NoNul(s) && NoLeadingSpaceOrSign(s)
            && ParseU64(s, fraction, binary).Some?
            && var v := ParseU64(s, fraction, binary).value;
               && v <= n && (n - v) * Pow(10, |p.digits|) < p.multiplier
               && (n * Pow(10, |p.digits|) % p.multiplier == 0 ==> v == n)
  {
    var v := ParsedValue(n, fraction, binary, raw);
    PlanBounds(n, fraction, binary, raw, v);
  }

  /** How far the value read back lies below the number the plan was made for. */
  lemma PlanBounds(n: nat, fraction: int, binary: bool, raw: bool, v: nat)
    requires n <= UINT64_MAX
    requires var p := Plan(n, fraction, binary, raw);
             var sig := Significant(p.digits);
             && |sig| <= FractionDigits(fraction)
             && v == FixedPoint(p.whole, sig, FractionDigits(fraction)) * Pow(Step(binary), p.index)
    ensures var p := Plan(n, fraction, binary, raw);
            && v <= n && (n - v) * Pow(10, |p.digits|) < p.multiplier
            && (n * Pow(10, |p.digits|) % p.multiplier == 0 ==> v == n)
  {
    var p := Plan(n, fraction, binary, raw);
    SignificantValue(p.digits);
    ReparseValue(n, p, Significant(p.digits), FractionDigits(fraction), Step(binary), v);
  }

  /** What ParseFormatted says about an encoding whose digits fit the fraction. */
  lemma ParsedValue(n: nat, fraction: int, binary: bool, raw: bool) returns (v: nat)
    requires n <= UINT64_MAX
    requires |Significant(Plan(n, fraction, binary, raw).digits)| <= FractionDigits(fraction)
    ensures var p := Plan(n, fraction, binary, raw);
            var sig := Significant(p.digits);
            var s := Format(Render(p.whole), sig != [], sig, Spacing(p.index), Suffix(p.index));
            && NoNul(s) && NoLeadingSpaceOrSign(s)
            && AllDigits(sig)
            && v == FixedPoint(p.whole, sig, FractionDigits(fraction)) * Pow(Step(binary), p.index)
            && ParseU64(s, fraction, binary) == if v <= UINT64_MAX then Some(v) else None
  {
    var p := Plan(n, fraction, binary, raw);
    var sig := Significant(p.digits);
    var f0 := FractionDigits(fraction);
    var whole := Render(p.whole);
    SignificantValue(p.digits);
    EncodedWellFormatted(n, fraction, binary, raw);
    ParseFormatted(whole, sig != [], sig, Spacing(p.index), Suffix(p.index), fraction, binary);
    var factor := SuffixFactorOf(p.index, binary);
    v := FormatValue(whole, sig, f0, factor);
  }

  /** The encoding's text, given its parts, when it holds more digits than the fraction. */
  lemma ReparseRejected(n: nat, fraction: int, binary: bool, raw: bool)
    requires n <= UINT64_MAX
    requires |Significant(Plan(n, fraction, binary, raw).digits)| > FractionDigits(fraction)
    ensures var p := Plan(n, fraction, binary, raw);
            var sig := Significant(p.digits);
            var s := Format(Render(p.whole), sig != [], sig, Spacing(p.index), Suffix(p.index));
            NoNul(s) && NoLeadingSpaceOrSign(s) && ParseU64(s, fraction, binary) == None
  {
    var p := Plan(n, fraction, binary, raw);
    var sig := Significant(p.digits);
    var whole := Render(p.whole);
    var tail := Tail(Spacing(p.index), Suffix(p.index));
    SignificantValue(p.digits);
    assert Format(whole, true, sig, Spacing(p.index), Suffix(p.index)) == whole + ['.'] + sig + tail;
    SurplusDigits(whole, sig, tail, fraction, binary);
  }

  /** The factor the parser applies to the suffix the encoder wrote for index k. */
  lemma SuffixFactorOf(index: nat, binary: bool) returns (factor: nat)
    requires index < |SYMBOLS|
    ensures factor == Pow(Step(binary), index)
    ensures factor == if Suffix(index).Some? then Pow(Step(binary), SuffixPower(Suffix(index).value).value) else 1
  {
    factor := Pow(Step(binary), index);
    if index != 0 {
      SuffixPowerInvertsSymbols(SYMBOLS[index]);
    }
  }

  /** The value the parser reads from an encoding, against the number encoded. */
  lemma ReparseValue(n: nat, p: Layout, sig: seq<char>, f0: nat, step: nat, v: nat)
    requires step >= 1 && p.multiplier >= 1 && p.multiplier == Pow(10, f0) * Pow(step, p.index)
    requires AllDigits(p.digits) && AllDigits(sig) && |sig| <= |p.digits| && |sig| <= f0
    requires p.whole * Pow(10, |p.digits|) + Value(p.digits) == n * Pow(10, |p.digits|) / p.multiplier
    requires Value(p.digits) == Value(sig) * Pow(10, |p.digits| - |sig|)
    requires v == FixedPoint(p.whole, sig, f0) * Pow(step, p.index)
    ensures v <= n && (n - v) * Pow(10, |p.digits|) < p.multiplier
    ensures n * Pow(10, |p.digits|) % p.multiplier == 0 ==> v == n
  {
    PowAdd(10, |sig|, |p.digits| - |sig|);
    PowAdd(10, |sig|, f0 - |sig|);
    PowPositive(10, |p.digits|);
    ReparseArith(n, p.whole, Value(p.digits), Value(sig), Pow(10, |p.digits|), Pow(10, |p.digits| - |sig|),
                 Pow(10, f0 - |sig|), Pow(10, |sig|), Pow(step, p.index), p.multiplier, v);
  }

  /**
   * The arithmetic of ReparseValue: with d == s * z digits computed, of
   * which the last z are zeros, and the parser padding by e back to
   * s * e == 10^f, the value read is n truncated to a unit of m / d.
   */
  lemma ReparseArith(n: nat, w: nat, big: nat, small: nat, d: nat, z: nat, e: nat, s: nat, sk: nat, m: nat, v: nat)
    requires d >= 1 && m >= 1 && d == s * z && m == (s * e) * sk
    requires w * d + big == n * d / m && big == small * z
    requires v == (w * s + small) * e * sk
    ensures v <= n && (n - v) * d < m
    ensures n * d % m == 0 ==> v == n
  {
    var x := w * s + small;
    var q := w * d + big;
    assert q == x * z by {
      MulAssoc(w, s, z);
      MulDistrib(w * s, small, z);
    }
    assert v * d == q * m by {
      Regroup(x, z, e, s, sk);
    }
    DivBounds(n * d, m);
    var r := n * d % m;
    assert n * d == q * m + r;
    Cancel(v, n, d, r, m);
  }

  /** ((x * e) * k) * (s * z) regrouped as (x * z) * ((s * e) * k). */
  lemma Regroup(x: nat, z: nat, e: nat, s: nat, k: nat)
    ensures (x * e * k) * (s * z) == (x * z) * ((s * e) * k)
  {
    MulAssoc(x * e * k, s, z);
    MulComm(x * e * k * s, z);
    MulAssoc(z, x * e * k, s);
    MulAssoc(z, x * e, k);
    MulAssoc(z, x, e);
    MulComm(z, x);
    MulAssoc(x * z, e, k);
    MulAssoc(x * z, e * k, s);
    MulComm(e * k, s);
    MulAssoc(s, e, k);
  }

  /** From v * d + r == n * d with 0 <= r < m: v <= n, (n - v) * d < m, and r == 0 gives v == n. */
  lemma Cancel(v: nat, n: nat, d: nat, r: nat, m: nat)
    requires d >= 1 && r < m && n * d == v * d + r
    ensures v <= n && (n - v) * d < m
    ensures r == 0 ==> v == n
  {
    if v > n {
      MulMonotone(n + 1, d, v, d);
    }
    assert (n - v) * d == n * d - v * d;
    if r == 0 && v < n {
      MulAtLeast(n - v, d);
    }
  }

  /**
   * Raw output round-trips: the parser reads the raw encoding of n with the
   * same fraction and step back as n itself.
   */
  lemma RawRoundTrip(outLen: nat, n: nat, fraction: int, binary: bool)
    requires n <= UINT64_MAX
    requires Capacity(fraction) <= outLen
    ensures var s := HumanReadableU64(outLen, n, None, fraction, binary, true);
            NoNul(s) && NoLeadingSpaceOrSign(s) && ParseU64(s, fraction, binary) == Some(n)
  {
    var p := Plan(n, fraction, binary, true);
    Reparse(outLen, n, fraction, binary, true);
    RawDigitsExact(n, fraction, binary);
  }

  /** Raw digits fit the fraction and leave no remainder. */
  lemma RawDigitsExact(n: nat, fraction: int, binary: bool)
    requires n <= UINT64_MAX
    ensures var p := Plan(n, fraction, binary, true);
            && |Significant(p.digits)| <= FractionDigits(fraction)
            && n * Pow(10, |p.digits|) % p.multiplier == 0
  {
    var p := Plan(n, fraction, binary, true);
    if |p.digits| == FractionDigits(fraction) {
      assert p.multiplier == Pow(10, |p.digits|);
      DivAdd(n, 0, p.multiplier);
    }
  }

  /**
   * Signed raw output round-trips through str_parse_human_readable_s64,
   * INT64_MIN included, with the encoder's documented sign handling.
   */
  lemma SignedRawRoundTrip(size: nat, x: int, fraction: int, binary: bool)
    requires IsInt64(x)
    requires Capacity(fraction) + (if x < 0 then 1 else 0) <= size
    ensures var s := HumanReadableS64(size, x, None, fraction, binary, true);
            && NoNul(s)
            && NoLeadingSpaceOrSign(if |s| > 0 && s[0] == '-' then s[1..] else s)
            && ParseS64(s, fraction, binary) == Some(x)
  {
    if x < 0 {
      NegativeRawRoundTrip(size, x, fraction, binary);
    } else {
      RawRoundTrip(size, x, fraction, binary);
    }
  }

  /** A negative number is '-' followed by the raw text of its magnitude, and parses back. */
  lemma NegativeRawRoundTrip(size: nat, x: int, fraction: int, binary: bool)
    requires IsInt64(x) && x < 0
    requires Capacity(fraction) + 1 <= size
    ensures var s := HumanReadableS64(size, x, None, fraction, binary, true);
            && |s| > 0 && s[0] == '-' && NoNul(s) && NoLeadingSpaceOrSign(s[1..])
            && ParseS64(s, fraction, binary) == Some(x)
  {
    var s := HumanReadableS64(size, x, None, fraction, binary, true);
    var u := HumanReadableU64(size - 1, Magnitude(x), None, fraction, binary, true);
    RawRoundTrip(size - 1, Magnitude(x), fraction, binary);
    assert s == ['-'] + u by {
      assert s[1..] == u;
    }
    ParseNegative(s, u, fraction, binary, Magnitude(x));
  }

  /** '-' in front of the text of m, up to 2^63, parses as -m. */
  lemma ParseNegative(s: seq<char>, u: seq<char>, fraction: int, binary: bool, m: nat)
    requires s == ['-'] + u && NoNul(u) && NoLeadingSpaceOrSign(u)
    requires ParseU64(u, fraction, binary) == Some(m) && 0 < m <= 0x8000_0000_0000_0000
    ensures NoNul(s) && s[1..] == u && ParseS64(s, fraction, binary) == Some(-(m as int))
  {
    assert s[1..] == u;
    if m == 0x8000_0000_0000_0000 {
      assert ToS64(m) == -(m as int);
    }
  }

  /** The documented example: 120000 encodes as "120 k". */
  lemma EncodeKilo()
    ensures HumanReadableU64(32, 120000, None, 0, false, false) == "120 k"
  {
    KiloLayout();
    assert Render(120) == "120";
  }

  lemma KiloLayout()
    ensures Plan(120000, 0, false, false) == Layout(1, 1000, 120, [])
  {
    assert Pow(1000, 2) == 1_000_000;
    assert ScaleFrom(120000, 1, 1000, 1) == 1;
    assert ScaleIndex(120000, Pow(10, 0), Step(false)) == 1;
  }

  /** Zero encodes as "0" and the two spaces of an empty suffix. */
  lemma EncodeZero(outLen: nat, fraction: int, binary: bool, raw: bool)
    requires Capacity(fraction) <= outLen
    ensures HumanReadableU64(outLen, 0, None, fraction, binary, raw) == "0  "
  {
    assert ScaleFrom(0, Pow(10, FractionDigits(fraction)), Step(binary), 0) == 0 by {
      PowPositive(10, FractionDigits(fraction));
      PowPositive(Step(binary), 1);
      MulAtLeast(Pow(10, FractionDigits(fraction)), Pow(Step(binary), 1));
    }
    var p := Plan(0, fraction, binary, raw);
    assert p.whole == 0 && p.digits == [];
    assert Render(0) == "0";
  }

  /** 1024 in binary units is "1 k". */
  lemma EncodeKibi()
    ensures HumanReadableU64(32, 1024, None, 0, true, false) == "1 k"
  {
    KibiLayout();
    assert Render(1) == "1";
  }

  lemma KibiLayout()
    ensures Plan(1024, 0, true, false) == Layout(1, 1024, 1, [])
  {
    assert Pow(1024, 2) == 1_048_576;
    assert ScaleFrom(1024, 1, 1024, 1) == 1;
    assert ScaleIndex(1024, Pow(10, 0), Step(true)) == 1;
  }

  /**
   * With a suffix the encoder prints three fractional digits whatever the
   * fraction: 1234567 hundredths become "12.345 k", which the parser with
   * two decimals rejects.
   */
  lemma SuffixedNotReparsed()
    ensures HumanReadableU64(32, 1234567, None, 2, false, false) == "12.345 k"
    ensures NoNul("12.345 k") && NoLeadingSpaceOrSign("12.345 k")
    ensures ParseU64("12.345 k", 2, false) == None
  {
    SuffixedLayout();
    assert Render(12) == "12";
    assert Significant("345") == "345";
    SurplusDigits("12", "345", " k", 2, false);
    assert "12" + ['.'] + "345" + " k" == "12.345 k";
  }

  lemma SuffixedLayout()
    ensures Plan(1234567, 2, false, false) == Layout(1, 100000, 12, "345")
  {
    assert Pow(10, 1) == 10 && Pow(10, 2) == 100;
    assert Pow(1000, 1) == 1000 && Pow(1000, 2) == 1_000_000;
    assert ScaleFrom(1234567, 100, 1000, 1) == 1;
    assert ScaleFrom(1234567, 100, 1000, 0) == 1;
    assert DigitChar(3) == '3' && DigitChar(4) == '4' && DigitChar(5) == '5';
    assert FracDigits(67000, 100000, 0) == [];
    assert 56700 * 10 / 100000 == 5 && 56700 * 10 % 100000 == 67000;
    assert FracDigits(56700, 100000, 1) == "5";
    assert 45670 * 10 / 100000 == 4 && 45670 * 10 % 100000 == 56700;
    assert FracDigits(45670, 100000, 2) == "45";
    assert 34567 * 10 / 100000 == 3 && 34567 * 10 % 100000 == 45670;
    assert FracDigits(34567, 100000, 3) == "345";
    assert FractionDigits(2) == 2 && Step(false) == 1000;
    assert ScaleIndex(1234567, 100, 1000) == 1;
    assert 100 * Pow(1000, 1) == 100000;
    assert 1234567 / 100000 == 12 && 1234567 % 100000 == 34567;
  }
}
