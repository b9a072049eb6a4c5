/**
 * The human-readable number parser of src-api/common/string.c:
 * str_parse_human_readable_u64 and str_parse_human_readable_s64.
 *
 * A result with fraction f is a fixed-point number in units of 10^-f, the
 * same convention the encoder reads its input in: "1.5 k" with f = 2 is
 * 150000 hundredths. The arithmetic here is exact; the code as written lets
 * the fraction scaling wrap (see module AsWritten).
 */
module Parser {
  import opened Wrappers
  import opened Decimal
  import opened Units
  import opened CType
  import opened CString
  import opened Encoder

  /**
   * strtoull skips leading whitespace and takes a sign; the model of strtoull
   * here starts at a digit run, so the text must not start with either.
   */
  predicate NoLeadingSpaceOrSign(s: seq<char>) {
    s == [] || !(IsSpace(s[0]) || s[0] == '+' || s[0] == '-')
  }

  /** The end of the run of decimal digits starting at i. */
  function DigitRun(s: seq<char>, i: nat): (j: nat)
    requires i <= |s|
    ensures i <= j <= |s|
    ensures forall k :: i <= k < j ==> IsDigit(s[k])
    ensures j < |s| ==> !IsDigit(s[j])
    decreases |s| - i
  {
    if i < |s| && IsDigit(s[i]) then DigitRun(s, i + 1) else i
  }

  /** The end of the run of ' ' characters starting at i (only ' ', not all whitespace). */
  function SpaceRun(s: seq<char>, i: nat): (j: nat)
    requires i <= |s|
    ensures i <= j <= |s|
    ensures forall k :: i <= k < j ==> s[k] == ' '
    ensures j < |s| ==> s[j] != ' '
    decreases |s| - i
  {
    if i < |s| && s[i] == ' ' then SpaceRun(s, i + 1) else i
  }

  /** The factor the text from `at` on asks for: 1 at the end, else exactly one suffix character. */
  function TrailingFactor(s: seq<char>, at: nat, binary: bool): (f: Option<nat>)
    requires at <= |s|
    ensures f.Some? ==> f.value >= 1
    ensures f.Some? <==> at == |s| || (at + 1 == |s| && SuffixPower(s[at]).Some?)
  {
    if at == |s| then Some(1)
    else if at + 1 != |s| then None
    else SuffixFactor(s[at], binary)
  }

  /**
   * str_parse_human_readable_u64: None for the error result -1, otherwise
   * what it stores in *dst. strtoull reads the leading digits; a range
   * error fails, and a text that ends there is returned unscaled.
   */
  function ParseU64(hrn: seq<char>, fraction: int, binary: bool): (r: Option<nat>)
    requires NoNul(hrn) && NoLeadingSpaceOrSign(hrn)
    ensures r.Some? ==> r.value <= UINT64_MAX
  {
    var e := DigitRun(hrn, 0);
    var num := Value(hrn[..e]);
    if num > UINT64_MAX then None
    else if e == |hrn| then Some(num)
    else ParseRest(hrn, e, num, fraction, binary)
  }

  /**
   * What str_parse_human_readable_u64 does behind the digits at e: up to
   * f fractional digits after a '.', padding to f digits, spaces, then at
   * most one suffix character and the overflow check.
   */
  function ParseRest(hrn: seq<char>, e: nat, num: nat, fraction: int, binary: bool): (r: Option<nat>)
    requires e < |hrn|
    ensures r.Some? ==> r.value <= UINT64_MAX
  {
    var f0 := FractionDigits(fraction);
    var t := FractionCount(hrn, e, f0);
    var next := if hrn[e] == '.' then e + 1 + t else e;
    ApplyFactor(FixedPoint(num, hrn[e + 1..e + 1 + t], f0), TrailingFactor(hrn, SpaceRun(hrn, next), binary))
  }

  /** How many fractional digits behind e the parser reads: at most f0, and none without a '.'. */
  function FractionCount(hrn: seq<char>, e: nat, f0: nat): (t: nat)
    requires e < |hrn|
    ensures t <= f0 && e + 1 + t <= |hrn|
    ensures AllDigits(hrn[e + 1..e + 1 + t])
  {
    if hrn[e] == '.' then Min(DigitRun(hrn, e + 1) - (e + 1), f0) else 0
  }

  /**
   * num and its fractional digits read as a fixed-point number with f0
   * decimals: each digit read shifts num left by one place, and the
   * missing places are padded with zeros.
   */
  function FixedPoint(num: nat, frac: seq<char>, f0: nat): nat
    requires AllDigits(frac) && |frac| <= f0
  {
    (num * Pow(10, |frac|) + Value(frac)) * Pow(10, f0 - |frac|)
  }

  /**
   * The final step: a missing factor fails, and so does a product the
   * guard num > UINT64_MAX / factor finds too large, which is exactly a
   * product above UINT64_MAX.
   */
  function ApplyFactor(num: nat, factor: Option<nat>): (r: Option<nat>)
    requires factor.Some? ==> factor.value >= 1
    ensures r.Some? ==> factor.Some? && r.value <= UINT64_MAX
  {
    if factor.None? then None
    else if num > UINT64_MAX / factor.value then None
    else
      OverflowGuard(num, factor.value);
      Some(num * factor.value)
  }

  /** ApplyFactor yields the product exactly when it fits in a uint64_t. */
  lemma ApplyFactorExact(num: nat, factor: nat)
    requires factor >= 1
    ensures ApplyFactor(num, Some(factor)) == if num * factor <= UINT64_MAX then Some(num * factor) else None
  {
    OverflowGuard(num, factor);
  }

  /** The guard num > UINT64_MAX / factor rejects exactly the products above UINT64_MAX. */
  lemma OverflowGuard(num: nat, factor: nat)
    requires factor >= 1
    ensures num <= UINT64_MAX / factor <==> num * factor <= UINT64_MAX
  {
    var q := UINT64_MAX / factor;
    DivBounds(UINT64_MAX, factor);
    if num <= q {
      MulMonotone(num, factor, q, factor);
    } else {
      MulMonotone(q + 1, factor, num, factor);
    }
  }

  /** The type conversion (int64_t)u of a uint64_t: two's complement. */
  function ToS64(u: nat): (x: int)
    requires u <= UINT64_MAX
    ensures IsInt64(x)
    ensures u < 0x8000_0000_0000_0000 ==> x == u
    ensures u >= 0x8000_0000_0000_0000 ==> x == u - U64
    ensures (x - u) % U64 == 0
  {
    if u < 0x8000_0000_0000_0000 then u else u - U64
  }

  /** Negation of an int64_t: INT64_MIN has no positive counterpart and wraps to itself. */
  function Neg64(x: int): (y: int)
    requires IsInt64(x)
    ensures IsInt64(y)
    ensures x != -0x8000_0000_0000_0000 ==> y == -x
    ensures x == -0x8000_0000_0000_0000 ==> y == x
    ensures (x + y) % U64 == 0
  {
    if x == -0x8000_0000_0000_0000 then x else -x
  }

  /**
   * str_parse_human_readable_s64: a leading '-' negates what the unsigned
   * parser reads from the rest; the conversions to int64_t wrap.
   */
  function ParseS64(hrn: seq<char>, fraction: int, binary: bool): (r: Option<int>)
    requires NoNul(hrn)
    requires NoLeadingSpaceOrSign(if |hrn| > 0 && hrn[0] == '-' then hrn[1..] else hrn)
    ensures r.Some? ==> IsInt64(r.value)
    ensures r.None? <==> ParseU64(if |hrn| > 0 && hrn[0] == '-' then hrn[1..] else hrn, fraction, binary).None?
    ensures var u := ParseU64(if |hrn| > 0 && hrn[0] == '-' then hrn[1..] else hrn, fraction, binary);
            u.Some? && u.value < 0x8000_0000_0000_0000 ==>
              r.Some? && r.value == (if |hrn| > 0 && hrn[0] == '-' then -(u.value as int) else u.value)
  {
    var neg := |hrn| > 0 && hrn[0] == '-';
    var rest := if neg then hrn[1..] else hrn;
    match ParseU64(rest, fraction, binary)
    case None => None
    case Some(u) => Some(if neg then Neg64(ToS64(u)) else ToS64(u))
  }

  /** A text of space characters. */
  function Spaces(n: nat): (s: seq<char>)
    ensures |s| == n && forall i :: 0 <= i < n ==> s[i] == ' '
  {
    seq(n, _ => ' ')
  }

  /** The text of a number in the format the parser reads: digits, '.', digits, spaces, suffix. */
  function Format(whole: seq<char>, dot: bool, frac: seq<char>, spaces: nat, suffix: Option<char>): seq<char> {
    whole + (if dot then ['.'] + frac else []) + Tail(spaces, suffix)
  }

  /** The exact value of a formatted number: fixed point with f0 decimals, times the suffix's power. */
  function FormatValue(whole: seq<char>, frac: seq<char>, f0: nat, factor: nat): nat
    requires AllDigits(whole) && AllDigits(frac) && |frac| <= f0
  {
    FixedPoint(Value(whole), frac, f0) * factor
  }

  /** A digit run is determined by where it starts and the first non-digit behind it. */
  lemma DigitRunIs(s: seq<char>, i: nat, j: nat)
    requires i <= j <= |s|
    requires forall k :: i <= k < j ==> IsDigit(s[k])
    requires j < |s| ==> !IsDigit(s[j])
    ensures DigitRun(s, i) == j
  {
  }

  lemma SpaceRunIs(s: seq<char>, i: nat, j: nat)
    requires i <= j <= |s|
    requires forall k :: i <= k < j ==> s[k] == ' '
    requires j < |s| ==> s[j] != ' '
    ensures SpaceRun(s, i) == j
  {
  }

  /** A suffix the format allows: a known symbol other than ' ' (a space belongs to the spaces). */
  predicate SuffixSymbol(c: char) {
    SuffixPower(c).Some? && c != ' '
  }

  /** The parts of a formatted number the parser takes apart. */
  predicate WellFormatted(whole: seq<char>, dot: bool, frac: seq<char>, spaces: nat, suffix: Option<char>, f0: nat) {
    && AllDigits(whole) && AllDigits(frac)
    && (dot || frac == [])
    && |frac| <= f0
    && (suffix.Some? ==> SuffixSymbol(suffix.value))
    // something follows the digits, and the text does not start with a space
    && (dot || spaces > 0 || suffix.Some?)
    && (whole != [] || dot || spaces == 0)
  }

  /** The text behind the fraction: spaces and the optional suffix. */
  function Tail(spaces: nat, suffix: Option<char>): seq<char> {
    Spaces(spaces) + (if suffix.Some? then [suffix.value] else [])
  }

  /** A formatted number is a C string strtoull can start on. */
  lemma FormatText(whole: seq<char>, dot: bool, frac: seq<char>, spaces: nat, suffix: Option<char>, f0: nat)
    requires WellFormatted(whole, dot, frac, spaces, suffix, f0)
    ensures var s := Format(whole, dot, frac, spaces, suffix);
            NoNul(s) && NoLeadingSpaceOrSign(s)
  {
    var mid := if dot then ['.'] + frac else [];
    var tail := Tail(spaces, suffix);
    var s := whole + mid + tail;
    forall i | 0 <= i < |s|
      ensures s[i] != NUL
    {
      if i < |whole| {
        assert s[i] == whole[i];
      } else if i < |whole| + |mid| {
        assert s[i] == mid[i - |whole|];
      } else {
        assert s[i] == tail[i - |whole| - |mid|];
      }
    }
    if whole != [] {
      assert s[0] == whole[0];
    } else if dot {
      assert s[0] == '.';
    } else {
      assert s == tail && spaces == 0;
      assert s[0] == suffix.value;
    }
  }

  /** Where the parser's scans stop on a formatted number. */
  lemma FormatScan(whole: seq<char>, dot: bool, frac: seq<char>, spaces: nat, suffix: Option<char>, f0: nat)
    requires WellFormatted(whole, dot, frac, spaces, suffix, f0)
    ensures var s := Format(whole, dot, frac, spaces, suffix);
            var e := |whole|;
            var next := if dot then e + 1 + |frac| else e;
            && DigitRun(s, 0) == e && s[..e] == whole && e < |s|
            && (s[e] == '.' <==> dot)
            && (dot ==> DigitRun(s, e + 1) == next && s[e + 1..next] == frac)
            && SpaceRun(s, next) == next + spaces
            && (suffix.None? ==> next + spaces == |s|)
            && (suffix.Some? ==> next + spaces + 1 == |s| && s[next + spaces] == suffix.value)
  {
    var s := Format(whole, dot, frac, spaces, suffix);
    var e := |whole|;
    var next := if dot then e + 1 + |frac| else e;
    FormatIndex(whole, dot, frac, spaces, suffix);
    DigitRunIs(s, 0, e);
    if dot {
      DigitRunIs(s, e + 1, next);
      assert s[e + 1..next] == frac;
    }
    SpaceRunIs(s, next, next + spaces);
    assert s[..e] == whole;
  }

  /** The characters of a formatted number, position by position. */
  lemma FormatIndex(whole: seq<char>, dot: bool, frac: seq<char>, spaces: nat, suffix: Option<char>)
    ensures var s := Format(whole, dot, frac, spaces, suffix);
            var e := |whole|;
            var next := if dot then e + 1 + |frac| else e;
            && |s| == next + spaces + (if suffix.Some? then 1 else 0)
            && (forall k :: 0 <= k < e ==> s[k] == whole[k])
            && (dot ==> s[e] == '.' && forall k :: e + 1 <= k < next ==> s[k] == frac[k - e - 1])
            && (forall k :: next <= k < next + spaces ==> s[k] == ' ')
            && (suffix.Some? ==> s[next + spaces] == suffix.value)
  {
  }

  /**
   * The parser reads a formatted number as its exact fixed-point value
   * times the suffix's power, and fails exactly when that exceeds
   * UINT64_MAX.
   */
  lemma ParseFormatted(whole: seq<char>, dot: bool, frac: seq<char>, spaces: nat, suffix: Option<char>, fraction: int, binary: bool)
    requires WellFormatted(whole, dot, frac, spaces, suffix, FractionDigits(fraction))
    ensures var s := Format(whole, dot, frac, spaces, suffix);
            var factor := if suffix.Some? then Pow(Step(binary), SuffixPower(suffix.value).value) else 1;
            var v := FormatValue(whole, frac, FractionDigits(fraction), factor);
            && NoNul(s) && NoLeadingSpaceOrSign(s)
            && ParseU64(s, fraction, binary) == if v <= UINT64_MAX then Some(v) else None
  {
    var f0 := FractionDigits(fraction);
    var s := Format(whole, dot, frac, spaces, suffix);
    FormatScan(whole, dot, frac, spaces, suffix, f0);
    FormatText(whole, dot, frac, spaces, suffix, f0);
    var next := if dot then |whole| + 1 + |frac| else |whole|;
    var factor := if suffix.Some? then Pow(Step(binary), SuffixPower(suffix.value).value) else 1;
    if Value(whole) > UINT64_MAX {
      // strtoull's range error: the value is at least the whole part
      if suffix.Some? {
        PowPositive(Step(binary), SuffixPower(suffix.value).value);
      }
      FormatValueAtLeast(whole, frac, f0, factor);
    } else {
      ScanFraction(s, |whole|, dot, frac, f0);
      ScanSuffix(s, SpaceRun(s, next), suffix, binary);
      ParseScanned(s, whole, frac, next, factor, fraction, binary);
      ApplyFactorExact(FixedPoint(Value(whole), frac, f0), factor);
    }
  }

  /** A formatted value is never below its whole part. */
  lemma FormatValueAtLeast(whole: seq<char>, frac: seq<char>, f0: nat, factor: nat)
    requires AllDigits(whole) && AllDigits(frac) && |frac| <= f0 && factor >= 1
    ensures FormatValue(whole, frac, f0, factor) >= Value(whole)
  {
    var p, q := Pow(10, |frac|), Pow(10, f0 - |frac|);
    PowPositive(10, |frac|);
    PowPositive(10, f0 - |frac|);
    MulMonotone(0, 0, Value(whole), p);
    var a: nat := Value(whole) * p + Value(frac);
    MulMonotone(0, 0, a, q);
    var b: nat := a * q;
    assert Value(whole) <= Value(whole) * p by { MulMonotone(Value(whole), 1, Value(whole), p); }
    assert a <= b by { MulMonotone(a, 1, a, q); }
    assert b <= b * factor by { MulMonotone(b, 1, b, factor); }
  }

  /** FormatScan's facts about the fraction, as FractionCount sees them. */
  lemma ScanFraction(s: seq<char>, e: nat, dot: bool, frac: seq<char>, f0: nat)
    requires e < |s| && (s[e] == '.' <==> dot) && (dot || frac == []) && |frac| <= f0
    requires dot ==> DigitRun(s, e + 1) == e + 1 + |frac| && s[e + 1..e + 1 + |frac|] == frac
    ensures e + 1 + |frac| <= |s| && s[e + 1..e + 1 + |frac|] == frac
    ensures FractionCount(s, e, f0) == |frac|
  {
    if !dot {
      assert s[e + 1..e + 1] == [];
    }
  }

  /** FormatScan's facts about the tail, as TrailingFactor sees them. */
  lemma ScanSuffix(s: seq<char>, at: nat, suffix: Option<char>, binary: bool)
    requires at <= |s|
    requires suffix.None? ==> at == |s|
    requires suffix.Some? ==> SuffixSymbol(suffix.value) && at + 1 == |s| && s[at] == suffix.value
    ensures var factor := if suffix.Some? then Pow(Step(binary), SuffixPower(suffix.value).value) else 1;
            TrailingFactor(s, at, binary) == Some(factor)
  {
    if suffix.Some? {
      assert TrailingFactor(s, at, binary) == SuffixFactor(suffix.value, binary);
    }
  }

  /** Once the scans over s are known, ParseU64 scales the digits they found by the factor. */
  lemma ParseScanned(s: seq<char>, whole: seq<char>, frac: seq<char>, next: nat, factor: nat, fraction: int, binary: bool)
    requires NoNul(s) && NoLeadingSpaceOrSign(s)
    requires AllDigits(whole) && AllDigits(frac) && |frac| <= FractionDigits(fraction)
    requires DigitRun(s, 0) == |whole| < |s| && s[..|whole|] == whole && Value(whole) <= UINT64_MAX
    requires FractionCount(s, |whole|, FractionDigits(fraction)) == |frac|
    requires s[|whole| + 1..|whole| + 1 + |frac|] == frac
    requires next == if s[|whole|] == '.' then |whole| + 1 + |frac| else |whole|
    requires TrailingFactor(s, SpaceRun(s, next), binary) == Some(factor)
    ensures ParseU64(s, fraction, binary) == ApplyFactor(FixedPoint(Value(whole), frac, FractionDigits(fraction)), Some(factor))
  {
    var e := |whole|;
    ParseRestSteps(s, e, Value(whole), fraction, binary, |frac|, next);
    assert ParseU64(s, fraction, binary) == ParseRest(s, e, Value(whole), fraction, binary);
  }

  /** ParseRest with its steps spelled out. */
  lemma ParseRestSteps(s: seq<char>, e: nat, num: nat, fraction: int, binary: bool, t: nat, next: nat)
    requires e < |s|
    requires t == FractionCount(s, e, FractionDigits(fraction))
    requires next == if s[e] == '.' then e + 1 + t else e
    ensures ParseRest(s, e, num, fraction, binary)
              == ApplyFactor(FixedPoint(num, s[e + 1..e + 1 + t], FractionDigits(fraction)), TrailingFactor(s, SpaceRun(s, next), binary))
  {
  }

  /** A text of digits alone is returned unscaled, unless strtoull reports a range error. */
  lemma ParseBare(s: seq<char>, fraction: int, binary: bool)
    requires AllDigits(s)
    ensures NoNul(s) && NoLeadingSpaceOrSign(s)
    ensures ParseU64(s, fraction, binary) == if Value(s) <= UINT64_MAX then Some(Value(s)) else None
  {
    assert forall i :: 0 <= i < |s| ==> IsDigit(s[i]);
    DigitRunIs(s, 0, |s|);
    assert s[..|s|] == s;
  }

  /** More fractional digits than the fraction asks for make the text an error. */
  lemma SurplusDigits(whole: seq<char>, frac: seq<char>, tail: seq<char>, fraction: int, binary: bool)
    requires AllDigits(whole) && AllDigits(frac) && |frac| > FractionDigits(fraction)
    requires NoNul(tail)
    ensures var s := whole + ['.'] + frac + tail;
            NoNul(s) && NoLeadingSpaceOrSign(s) && ParseU64(s, fraction, binary) == None
  {
    var f0 := FractionDigits(fraction);
    var s := whole + ['.'] + frac + tail;
    var e := |whole|;
    assert forall k :: 0 <= k < e ==> s[k] == whole[k];
    assert s[e] == '.';
    assert forall k :: e + 1 <= k < e + 1 + |frac| ==> s[k] == frac[k - e - 1];
    assert forall k :: e + 1 + |frac| <= k < |s| ==> s[k] == tail[k - e - 1 - |frac|];
    assert s[0] == (if e > 0 then whole[0] else '.');
    DigitRunIs(s, 0, e);
    assert s[..e] == whole;
    if Value(whole) <= UINT64_MAX {
      var next := e + 1 + f0;
      assert FractionCount(s, e, f0) == f0;
      assert IsDigit(s[next]);
      assert SpaceRun(s, next) == next;
      assert TrailingFactor(s, next, binary) == None;
      ParseRestSteps(s, e, Value(whole), fraction, binary, f0, next);
    }
  }

  /** "1 Ki": one suffix character at most, so the trailing 'i' is an error. */
  lemma TwoSuffixCharacters(fraction: int, binary: bool)
    ensures NoNul("1 Ki") && NoLeadingSpaceOrSign("1 Ki")
    ensures ParseU64("1 Ki", fraction, binary) == None
  {
    var s := "1 Ki";
    DigitRunIs(s, 0, 1);
    SpaceRunIs(s, 1, 2);
    ParseRestSteps(s, 1, 1, fraction, binary, 0, 1);
  }

  /** "1.5 k" with two decimals: 1.50 thousand, read as 150000 hundredths. */
  lemma OneAndAHalfKilo()
    ensures NoNul("1.5 k") && NoLeadingSpaceOrSign("1.5 k")
    ensures ParseU64("1.5 k", 2, false) == Some(150000)
  {
    assert Format("1", true, "5", 1, Some('k')) == "1.5 k";
    assert Value("1") == 1 && Value("5") == 5 && Pow(10, 1) == 10;
    assert FixedPoint(1, "5", 2) == 150;
    assert SuffixPower('k') == Some(1) && Pow(Step(false), 1) == 1000;
    assert FormatValue("1", "5", 2, 1000) == 150000;
    ParseFormatted("1", true, "5", 1, Some('k'), 2, false);
  }

  /**
   * The text the parser accepts is digits alone or a formatted number: a
   * digit run, optionally a '.' with at most f digits, spaces, and at most
   * one suffix symbol.
   */
  lemma ParsedIsFormatted(s: seq<char>, fraction: int, binary: bool)
    requires NoNul(s) && NoLeadingSpaceOrSign(s)
    requires ParseU64(s, fraction, binary).Some?
    ensures AllDigits(s) || exists whole, dot, frac, spaces, suffix ::
              WellFormatted(whole, dot, frac, spaces, suffix, FractionDigits(fraction))
              && s == Format(whole, dot, frac, spaces, suffix)
  {
    var e := DigitRun(s, 0);
    if e == |s| {
      assert AllDigits(s);
    } else {
      var f0 := FractionDigits(fraction);
      var dot := s[e] == '.';
      var t := FractionCount(s, e, f0);
      var next := if dot then e + 1 + t else e;
      AcceptedTrail(s, fraction, binary, e, t, next);
      AcceptedForm(s, f0, binary, e, t, next, SpaceRun(s, next));
    }
  }

  /** Behind the scans of an accepted text: the parts of a formatted number. */
  lemma AcceptedForm(s: seq<char>, f0: nat, binary: bool, e: nat, t: nat, next: nat, j: nat)
    requires NoLeadingSpaceOrSign(s)
    requires e == DigitRun(s, 0) < |s|
    requires t == FractionCount(s, e, f0)
    requires next == if s[e] == '.' then e + 1 + t else e
    requires j == SpaceRun(s, next) && TrailingFactor(s, j, binary).Some?
    ensures exists whole, dot, frac, spaces, suffix ::
              WellFormatted(whole, dot, frac, spaces, suffix, f0)
              && s == Format(whole, dot, frac, spaces, suffix)
  {
    ParsedParts(s, f0, binary, e, t, next, j);
    ParsedText(s, e, t, next, j);
  }

  /** An accepted text ends in nothing but a suffix the parser knows. */
  lemma AcceptedTrail(s: seq<char>, fraction: int, binary: bool, e: nat, t: nat, next: nat)
    requires NoNul(s) && NoLeadingSpaceOrSign(s)
    requires ParseU64(s, fraction, binary).Some?
    requires e == DigitRun(s, 0) < |s|
    requires t == FractionCount(s, e, FractionDigits(fraction))
    requires next == if s[e] == '.' then e + 1 + t else e
    ensures TrailingFactor(s, SpaceRun(s, next), binary).Some?
  {
    assert ParseU64(s, fraction, binary) == ParseRest(s, e, Value(s[..e]), fraction, binary);
    ParseRestSteps(s, e, Value(s[..e]), fraction, binary, t, next);
  }

  /** The parts the parser's scans find in an accepted text are well formed. */
  lemma ParsedParts(s: seq<char>, f0: nat, binary: bool, e: nat, t: nat, next: nat, j: nat)
    requires NoLeadingSpaceOrSign(s)
    requires e == DigitRun(s, 0) < |s|
    requires t == FractionCount(s, e, f0)
    requires next == if s[e] == '.' then e + 1 + t else e
    requires j == SpaceRun(s, next) && TrailingFactor(s, j, binary).Some?
    ensures var dot := s[e] == '.';
            WellFormatted(s[..e], dot, if dot then s[e + 1..e + 1 + t] else [], j - next,
                          if j == |s| then None else Some(s[j]), f0)
  {
  }

  /** The parts the parser's scans find in an accepted text make up the whole text. */
  lemma ParsedText(s: seq<char>, e: nat, t: nat, next: nat, j: nat)
    requires e < |s| && e + 1 + t <= |s|
    requires next == if s[e] == '.' then e + 1 + t else e
    requires j == SpaceRun(s, next) && (j == |s| || j + 1 == |s|)
    ensures var dot := s[e] == '.';
            s == Format(s[..e], dot, if dot then s[e + 1..e + 1 + t] else [], j - next,
                        if j == |s| then None else Some(s[j]))
  {
    var dot := s[e] == '.';
    var frac := if dot then s[e + 1..e + 1 + t] else [];
    assert |s[..e]| == e && |frac| == (if dot then t else 0);
    var suffix := if j == |s| then None else Some(s[j]);
    FormatFromIndex(s, s[..e], dot, frac, j - next, suffix);
  }

  /** A text with the characters of a formatted number, position by position, is that number. */
  lemma FormatFromIndex(s: seq<char>, whole: seq<char>, dot: bool, frac: seq<char>, spaces: nat, suffix: Option<char>)
    requires var e := |whole|;
             var next := if dot then e + 1 + |frac| else e;
             && |s| == next + spaces + (if suffix.Some? then 1 else 0)
             && whole == s[..e]
             && (dot ==> s[e] == '.' && frac == s[e + 1..next])
             && (forall k :: next <= k < next + spaces ==> s[k] == ' ')
             && (suffix.Some? ==> s[next + spaces] == suffix.value)
    ensures s == Format(whole, dot, frac, spaces, suffix)
  {
    var e := |whole|;
    var next := if dot then e + 1 + |frac| else e;
    var f := Format(whole, dot, frac, spaces, suffix);
    FormatIndex(whole, dot, frac, spaces, suffix);
    forall k | 0 <= k < |s|
      ensures f[k] == s[k]
    {
      if k < e {
        assert s[k] == whole[k];
      } else if dot && k == e {
        assert f[k] == '.';
      } else if dot && k < next {
        assert frac[k - e - 1] == s[k];
      } else if k < next + spaces {
        assert s[k] == ' ';
      } else {
        assert k == next + spaces && f[k] == suffix.value;
      }
    }
    assert f == s;
  }
}
