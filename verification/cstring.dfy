/**
 * Bounded C-string helpers of src-api/common/string.c: strscpy, strscat,
 * str_trim, str_hasnextword, str_cpynextword and str_is_printable.
 *
 * A buffer is a `seq<char>` (one `char` per byte) whose string is everything
 * before its first NUL. Read-only string arguments are given as their content,
 * a sequence without NUL whose end stands for the terminator. An argument that
 * may be NULL is an `Option`; an address inside a buffer is an offset.
 */
module CString {
  import opened Wrappers
  import opened CType

  const NUL: char := 0 as char

  /** size_t is 64 bits wide. */
  const SIZE_MAX: nat := 0xFFFF_FFFF_FFFF_FFFF

  function Min(a: int, b: int): int {
    if a <= b then a else b
  }

  /** The content of a C string: no terminator inside. */
  predicate NoNul(s: seq<char>) {
    forall i :: 0 <= i < |s| ==> s[i] != NUL
  }

  /** strlen: the index of the first NUL of the buffer (|b| when it has none). */
  function StrLen(b: seq<char>): (n: nat)
    ensures n <= |b|
    ensures NoNul(b[..n])
    ensures n < |b| ==> b[n] == NUL
  {
    var n := StrLenFrom(b, 0);
    assert forall k :: 0 <= k < n ==> b[..n][k] == b[k];
    n
  }

  /** The index of the first NUL at or after i. */
  function StrLenFrom(b: seq<char>, i: nat): (n: nat)
    requires i <= |b|
    ensures i <= n <= |b|
    ensures forall k :: i <= k < n ==> b[k] != NUL
    ensures n < |b| ==> b[n] == NUL
    decreases |b| - i
  {
    if i == |b| || b[i] == NUL then i else StrLenFrom(b, i + 1)
  }

  /** The string a buffer holds. */
  function Str(b: seq<char>): seq<char> {
    b[..StrLen(b)]
  }

  /** The buffer holds a terminator, so strlen stays inside it. */
  predicate Terminated(b: seq<char>) {
    StrLen(b) < |b|
  }

  function Zeros(n: nat): (z: seq<char>)
    ensures |z| == n
    ensures forall i :: 0 <= i < n ==> z[i] == NUL
  {
    seq(n, _ => NUL)
  }

  /** strlen stops at the first terminator it meets. */
  lemma StrLenOfTerminated(s: seq<char>, rest: seq<char>)
    requires NoNul(s)
    requires rest != [] && rest[0] == NUL
    ensures StrLen(s + rest) == |s|
  {
    assert (s + rest)[|s|] == NUL;
  }

  /** Bytes after a terminator do not change strlen. */
  lemma {:induction false} StrLenOfPrefix(b: seq<char>, rest: seq<char>)
    requires Terminated(b)
    ensures StrLen(b + rest) == StrLen(b)
  {
    var n := StrLen(b);
    assert b + rest == b[..n] + (b[n..] + rest);
    StrLenOfTerminated(b[..n], b[n..] + rest);
  }

  /**
   * strscpy: with a destination, a source and a size > 0, the destination
   * holds the source truncated to size - 1 bytes and NUL-filled up to size;
   * bytes from size on are untouched. Otherwise nothing changes. The source
   * need not be terminated when it has size - 1 readable bytes.
   */
  function Strscpy(dest: Option<seq<char>>, src: Option<seq<char>>, size: nat): (r: Option<seq<char>>)
    requires dest.Some? ==> size <= |dest.value|
    requires src.Some? && size > 0 ==> Terminated(src.value) || size - 1 <= |src.value|
    ensures dest.None? || src.None? || size == 0 ==> r == dest
    ensures dest.Some? && src.Some? && size > 0 ==>
              var n := Min(StrLen(src.value), size - 1);
              && r.Some? && |r.value| == |dest.value|
              && Str(r.value) == Str(src.value)[..n]
              && (forall i :: n <= i < size ==> r.value[i] == NUL)
              && r.value[size..] == dest.value[size..]
  {
    if dest.None? || src.None? || size == 0 then dest
    else
      var s := src.value;
      var n := Min(StrLen(s), size - 1);
      var out := s[..n] + Zeros(size - n) + dest.value[size..];
      assert out == s[..n] + (Zeros(size - n) + dest.value[size..]);
      StrLenOfTerminated(s[..n], Zeros(size - n) + dest.value[size..]);
      Some(out)
  }

  /**
   * strscat: appends the source to the destination's string, truncating so
   * that the result keeps at most size - 1 bytes and its terminator. A NULL
   * argument, size 0, an empty source or a destination string that already
   * fills size bytes leave the destination unchanged.
   */
  function Strscat(dest: Option<seq<char>>, src: Option<seq<char>>, size: nat): (r: Option<seq<char>>)
    requires dest.Some? ==> size <= |dest.value| && Terminated(dest.value)
    requires src.Some? ==> Terminated(src.value)
    ensures r.Some? <==> dest.Some?
    ensures r.Some? ==> |r.value| == |dest.value|
    ensures dest.None? || src.None? || size == 0 || StrLen(src.value) == 0 || StrLen(dest.value) >= size ==>
              r == dest
    ensures dest.Some? && src.Some? && size > 0 && StrLen(src.value) > 0 && StrLen(dest.value) < size ==>
              var s := Str(dest.value) + Str(src.value);
              && Str(r.value) == s[..Min(|s|, size - 1)]
              && r.value[size..] == dest.value[size..]
  {
    if dest.None? || src.None? || size == 0 || StrLen(src.value) == 0 then dest
    else
      var d := dest.value;
      var l := StrLen(d);
      if l >= size then dest
      else
        AppendAt(d, src.value, size);
        Some(d[..l] + Strscpy(Some(d[l..]), src, size - l).value)
  }

  /** The strscpy at the end of the destination's string, as strscat performs it. */
  lemma AppendAt(d: seq<char>, src: seq<char>, size: nat)
    requires size <= |d| && Terminated(d) && Terminated(src)
    requires StrLen(d) < size
    ensures var l := StrLen(d);
            var out := d[..l] + Strscpy(Some(d[l..]), Some(src), size - l).value;
            var s := Str(d) + Str(src);
            && |out| == |d|
            && Str(out) == s[..Min(|s|, size - 1)]
            && out[size..] == d[size..]
  {
    var l := StrLen(d);
    var tail := Strscpy(Some(d[l..]), Some(src), size - l).value;
    var n := Min(StrLen(src), size - l - 1);
    CopiedTail(d[l..], src, size - l);
    var head := Str(d) + src[..n];
    HeadHasNoNul(d, src, n);
    Reassociate(Str(d), src[..n], tail[n..]);
    StrLenOfTerminated(head, tail[n..]);
    TruncatedConcat(Str(d), Str(src), size - 1);
  }

  lemma CopiedTail(d: seq<char>, src: seq<char>, size: nat)
    requires size <= |d| && 0 < size && Terminated(src)
    ensures var tail := Strscpy(Some(d), Some(src), size).value;
            var n := Min(StrLen(src), size - 1);
            && tail == src[..n] + tail[n..] && tail[n] == NUL && |tail| == |d|
            && tail[size..] == d[size..]
  {
  }

  lemma HeadHasNoNul(d: seq<char>, src: seq<char>, n: nat)
    requires n <= StrLen(src)
    ensures NoNul(Str(d) + src[..n])
  {
    assert src[..n] == src[..StrLen(src)][..n];
  }

  lemma Reassociate(a: seq<char>, b: seq<char>, c: seq<char>)
    ensures a + (b + c) == (a + b) + c
  {
  }

  lemma TruncatedConcat(a: seq<char>, b: seq<char>, k: nat)
    requires |a| <= k
    ensures var s := a + b; s[..Min(|s|, k)] == a + b[..Min(|b|, k - |a|)]
  {
  }

  /** Result of str_trim: the rewritten buffer and the offset it returns. */
  datatype Trimmed = Trimmed(buffer: seq<char>, start: nat)

  /**
   * What str_trim leaves behind for buffer b: t.start skips the leading
   * whitespace; the string at t.start is the middle b[t.start..e] of b's
   * string, which starts and ends with a non-space when it is non-empty; only
   * the trailing whitespace b[e..] of the string was overwritten, with NUL.
   */
  ghost predicate TrimmedFrom(b: seq<char>, t: Trimmed)
    requires Terminated(b)
  {
    var len := StrLen(b);
    && t.start <= len && |t.buffer| == |b|
    && var u := Str(t.buffer[t.start..]);
    && var e := t.start + |u|;
    && e <= len
    && u == b[t.start..e]
    && t.buffer == b[..e] + Zeros(len - e) + b[len..]
    && (forall i :: 0 <= i < t.start ==> IsSpace(b[i]))
    && (forall i :: e <= i < len ==> IsSpace(b[i]))
    && (t.start < len ==> t.start < e && !IsSpace(b[t.start]) && !IsSpace(b[e - 1]))
  }

  /** str_trim: NULL gives NULL; otherwise the buffer and start offset described by TrimmedFrom. */
  method Trim(p: Option<seq<char>>) returns (r: Option<Trimmed>)
    requires p.Some? ==> Terminated(p.value)
    ensures r.None? <==> p.None?
    ensures p.Some? ==> TrimmedFrom(p.value, r.value)
  {
    if p.None? {
      return None;
    }
    var b := p.value;
    var len := StrLen(b);
    var start := LeadingSpaces(b);
    // the bytes from `e` on are the ones str_trim overwrites with NUL
    var e := TrailingSpaces(b, start);
    TrimmedString(b, start, e);
    return Some(Trimmed(b[..e] + Zeros(len - e) + b[len..], start));
  }

  /** str_trim's first loop: the whitespace at the start of b's string. */
  method LeadingSpaces(b: seq<char>) returns (start: nat)
    requires Terminated(b)
    ensures start <= StrLen(b)
    ensures forall i :: 0 <= i < start ==> IsSpace(b[i])
    ensures start < StrLen(b) ==> !IsSpace(b[start])
  {
    start := 0;
    while IsSpace(b[start])
      invariant start <= StrLen(b)
      invariant forall i :: 0 <= i < start ==> IsSpace(b[i])
      decreases StrLen(b) - start
    {
      start := start + 1;
    }
  }

  /**
   * str_trim's second loop: end walks back from the last byte of the string
   * over whitespace, never below start; e is end + 1.
   */
  method TrailingSpaces(b: seq<char>, start: nat) returns (e: nat)
    requires Terminated(b) && start <= StrLen(b)
    ensures start <= e <= StrLen(b)
    ensures forall i :: e <= i < StrLen(b) ==> IsSpace(b[i])
    ensures start < e - 1 ==> !IsSpace(b[e - 1])
    ensures start < StrLen(b) ==> start < e
  {
    var len := StrLen(b);
    var end: int := len as int - 1;
    while end > start && IsSpace(b[end])
      invariant start - 1 <= end < len
      invariant start < len ==> start <= end
      invariant forall i :: end < i < len ==> IsSpace(b[i])
    {
      end := end - 1;
    }
    e := end + 1;
  }

  /** Overwriting b's string from e on with NUL leaves b[start..e] as the string at start. */
  lemma TrimmedString(b: seq<char>, start: nat, e: nat)
    requires Terminated(b)
    requires start <= e <= StrLen(b)
    requires forall i :: 0 <= i < start ==> IsSpace(b[i])
    requires forall i :: e <= i < StrLen(b) ==> IsSpace(b[i])
    requires start < StrLen(b) ==> !IsSpace(b[start])
    requires start < e - 1 ==> !IsSpace(b[e - 1])
    requires start < StrLen(b) ==> start < e
    ensures TrimmedFrom(b, Trimmed(b[..e] + Zeros(StrLen(b) - e) + b[StrLen(b)..], start))
  {
    MiddleString(b, start, e);
  }

  /** Cutting b's string at e leaves b[start..e] as the string at start. */
  lemma MiddleString(b: seq<char>, start: nat, e: nat)
    requires Terminated(b)
    requires start <= e <= StrLen(b)
    ensures var buf := b[..e] + Zeros(StrLen(b) - e) + b[StrLen(b)..];
            |buf| == |b| && Str(buf[start..]) == b[start..e]
  {
    var len := StrLen(b);
    var buf := b[..e] + Zeros(len - e) + b[len..];
    assert buf[start..] == b[start..e] + (Zeros(len - e) + b[len..]);
    assert b[start..e] == b[..len][start..e];
    StrLenOfTerminated(b[start..e], Zeros(len - e) + b[len..]);
  }

  /** The first index from i on that is not a blank (or the end). */
  function SkipBlanks(s: seq<char>, i: nat): (j: nat)
    requires i <= |s|
    ensures i <= j <= |s|
    ensures forall k :: i <= k < j ==> IsBlank(s[k])
    ensures j < |s| ==> !IsBlank(s[j])
    decreases |s| - i
  {
    if i < |s| && IsBlank(s[i]) then SkipBlanks(s, i + 1) else i
  }

  /** The end of the maximal run of non-blanks starting at i. */
  function WordEnd(s: seq<char>, i: nat): (j: nat)
    requires i <= |s|
    ensures i <= j <= |s|
    ensures forall k :: i <= k < j ==> !IsBlank(s[k])
    ensures j < |s| ==> IsBlank(s[j])
    decreases |s| - i
  {
    if i < |s| && !IsBlank(s[i]) then WordEnd(s, i + 1) else i
  }

  predicate EqualIgnoringCase(a: seq<char>, b: seq<char>) {
    |a| == |b| && forall i :: 0 <= i < |a| ==> ToLower(a[i]) == ToLower(b[i])
  }

  /** The next word of s: the run of non-blanks after the leading blanks. */
  function NextWord(s: seq<char>): seq<char> {
    var i := SkipBlanks(s, 0);
    s[i..WordEnd(s, i)]
  }

  /**
   * str_hasnextword: a result exactly when the buffer's next word equals the
   * word ignoring case; it is then the offset behind that word and the blanks
   * after it.
   */
  method HasNextWord(buffer: Option<seq<char>>, word: seq<char>) returns (r: Option<nat>)
    requires buffer.Some? ==> NoNul(buffer.value)
    requires NoNul(word)
    ensures r.Some? <==> buffer.Some? && EqualIgnoringCase(NextWord(buffer.value), word)
    ensures r.Some? ==>
              var s := buffer.value;
              r.value == SkipBlanks(s, WordEnd(s, SkipBlanks(s, 0)))
  {
    if buffer.None? {
      return None;
    }
    var s := buffer.value;
    var i0 := SkipBlankRun(s, 0);
    var i := i0;
    var w := 0;
    while w < |word| && i < |s| && !IsBlank(s[i]) && ToLower(word[w]) == ToLower(s[i])
      invariant w <= |word| && i == i0 + w <= |s|
      invariant WordEnd(s, i) == WordEnd(s, i0)
      invariant forall k :: 0 <= k < w ==> ToLower(word[k]) == ToLower(s[i0 + k])
    {
      w := w + 1;
      i := i + 1;
    }
    var e := WordEnd(s, i0);
    if w == |word| && (i == |s| || IsBlank(s[i])) {
      assert e == i;
      assert EqualIgnoringCase(s[i0..e], word);
      i := SkipBlankRun(s, i);
      return Some(i);
    }
    assert !EqualIgnoringCase(s[i0..e], word) by {
      if w < |word| && i < |s| && !IsBlank(s[i]) {
        assert s[i0..e][w] == s[i];
      }
    }
    return None;
  }

  /** The most bytes str_cpynextword copies for len: len - 1, where len 0 wraps to SIZE_MAX. */
  function CopyLimit(len: nat): nat {
    if len == 0 then SIZE_MAX else len - 1
  }

  /** How many bytes of the next word str_cpynextword copies. */
  function CopyCount(s: seq<char>, len: nat): nat {
    var i := SkipBlanks(s, 0);
    Min(WordEnd(s, i) - i, CopyLimit(len))
  }

  /**
   * dst after str_cpynextword: the next word of s, cut at the copy limit when
   * it is longer, followed by a terminator; the bytes behind it are untouched.
   */
  ghost predicate WordCopied(s: seq<char>, len: nat, dst: seq<char>, out: seq<char>)
    requires CopyCount(s, len) < |dst|
  {
    var n := CopyCount(s, len);
    && n <= |NextWord(s)| && n <= CopyLimit(len)
    && (n < |NextWord(s)| ==> n == CopyLimit(len))
    && |out| == |dst|
    && out == NextWord(s)[..n] + [NUL] + dst[n + 1..]
  }

  /**
   * The result of str_cpynextword: the offset of the first non-blank behind
   * the copied bytes, or None when only blanks are left. When the word was
   * cut, that is the offset right behind the copied bytes.
   */
  ghost predicate ResumesAfterCopy(s: seq<char>, len: nat, r: Option<nat>) {
    var at := SkipBlanks(s, 0) + CopyCount(s, len);
    && at <= |s|
    && var next := SkipBlanks(s, at);
    && (r.Some? <==> next < |s|)
    && (r.Some? ==> r.value == next && !IsBlank(s[next]))
    && (CopyCount(s, len) < |NextWord(s)| ==> r == Some(at))
  }

  /**
   * str_cpynextword: copies at most len - 1 bytes of the next word into dst
   * and terminates it; returns where scanning should resume. A NULL src only
   * terminates dst and gives None.
   */
  method CpyNextWord(dst: seq<char>, src: Option<seq<char>>, len: nat) returns (out: seq<char>, r: Option<nat>)
    requires |dst| >= 1
    requires src.Some? ==> NoNul(src.value) && CopyCount(src.value, len) < |dst|
    ensures |out| == |dst|
    ensures src.None? ==> out == dst[0 := NUL] && r.None?
    ensures src.Some? ==> WordCopied(src.value, len, dst, out)
    ensures src.Some? ==> Str(out) == NextWord(src.value)[..CopyCount(src.value, len)]
    ensures src.Some? ==> ResumesAfterCopy(src.value, len, r)
  {
    if src.None? {
      out := dst[0 := NUL];
      return out, None;
    }
    var s := src.value;
    var i0 := SkipBlankRun(s, 0);
    var p := CopyRun(s, i0, CopyLimit(len));
    var n := p - i0;
    assert n == CopyCount(s, len);
    out := s[i0..i0 + n] + [NUL] + dst[n + 1..];
    var q := SkipBlankRun(s, p);
    r := if q < |s| then Some(q) else None;
    WordPrefix(s, len);
    assert s[i0..i0 + n] == NextWord(s)[..n];
    CopiedWord(s, len, dst);
    CopiedString(s, len, dst);
    Resumes(s, len, q, r);
  }

  /** The loop `while (isblank(*p)) p++;` from offset i. */
  method SkipBlankRun(s: seq<char>, i: nat) returns (j: nat)
    requires i <= |s|
    ensures j == SkipBlanks(s, i)
  {
    j := i;
    while j < |s| && IsBlank(s[j])
      invariant i <= j <= |s|
      invariant SkipBlanks(s, j) == SkipBlanks(s, i)
    {
      j := j + 1;
    }
  }

  /** str_cpynextword's copy loop: advances over non-blanks from i, at most limit of them. */
  method CopyRun(s: seq<char>, i: nat, limit: nat) returns (j: nat)
    requires i <= |s|
    ensures j == i + Min(WordEnd(s, i) - i, limit)
  {
    j := i;
    while j < |s| && !IsBlank(s[j]) && j - i < limit
      invariant i <= j <= |s| && j - i <= limit
      invariant WordEnd(s, j) == WordEnd(s, i)
    {
      j := j + 1;
    }
  }

  /** The copied bytes are the first CopyCount bytes of the next word. */
  lemma CopiedWord(s: seq<char>, len: nat, dst: seq<char>)
    requires CopyCount(s, len) < |dst|
    ensures var i0 := SkipBlanks(s, 0);
            var n := CopyCount(s, len);
            WordCopied(s, len, dst, s[i0..i0 + n] + [NUL] + dst[n + 1..])
  {
    var i0 := SkipBlanks(s, 0);
    var n := CopyCount(s, len);
    WordPrefix(s, len);
    assert NextWord(s)[..n] == s[i0..i0 + n];
  }

  /** dst after the copy holds the copied bytes as its string. */
  lemma CopiedString(s: seq<char>, len: nat, dst: seq<char>)
    requires NoNul(s) && CopyCount(s, len) < |dst|
    ensures var n := CopyCount(s, len);
            Str(NextWord(s)[..n] + [NUL] + dst[n + 1..]) == NextWord(s)[..n]
  {
    var i0 := SkipBlanks(s, 0);
    var n := CopyCount(s, len);
    WordPrefix(s, len);
    NoNulSlice(s, i0, i0 + n);
    TerminatedWithin(NextWord(s)[..n], dst);
  }

  /** A slice of a string without NUL has none either. */
  lemma NoNulSlice(s: seq<char>, i: nat, j: nat)
    requires NoNul(s) && i <= j <= |s|
    ensures NoNul(s[i..j])
  {
    forall k | 0 <= k < j - i ensures s[i..j][k] != NUL {
      assert s[i..j][k] == s[i + k];
    }
  }

  /** The first CopyCount bytes of the next word start right after the leading blanks. */
  lemma WordPrefix(s: seq<char>, len: nat)
    ensures var i0 := SkipBlanks(s, 0);
            var n := CopyCount(s, len);
            && n <= |NextWord(s)| && n <= CopyLimit(len)
            && (n < |NextWord(s)| ==> n == CopyLimit(len))
            && i0 + n <= |s|
            && NextWord(s)[..n] == s[i0..i0 + n]
  {
  }

  /** A string written at the start of dst and terminated is dst's string. */
  lemma TerminatedWithin(w: seq<char>, dst: seq<char>)
    requires NoNul(w) && |w| < |dst|
    ensures Str(w + [NUL] + dst[|w| + 1..]) == w
  {
    assert w + [NUL] + dst[|w| + 1..] == w + ([NUL] + dst[|w| + 1..]);
    StrLenOfTerminated(w, [NUL] + dst[|w| + 1..]);
  }

  /** Skipping the blanks behind the copied bytes gives str_cpynextword's result. */
  lemma Resumes(s: seq<char>, len: nat, q: nat, r: Option<nat>)
    requires SkipBlanks(s, 0) + CopyCount(s, len) <= q <= |s|
    requires q == SkipBlanks(s, SkipBlanks(s, 0) + CopyCount(s, len))
    requires r == if q < |s| then Some(q) else None
    ensures ResumesAfterCopy(s, len, r)
  {
    var at := SkipBlanks(s, 0) + CopyCount(s, len);
    if CopyCount(s, len) < |NextWord(s)| {
      assert !IsBlank(s[at]);
    }
  }

  /** str_char_is_printable, per its documentation: at least 32, and neither 127 nor 255. */
  predicate Printable(c: char) {
    32 <= c as int && c as int != 127 && c as int != 255
  }

  /** str_is_printable: true exactly when every byte of the string is printable. */
  method IsPrintable(s: seq<char>) returns (r: bool)
    requires NoNul(s)
    ensures r <==> forall i :: 0 <= i < |s| ==> Printable(s[i])
  {
    var i := 0;
    while i < |s|
      invariant i <= |s|
      invariant forall k :: 0 <= k < i ==> Printable(s[k])
    {
      if !Printable(s[i]) {
        return false;
      }
      i := i + 1;
    }
    return true;
  }
}
