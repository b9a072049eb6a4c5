/**
 * The strarray container of src-api/common/string.c: a packed run of C
 * strings, each followed by its terminator, held in a heap block `value`
 * of which the first `length` bytes are in use.
 *
 * The abstract meaning of an array is its list of strings (Elements); each
 * edit is stated as what it does to that list. Allocation is left to the
 * caller: a realloc that succeeds or fails is a boolean parameter, and an
 * address inside the block is an offset.
 */
module StrArrays {
  import opened Wrappers
  import opened Decimal
  import opened CString

  /** Every string of a list is the content of a C string. */
  predicate AllStrings(L: seq<seq<char>>) {
    forall i :: 0 <= i < |L| ==> NoNul(L[i])
  }

  /** The packed run of a list of strings: each one followed by its terminator. */
  function Pack(L: seq<seq<char>>): (c: seq<char>)
    ensures WellPacked(c)
  {
    if L == [] then [] else L[0] + [NUL] + Pack(L[1..])
  }

  /** A packed run is empty or ends with a terminator. */
  predicate WellPacked(c: seq<char>) {
    c == [] || c[|c| - 1] == NUL
  }

  /** The strings of a packed run, in order. */
  function Unpack(c: seq<char>): (L: seq<seq<char>>)
    requires WellPacked(c)
    ensures AllStrings(L)
    ensures Pack(L) == c
    decreases |c|
  {
    if c == [] then []
    else
      var n := StrLen(c);
      var rest := c[n + 1..];
      assert c == c[..n] + [NUL] + rest;
      assert WellPacked(rest);
      var L := [c[..n]] + Unpack(rest);
      assert L[1..] == Unpack(rest);
      L
  }

  /** A packed run holds at least one byte per string. */
  lemma {:induction false} PackShape(L: seq<seq<char>>)
    ensures |Pack(L)| >= |L|
    ensures Pack(L) == [] <==> L == []
  {
    if L != [] {
      PackShape(L[1..]);
    }
  }

  /** Packing two lists one after the other packs their concatenation. */
  lemma {:induction false} PackConcat(L1: seq<seq<char>>, L2: seq<seq<char>>)
    ensures Pack(L1 + L2) == Pack(L1) + Pack(L2)
  {
    if L1 == [] {
      assert L1 + L2 == L2;
    } else {
      assert (L1 + L2)[1..] == L1[1..] + L2;
      PackConcat(L1[1..], L2);
    }
  }

  /** Unpacking recovers the strings that were packed: packing is one to one. */
  lemma {:induction false} UnpackPack(L: seq<seq<char>>)
    requires AllStrings(L)
    ensures Unpack(Pack(L)) == L
  {
    if L != [] {
      var c, tail := Pack(L), Pack(L[1..]);
      assert c == L[0] + ([NUL] + tail);
      StrLenOfTerminated(L[0], [NUL] + tail);
      assert c[..|L[0]|] == L[0];
      assert c[|L[0]| + 1..] == tail;
      UnpackPack(L[1..]);
      assert Unpack(c) == [L[0]] + Unpack(tail);
    }
  }

  /** Two lists of strings pack to the same run exactly when they are equal. */
  lemma PackInjective(L1: seq<seq<char>>, L2: seq<seq<char>>)
    requires AllStrings(L1) && AllStrings(L2)
    ensures Pack(L1) == Pack(L2) <==> L1 == L2
  {
    UnpackPack(L1);
    UnpackPack(L2);
  }

  /** Where the i-th string starts in the packed run. */
  function StartOf(L: seq<seq<char>>, i: nat): nat
    requires i <= |L|
  {
    |Pack(L[..i])|
  }

  /** The run behind the start of the i-th string packs the strings from i on. */
  lemma PackFrom(L: seq<seq<char>>, i: nat)
    requires i <= |L|
    ensures StartOf(L, i) <= |Pack(L)|
    ensures Pack(L)[StartOf(L, i)..] == Pack(L[i..])
    ensures Pack(L)[..StartOf(L, i)] == Pack(L[..i])
  {
    assert L == L[..i] + L[i..];
    PackConcat(L[..i], L[i..]);
  }

  /** The string at an element start is that element. */
  lemma StringAt(L: seq<seq<char>>, i: nat)
    requires AllStrings(L) && i < |L|
    ensures StartOf(L, i) < |Pack(L)|
    ensures Str(Pack(L)[StartOf(L, i)..]) == L[i]
  {
    PackFrom(L, i);
    assert AllStrings(L[i..]) by {
      forall j | 0 <= j < |L[i..]| ensures NoNul(L[i..][j]) {
        assert L[i..][j] == L[i + j];
      }
    }
    FirstString(L[i..]);
    assert L[i..][0] == L[i];
  }

  /** The string at the front of a packed run is the first element. */
  lemma FirstString(L: seq<seq<char>>)
    requires AllStrings(L) && L != []
    ensures |Pack(L)| > 0 && Str(Pack(L)) == L[0]
  {
    StrLenOfTerminated(L[0], [NUL] + Pack(L[1..]));
    assert Pack(L) == L[0] + ([NUL] + Pack(L[1..]));
  }

  /** STRARRAY_BLOCKSIZE is 2^bits; its value is not part of this model. */
  function BlockSize(bits: nat): (b: nat)
    ensures b >= 1
  {
    PowPositive(2, bits);
    Pow(2, bits)
  }

  /** A block size a 64-bit size_t can hold is at most 2^63. */
  lemma BlockSizeBound(bits: nat)
    requires bits < 64
    ensures BlockSize(bits) <= 0x8000_0000_0000_0000
  {
    PowMonotone(2, bits, 63);
    TwoToThe63();
  }

  lemma TwoToThe63()
    ensures Pow(2, 63) == 0x8000_0000_0000_0000
  {
    var p3 := Pow(2, 3);
    assert p3 == 8;
    var p6 := Pow(2, 6);
    PowAdd(2, 3, 3);
    assert p6 == 64;
    var p12 := Pow(2, 12);
    PowAdd(2, 6, 6);
    assert p12 == 4096;
    var p24 := Pow(2, 24);
    PowAdd(2, 12, 12);
    assert p24 == 0x100_0000;
    var p48 := Pow(2, 48);
    PowAdd(2, 24, 24);
    assert p48 == 0x1_0000_0000_0000;
    var p60 := Pow(2, 60);
    PowAdd(2, 48, 12);
    assert p60 == 0x1000_0000_0000_0000;
    PowAdd(2, 60, 3);
  }

  /**
   * STRARRAY_MEMSIZE: b rounded up to a multiple of the block size. The sum
   * b + BLOCKSIZE - 1 is size_t arithmetic and wraps; masking with
   * ~(BLOCKSIZE - 1) clears the low bits, which is subtracting the
   * remainder modulo the block size.
   */
  function MemSize(b: nat, bits: nat): (m: nat)
    requires b <= SIZE_MAX && bits < 64
    ensures m <= SIZE_MAX && m % BlockSize(bits) == 0
    ensures b + BlockSize(bits) - 1 <= SIZE_MAX ==> b <= m < b + BlockSize(bits)
    ensures b + BlockSize(bits) - 1 > SIZE_MAX ==> m < b
  {
    var B := BlockSize(bits);
    BlockSizeBound(bits);
    RoundUpWrapped(b, B);
    var x := (b + B - 1) % (SIZE_MAX + 1);
    x - x % B
  }

  /** The arithmetic of MemSize, with the block size as a plain number. */
  lemma RoundUpWrapped(b: nat, B: nat)
    requires b <= SIZE_MAX && 1 <= B <= 0x8000_0000_0000_0000
    ensures var x := (b + B - 1) % (SIZE_MAX + 1);
            && 0 <= x - x % B <= SIZE_MAX && (x - x % B) % B == 0
            && (b + B - 1 <= SIZE_MAX ==> b <= x - x % B < b + B)
            && (b + B - 1 > SIZE_MAX ==> x - x % B < b)
  {
    var x := (b + B - 1) % (SIZE_MAX + 1);
    WrapOnce(b + B - 1, SIZE_MAX + 1);
    RoundDown(x, B);
  }

  /** A sum below twice the modulus wraps at most once. */
  lemma WrapOnce(y: int, M: int)
    requires M > 0 && 0 <= y < 2 * M
    ensures y % M == if y < M then y else y - M
  {
    if y < M {
      DivUnique(y, M, 0, y);
    } else {
      DivUnique(y, M, 1, y - M);
    }
  }

  /** Clearing the remainder rounds x down to a multiple of B, by less than B. */
  lemma RoundDown(x: nat, B: nat)
    requires B >= 1
    ensures (x - x % B) % B == 0 && x - B < x - x % B <= x
  {
    var q, r := x / B, x % B;
    assert x == q * B + r;
    DivAdd(q, 0, B);
  }

  /** The struct: value is NULL (None) or a heap block of which length bytes are used. */
  datatype StrArray = StrArray(value: Option<seq<char>>, length: nat)

  /** The packing invariant: the used bytes are a packed run inside the block. */
  predicate Valid(a: StrArray) {
    match a.value
    case None => a.length == 0
    case Some(buf) => a.length <= |buf| && WellPacked(buf[..a.length])
  }

  /** The bytes in use. */
  function Content(a: StrArray): seq<char>
    requires Valid(a)
  {
    match a.value
    case None => []
    case Some(buf) => buf[..a.length]
  }

  /** What the array means: its strings, in order. */
  function Elements(a: StrArray): seq<seq<char>>
    requires Valid(a)
  {
    Unpack(Content(a))
  }

  /** The outcome of an edit: 0 or -1, and the array afterwards. */
  datatype Update = Update(status: int, after: StrArray)

  /**
   * A successful realloc: the old bytes up to the new size are kept. The
   * bytes the block gains are indeterminate in C; they are given as NUL
   * here, and no operation reads them before writing them.
   */
  function Realloc(block: Option<seq<char>>, size: nat): (r: seq<char>)
    ensures |r| == size
    ensures block.Some? ==> var k := Min(|block.value|, size); r[..k] == block.value[..k]
  {
    var before := if block.Some? then block.value else [];
    var k := Min(|before|, size);
    before[..k] + Zeros(size - k)
  }

  /** The used bytes of a block that grows or shrinks to at least length bytes survive. */
  lemma ReallocKeeps(a: StrArray, size: nat)
    requires Valid(a) && a.length <= size
    ensures Realloc(a.value, size)[..a.length] == Content(a)
  {
    var r := Realloc(a.value, size);
    if a.value.Some? {
      var k := Min(|a.value.value|, size);
      assert r[..a.length] == r[..k][..a.length];
    }
  }

  /**
   * strarray_copy: an empty or NULL source clears dst; otherwise dst gets
   * a block of MEMSIZE(length) bytes holding the source's bytes followed
   * by zeros. When the realloc fails (ok false), dst is unchanged.
   */
  function Copy(dst: StrArray, src: StrArray, bits: nat, ok: bool): (u: Update)
    requires Valid(src) && bits < 64
    requires src.length + BlockSize(bits) - 1 <= SIZE_MAX
    ensures u.status == 0 || u.status == -1
    ensures u.status == 0 ==> Valid(u.after) && Elements(u.after) == Elements(src) && u.after.length == src.length
    ensures u.status == -1 ==> u.after == dst
    ensures u.status == -1 <==> !ok && src.length > 0
  {
    if src.value.None? || src.length == 0 then Update(0, StrArray(None, 0))
    else if !ok then Update(-1, dst)
    else
      var block := MemSize(src.length, bits);
      var buf := Content(src) + Zeros(block - src.length);
      assert buf[..src.length] == Content(src);
      Update(0, StrArray(Some(buf), src.length))
  }

  /**
   * strarray_append: the array grows by strlen(s) + 1 bytes and gains s as
   * its last string. When the realloc fails, the array is unchanged.
   */
  function Append(a: StrArray, s: seq<char>, bits: nat, ok: bool): (u: Update)
    requires Valid(a) && NoNul(s) && bits < 64
    requires a.length + |s| + 1 + BlockSize(bits) - 1 <= SIZE_MAX
    ensures u.status == 0 <==> ok
    ensures u.status == 0 ==> && Valid(u.after)
                              && Elements(u.after) == Elements(a) + [s]
                              && u.after.length == a.length + |s| + 1
    ensures u.status != 0 ==> u.status == -1 && u.after == a
  {
    var n := a.length + |s| + 1;
    if !ok then Update(-1, a)
    else
      var block := Realloc(a.value, MemSize(n, bits));
      var buf := block[..a.length] + s + [NUL] + block[n..];
      AppendedElements(a, s, n, block, buf);
      Update(0, StrArray(Some(buf), n))
  }

  lemma AppendedElements(a: StrArray, s: seq<char>, n: nat, block: seq<char>, buf: seq<char>)
    requires Valid(a) && NoNul(s) && n == a.length + |s| + 1 && n <= |block|
    requires block[..a.length] == Content(a)
    requires buf == block[..a.length] + s + [NUL] + block[n..]
    ensures Valid(StrArray(Some(buf), n))
    ensures Elements(StrArray(Some(buf), n)) == Elements(a) + [s]
  {
    var L := Elements(a);
    var c := Content(a);
    assert buf[..n] == c + s + [NUL] by {
      assert buf == c + (s + [NUL]) + block[n..];
    }
    assert [s][1..] == [];
    assert Pack([s]) == s + [NUL];
    PackConcat(L, [s]);
    assert AllStrings(L + [s]) by {
      assert forall i :: 0 <= i < |L| ==> (L + [s])[i] == L[i];
    }
    UnpackPack(L + [s]);
    assert Content(StrArray(Some(buf), n)) == Pack(L + [s]);
  }

  /**
   * strarray_prepend: the array grows by strlen(s) + 1 bytes, the old
   * bytes move up behind s and its terminator, and s becomes the first
   * string. When the realloc fails, the array is unchanged.
   */
  function Prepend(a: StrArray, s: seq<char>, bits: nat, ok: bool): (u: Update)
    requires Valid(a) && NoNul(s) && bits < 64
    requires a.length + |s| + 1 + BlockSize(bits) - 1 <= SIZE_MAX
    ensures u.status == 0 <==> ok
    ensures u.status == 0 ==> && Valid(u.after)
                              && Elements(u.after) == [s] + Elements(a)
                              && u.after.length == a.length + |s| + 1
    ensures u.status != 0 ==> u.status == -1 && u.after == a
  {
    var n := a.length + |s| + 1;
    if !ok then Update(-1, a)
    else
      var block := Realloc(a.value, MemSize(n, bits));
      var buf := s + [NUL] + block[..a.length] + block[n..];
      PrependedElements(a, s, n, block, buf);
      Update(0, StrArray(Some(buf), n))
  }

  lemma PrependedElements(a: StrArray, s: seq<char>, n: nat, block: seq<char>, buf: seq<char>)
    requires Valid(a) && NoNul(s) && n == a.length + |s| + 1 && n <= |block|
    requires block[..a.length] == Content(a)
    requires buf == s + [NUL] + block[..a.length] + block[n..]
    ensures Valid(StrArray(Some(buf), n))
    ensures Elements(StrArray(Some(buf), n)) == [s] + Elements(a)
  {
    var L := Elements(a);
    assert buf[..n] == s + [NUL] + Content(a);
    assert ([s] + L)[1..] == L;
    UnpackPack([s] + L);
    assert Content(StrArray(Some(buf), n)) == Pack([s] + L);
  }

  /**
   * strarray_remove_ext for the i-th string: when it is the only one the
   * array is freed; otherwise the bytes behind it move down over it
   * (memmove) and, when resize is asked for and the realloc succeeds, the
   * block shrinks to MEMSIZE(length). The strings keep their order.
   */
  function RemoveExt(a: StrArray, i: nat, resize: bool, bits: nat, ok: bool): (r: StrArray)
    requires Valid(a) && i < |Elements(a)| && bits < 64
    requires a.length + BlockSize(bits) - 1 <= SIZE_MAX
    ensures Valid(r)
    ensures Elements(r) == Elements(a)[..i] + Elements(a)[i + 1..]
    ensures r.length == a.length - |Elements(a)[i]| - 1
    ensures r.value.None? <==> |Elements(a)| == 1
  {
    var E := Elements(a);
    RemovedBytes(E, i);
    if |E[i]| + 1 == a.length then StrArray(None, 0)
    else CloseGap(a, i, resize, bits, ok)
  }

  /**
   * The memmove over the i-th string, which is not the only one, and the
   * optional shrinking realloc behind it.
   */
  function CloseGap(a: StrArray, i: nat, resize: bool, bits: nat, ok: bool): (r: StrArray)
    requires Valid(a) && i < |Elements(a)| && bits < 64
    requires a.length + BlockSize(bits) - 1 <= SIZE_MAX
    requires StartOf(Elements(a), i) + |Elements(a)[i]| + 1 <= a.length
    requires |Elements(a)[i]| + 1 != a.length
    ensures Valid(r) && r.value.Some?
    ensures Elements(r) == Elements(a)[..i] + Elements(a)[i + 1..]
    ensures r.length == a.length - |Elements(a)[i]| - 1
  {
    var E := Elements(a);
    var at := StartOf(E, i);
    var len := |E[i]| + 1;
    var n := a.length - len;
    var buf := a.value.value;
    // the element lies inside the used bytes, so memmove always runs
    assert at <= n;
    var moved := buf[..at] + buf[at + len..a.length] + buf[n..];
    RemovedBytes(E, i);
    RemovedElements(a, E, i, at, len, moved);
    if !resize || !ok then StrArray(Some(moved), n)
    else
      Reallocated(StrArray(Some(moved), n), MemSize(n, bits));
      StrArray(Some(Realloc(Some(moved), MemSize(n, bits))), n)
  }

  /** A realloc to at least the used size keeps the strings. */
  lemma Reallocated(a: StrArray, size: nat)
    requires Valid(a) && a.length <= size
    ensures Valid(StrArray(Some(Realloc(a.value, size)), a.length))
    ensures Elements(StrArray(Some(Realloc(a.value, size)), a.length)) == Elements(a)
  {
    ReallocKeeps(a, size);
  }

  /** Where the i-th string lies in the packed run, and when it is all of it. */
  lemma RemovedBytes(E: seq<seq<char>>, i: nat)
    requires AllStrings(E) && i < |E|
    ensures StartOf(E, i) + |E[i]| + 1 <= |Pack(E)|
    ensures |E[i]| + 1 == |Pack(E)| <==> |E| == 1
    ensures Pack(E) == Pack(E[..i]) + E[i] + [NUL] + Pack(E[i + 1..])
  {
    assert E == E[..i] + E[i..];
    PackConcat(E[..i], E[i..]);
    assert E[i..][1..] == E[i + 1..];
    PackShape(E[..i]);
    PackShape(E[i + 1..]);
  }

  lemma RemovedElements(a: StrArray, E: seq<seq<char>>, i: nat, at: nat, len: nat, moved: seq<char>)
    requires Valid(a) && a.value.Some? && E == Elements(a) && i < |E|
    requires at == StartOf(E, i) && len == |E[i]| + 1 && at + len <= a.length
    requires Pack(E) == Pack(E[..i]) + E[i] + [NUL] + Pack(E[i + 1..])
    requires moved == a.value.value[..at] + a.value.value[at + len..a.length] + a.value.value[a.length - len..]
    ensures a.length - len <= |moved|
    ensures Valid(StrArray(Some(moved), a.length - len))
    ensures Elements(StrArray(Some(moved), a.length - len)) == E[..i] + E[i + 1..]
  {
    var c := Content(a);
    var buf := a.value.value;
    assert c == Pack(E);
    assert buf[..at] == c[..at] == Pack(E[..i]);
    assert buf[at + len..a.length] == c[at + len..] == Pack(E[i + 1..]);
    PackConcat(E[..i], E[i + 1..]);
    assert moved[..a.length - len] == Pack(E[..i] + E[i + 1..]);
    DropStrings(E, i);
    UnpackPack(E[..i] + E[i + 1..]);
  }

  /** Dropping one string of a list leaves a list of strings. */
  lemma DropStrings(E: seq<seq<char>>, i: nat)
    requires AllStrings(E) && i < |E|
    ensures AllStrings(E[..i] + E[i + 1..])
  {
    var R := E[..i] + E[i + 1..];
    forall k | 0 <= k < |R|
      ensures NoNul(R[k])
    {
      assert R[k] == if k < i then E[k] else E[k + 1];
    }
  }

  /** Stepping over the string at the k-th start, as FOR_ALL_STRINGS does, reaches the next start. */
  lemma StepOver(a: StrArray, E: seq<seq<char>>, k: nat)
    requires Valid(a) && a.value.Some? && E == Elements(a)
    requires k <= |E| && StartOf(E, k) < a.length
    ensures k < |E|
    ensures StartOf(E, k) + StrLen(a.value.value[StartOf(E, k)..]) + 1 == StartOf(E, k + 1)
  {
    PackFrom(E, k);
    PackShape(E[k..]);
    StrLenAt(a, E, k);
    NextStart(E, k);
  }

  /** strlen at the k-th start, read in the block, is the length of the k-th string. */
  lemma StrLenAt(a: StrArray, E: seq<seq<char>>, k: nat)
    requires Valid(a) && a.value.Some? && E == Elements(a) && k < |E|
    ensures StartOf(E, k) < a.length
    ensures StrLen(a.value.value[StartOf(E, k)..]) == |E[k]|
  {
    var c, buf := Content(a), a.value.value;
    var at := StartOf(E, k);
    StringAt(E, k);
    assert buf[at..] == c[at..] + buf[a.length..];
    StrLenOfPrefix(c[at..], buf[a.length..]);
  }

  /** The next start lies one terminator behind the k-th string. */
  lemma NextStart(E: seq<seq<char>>, k: nat)
    requires k < |E|
    ensures StartOf(E, k + 1) == StartOf(E, k) + |E[k]| + 1
  {
    assert E[..k + 1] == E[..k] + [E[k]];
    PackConcat(E[..k], [E[k]]);
    assert [E[k]][1..] == [];
  }

  /** FOR_ALL_STRINGS stops at length exactly after the last string. */
  lemma AtEnd(a: StrArray, E: seq<seq<char>>, k: nat)
    requires Valid(a) && E == Elements(a)
    requires k <= |E| && StartOf(E, k) >= a.length
    ensures k == |E|
  {
    PackFrom(E, k);
    PackShape(E[k..]);
  }

  /**
   * strarray_get_count: the number of strings FOR_ALL_STRINGS visits,
   * which walks from the start of the block over each string and its
   * terminator until it reaches length (the macro's definition is not
   * part of this model).
   */
  method GetCount(a: StrArray) returns (count: nat)
    requires Valid(a)
    ensures count == |Elements(a)|
  {
    count := 0;
    if a.value.None? {
      return;
    }
    var buf := a.value.value;
    ghost var E := Elements(a);
    var at := 0;
    while at < a.length
      invariant count <= |E| && at == StartOf(E, count)
      decreases a.length - at
    {
      StepOver(a, E, count);
      at := at + StrLen(buf[at..]) + 1;
      count := count + 1;
    }
    AtEnd(a, E, count);
  }

  /**
   * strarray_get: the offset of the idx-th string, where FOR_ALL_STRINGS
   * visits it, or None (NULL) when the array holds fewer strings.
   */
  method Get(a: StrArray, idx: nat) returns (r: Option<nat>)
    requires Valid(a)
    ensures r.Some? <==> idx < |Elements(a)|
    ensures r.Some? ==> && r.value == StartOf(Elements(a), idx)
                        && r.value < |Content(a)|
                        && Str(Content(a)[r.value..]) == Elements(a)[idx]
  {
    if a.value.None? {
      return None;
    }
    var buf := a.value.value;
    ghost var E := Elements(a);
    var count := 0;
    var at := 0;
    while at < a.length
      invariant count <= |E| && count <= idx && at == StartOf(E, count)
      decreases a.length - at
    {
      if count == idx {
        StepOver(a, E, count);
        StringAt(E, count);
        return Some(at);
      }
      StepOver(a, E, count);
      at := at + StrLen(buf[at..]) + 1;
      count := count + 1;
    }
    AtEnd(a, E, count);
    return None;
  }

  /** memcmp over the first n bytes: the sign of the first difference, bytes read as unsigned. */
  function MemCmp(x: seq<char>, y: seq<char>, n: nat): (r: int)
    requires n <= |x| && n <= |y|
    ensures -1 <= r <= 1
    ensures r == 0 <==> x[..n] == y[..n]
    decreases n
  {
    if n == 0 then 0
    else
      assert x[..n] == [x[0]] + x[1..][..n - 1] && y[..n] == [y[0]] + y[1..][..n - 1];
      if x[0] < y[0] then -1
      else if x[0] > y[0] then 1
      else MemCmp(x[1..], y[1..], n - 1)
  }

  /** A strarray argument that is NULL, or whose value is NULL. */
  predicate IsNull(a: Option<StrArray>) {
    a.None? || a.value.value.None?
  }

  /**
   * strarray_cmp: NULL sorts first; two arrays with a block compare their
   * used bytes with memcmp over the shorter length, then by length.
   */
  function Cmp(a1: Option<StrArray>, a2: Option<StrArray>): (r: int)
    requires a1.Some? ==> Valid(a1.value)
    requires a2.Some? ==> Valid(a2.value)
    ensures -1 <= r <= 1
  {
    if IsNull(a1) then (if IsNull(a2) then 0 else -1)
    else if IsNull(a2) then 1
    else CmpBytes(Content(a1.value), Content(a2.value))
  }

  /** The bytes of two arrays with a block: memcmp over the shorter length, then the lengths. */
  function CmpBytes(x: seq<char>, y: seq<char>): (r: int)
    ensures -1 <= r <= 1
  {
    var result := MemCmp(x, y, Min(|x|, |y|));
    if result == 0 then (if |x| > |y| then 1 else if |x| < |y| then -1 else 0)
    else result
  }

  /** Lexicographic order on byte strings: a proper prefix, or a smaller byte at the first difference. */
  ghost predicate LexLess(x: seq<char>, y: seq<char>) {
    exists k :: 0 <= k <= |x| && k <= |y| && x[..k] == y[..k]
      && ((k == |x| && k < |y|) || (k < |x| && k < |y| && x[k] < y[k]))
  }

  /** memcmp is antisymmetric. */
  lemma {:induction false} MemCmpAntisymmetric(x: seq<char>, y: seq<char>, n: nat)
    requires n <= |x| && n <= |y|
    ensures MemCmp(x, y, n) == -MemCmp(y, x, n)
  {
    if n > 0 && x[0] == y[0] {
      MemCmpAntisymmetric(x[1..], y[1..], n - 1);
    }
  }

  /** memcmp is negative exactly when the first difference within n has the smaller byte in x. */
  lemma {:induction false} MemCmpNegative(x: seq<char>, y: seq<char>, n: nat)
    requires n <= |x| && n <= |y|
    ensures MemCmp(x, y, n) < 0 <==> exists k :: 0 <= k < n && x[..k] == y[..k] && x[k] < y[k]
  {
    if n > 0 {
      if x[0] < y[0] {
        assert x[..0] == y[..0];
      } else if x[0] == y[0] {
        MemCmpNegative(x[1..], y[1..], n - 1);
        if MemCmp(x, y, n) < 0 {
          var k :| 0 <= k < n - 1 && x[1..][..k] == y[1..][..k] && x[1..][k] < y[1..][k];
          assert x[..k + 1] == [x[0]] + x[1..][..k];
          assert y[..k + 1] == [y[0]] + y[1..][..k];
        } else {
          forall k | 0 <= k < n && x[..k] == y[..k]
            ensures !(x[k] < y[k])
          {
            if k > 0 {
              assert x[1..][..k - 1] == x[..k][1..];
              assert y[1..][..k - 1] == y[..k][1..];
            }
          }
        }
      } else {
        forall k | 0 <= k < n && x[..k] == y[..k]
          ensures !(x[k] < y[k])
        {
        }
      }
    }
  }

  /** Comparing an array with itself, or with one holding the same strings, gives 0, and only then. */
  lemma CmpZero(a1: Option<StrArray>, a2: Option<StrArray>)
    requires a1.Some? ==> Valid(a1.value)
    requires a2.Some? ==> Valid(a2.value)
    ensures Cmp(a1, a2) == 0 <==>
              (IsNull(a1) && IsNull(a2))
              || (!IsNull(a1) && !IsNull(a2) && Elements(a1.value) == Elements(a2.value))
  {
    if !IsNull(a1) && !IsNull(a2) {
      var c1, c2 := Content(a1.value), Content(a2.value);
      assert Pack(Elements(a1.value)) == c1 && Pack(Elements(a2.value)) == c2;
      if |c1| == |c2| {
        assert c1[..|c1|] == c1 && c2[..|c2|] == c2;
      }
    }
  }

  /** strarray_cmp is antisymmetric. */
  lemma CmpAntisymmetric(a1: Option<StrArray>, a2: Option<StrArray>)
    requires a1.Some? ==> Valid(a1.value)
    requires a2.Some? ==> Valid(a2.value)
    ensures Cmp(a1, a2) == -Cmp(a2, a1)
  {
    if !IsNull(a1) && !IsNull(a2) {
      var c1, c2 := Content(a1.value), Content(a2.value);
      MemCmpAntisymmetric(c1, c2, Min(|c1|, |c2|));
    }
  }

  /** strarray_cmp orders NULL first and arrays with a block by their bytes, lexicographically. */
  lemma CmpLess(a1: Option<StrArray>, a2: Option<StrArray>)
    requires a1.Some? ==> Valid(a1.value)
    requires a2.Some? ==> Valid(a2.value)
    ensures Cmp(a1, a2) < 0 <==>
              (IsNull(a1) && !IsNull(a2))
              || (!IsNull(a1) && !IsNull(a2) && LexLess(Content(a1.value), Content(a2.value)))
  {
    if !IsNull(a1) && !IsNull(a2) {
      var x, y := Content(a1.value), Content(a2.value);
      MemCmpLex(x, y);
    }
  }

  /** The byte comparison strarray_cmp makes is lexicographic order. */
  lemma MemCmpLex(x: seq<char>, y: seq<char>)
    ensures CmpBytes(x, y) < 0 <==> LexLess(x, y)
  {
    var m := Min(|x|, |y|);
    MemCmpNegative(x, y, m);
    if MemCmp(x, y, m) < 0 {
      var k :| 0 <= k < m && x[..k] == y[..k] && x[k] < y[k];
      assert LexLess(x, y);
    } else if MemCmp(x, y, m) == 0 {
      if |x| < |y| {
        assert x[..|x|] == x;
        assert LexLess(x, y);
      }
    }
  }
}
