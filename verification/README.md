# string.c of the OLSR.org network framework, in Dafny

This project models `src-api/common/string.c`, the daemon's leaf string library, in three parts.

- **Bounded C-string helpers** (module `CString`):
  - `strscpy`/`strscat`: truncating copy and append that always NUL-terminate.
  - `str_trim`.
  - The blank-delimited word scanners `str_hasnextword`/`str_cpynextword`.
  - `str_is_printable`.
  - A C string is a `seq<char>`. Its string is the part before the first NUL (`Str`, `StrLen`). NULL is `None`.
- **The strarray container** (module `StrArrays`):
  - A buffer of NUL-terminated strings packed back to back, described by `value`/`length`.
  - The refinement `Elements`/`Unpack` views the packed bytes as a list of strings (`seq<seq<char>>`).
  - Every operation is stated against that list: `STRARRAY_MEMSIZE`, copy, append, prepend, remove, count, indexed get and compare.
- **The human-readable number codec** (modules `Units`, `Encoder`, `Parser`, `AsWritten`, `RoundTrip`):
  - `_get_human_readable_u64` and its wrappers `str_get_human_readable_u64`/`_s64` (`Encoder`).
  - `str_parse_human_readable_u64`/`_s64` (`Parser`).
  - All arithmetic is on unbounded naturals. `UINT64_MAX` and 2^64 wrap-around are written out where the C code depends on them. The int64 conversions are modelled as two's-complement wrap (see Left out).
  - Where the code misbehaves, two versions exist. `AsWritten` models the code as it stands. `Encoder`/`Parser` hold the corrected definitions, and the rest of the model uses those (see Findings).
  - `RoundTrip` relates encoder and parser: which outputs parse back, to which value, and the exact round trip of raw output.

Helper modules:
- `Wrappers` (`Option`).
- `CType`: `isspace`, `isblank` and `tolower` in the "C" locale, per section 7.4 of ISO/IEC 9899:2011.
- `Decimal`: powers, digit strings, `Render` for snprintf's `%"PRIu64"`, and the arithmetic lemmas.

Behaviour of the code that the model keeps as it is:
- `"1.5 k"` with fraction 2 parses to 150000. The fixed-point value is scaled by 10^fraction before the suffix factor (`Parser.OneAndAHalfKilo`).
- Fractional digits beyond `fraction` make the parse fail. The digit loop stops at the budget, and the leftover digits then fail the single-suffix test (`Parser.SurplusDigits`).
- The parser has one error result (-1). A strtoull range error, an overflow and a bad suffix all give it.
- 0 encodes as `"0  "`: the whole part, a space, and the empty symbol `' '` (`RoundTrip.EncodeZero`).
- The fraction budget is forced to 3 when a suffix was chosen. Without a suffix, digits are printed until the remainder is zero, which happens within `fraction` digits.
- Suffixed output is not always re-parseable: `"12.345 k"` has more fractional digits than fraction 2 allows (`RoundTrip.SuffixedNotReparsed`).

## Model

| member | source | states |
|---|---|---|
| CString.Strscpy | src-api/common/string.c:72-84 | NULL dest or src, or size 0, leaves dest unchanged. Otherwise the string left in dest is src's string cut to size-1 bytes. Every byte from there to size-1 is NUL, and bytes at and past size are untouched. |
| CString.Strscat | src-api/common/string.c:98-112 | NULL arguments, size 0, an empty src or strlen(dest) >= size leave dest unchanged. Otherwise dest's string becomes (dest ++ src) cut to size-1 bytes, and bytes at and past size are untouched. |
| CString.AppendAt | src-api/common/string.c:107-110 | Running strscpy on dest + strlen(dest) with size - l yields (dest ++ src) cut to size-1 bytes, within the same buffer. |
| CString.CopiedTail | src-api/common/string.c:79-81 | strncpy with size-1 and the final terminator copy src's first min(strlen, size-1) bytes, NUL right behind them, and nothing past size. |
| CString.Trim | src-api/common/string.c:119-140 | NULL gives NULL. Otherwise the returned offset skips exactly the leading whitespace. The string there is the input's string without leading and trailing whitespace; when non-empty it starts and ends with a non-space. Only the trailing whitespace bytes are overwritten with NUL. |
| CString.LeadingSpaces | src-api/common/string.c:127-130 | The loop stops at the first non-space byte of the string, or at its end. |
| CString.TrailingSpaces | src-api/common/string.c:132-138 | The backward loop leaves exactly the trailing whitespace behind its stopping point. It never passes the start, and it stops on a non-space unless it reached the start. |
| CString.TrimmedString | src-api/common/string.c:119-140 | The two loops' results together give the buffer and offset that the trimming contract describes. |
| CString.HasNextWord | src-api/common/string.c:149-174 | The result is non-NULL exactly when the buffer's next word (the maximal non-blank run after leading blanks) equals word ignoring case. It then points past that word and the blanks after it. |
| CString.CpyNextWord | src-api/common/string.c:184-220 | A NULL src terminates dst and gives NULL. Otherwise dst holds the next word's first min(len-1, length) bytes and a NUL, and bytes behind them are untouched. The result is the next non-blank position after the copied part (the rest of a cut word counts), or NULL at the end. |
| CString.SkipBlankRun | src-api/common/string.c:194-197 | The blank-skipping loop reaches the first non-blank position. |
| CString.CopyRun | src-api/common/string.c:199-203 | The copy loop advances over the word, at most limit bytes. |
| CString.CopiedWord | src-api/common/string.c:199-206 | The bytes the copy loop writes, then the terminator, are the cut next word; the rest of dst is unchanged. |
| CString.CopiedString | src-api/common/string.c:205-206 | The C string left in dst is exactly the copied part of the word. |
| CString.Resumes | src-api/common/string.c:208-219 | The returned position skips the blanks behind the copied part. It is NULL exactly when nothing but blanks remains, and it is the cut point itself when the word was cut. |
| CString.IsPrintable | src-api/common/string.c:229-242 | True exactly when every byte of the string is >= 32 and neither 127 nor 255. |
| Units.SuffixPowerInvertsSymbols | src-api/common/string.c:576-599 | A character is a recognised suffix exactly when it is in " kMGTPE", and its power is its index in that table. |
| Units.SuffixFactor | src-api/common/string.c:574-599 | The fall-through switch multiplies by step once for 'k', twice for 'M' and so on up to 'E', keeps 1 for ' ', and rejects every other character. |
| Encoder.ScaleFrom | src-api/common/string.c:628-631 | The loop stops at the first index whose next power is above the number, or at the table's terminator. |
| Encoder.ScaleIndexIsLargest | src-api/common/string.c:628-631 | The chosen index is the largest k with number >= 10^f * step^k (k = 0 always qualifies). |
| Encoder.ScaleStopsAtE | src-api/common/string.c:615-631 | With exact arithmetic, no 64-bit number walks past 'E' onto the terminator. |
| Encoder.FracDigits | src-api/common/string.c:644-659 | The digit loop yields at most budget decimal digits of rem/m. Their value is floor(rem * 10^len / m), and it stops early only when the remainder is exactly zero. |
| Encoder.DigitBound | src-api/common/string.c:652-654 | Each digit the exact loop computes is below 10, so assert(print < 10) holds. |
| Encoder.Significant | src-api/common/string.c:656-658 | idx keeps the digits up to the last non-zero one; everything dropped is '0'. |
| Encoder.SignificantValue | src-api/common/string.c:656-658 | Dropping trailing zeros divides the fraction's value by the matching power of ten. |
| Encoder.Plan | src-api/common/string.c:620-640 | Raw output does not scale. Otherwise the index is the scaling loop's, and it stays below the seven symbols. The multiplier is 10^f * step^index, and the digits are laid out at that multiplier with a budget of f digits (3 with a suffix). |
| Encoder.Arrange | src-api/common/string.c:634-659 | At most budget digits are printed. whole followed by the digits is floor(number * 10^len / multiplier), whole never exceeds the number, and stopping short of the budget means the rest is exact. |
| Encoder.FootprintWithin | src-api/common/string.c:633-663 | The bytes the encoder writes (snprintf's digits and terminator, '.', the fractional digits, ' ', the symbol, the terminator) never exceed 24 + max(f, 3), as a uint64_t has at most 20 digits. |
| Encoder.HumanReadableU64 | src-api/common/string.c:611-670 | Without a unit, the output is the whole part, '.' and the significant digits when there are any, then ' ' and the suffix symbol. With a unit, that text plus the unit is cut to out_len-1 bytes by strscat. |
| Encoder.StartsWithDigit | src-api/common/string.c:633-634 | The encoded text is non-empty and starts with a decimal digit, the first digit of the whole part. |
| Encoder.BodyStartsWithDigit | src-api/common/string.c:633-663 | The text is at least three bytes long, starts with a digit, and fits within the bytes the code writes. |
| Encoder.HumanReadableS64 | src-api/common/string.c:464-503 | As documented: a negative number gives '-' followed by its magnitude's encoding in the rest of the buffer; a non-negative one gives the unsigned encoding. |
| Parser.DigitRun | src-api/common/string.c:536-537 | strtoull stops at the end of the maximal leading digit run. |
| Parser.FractionCount | src-api/common/string.c:547-557 | After a '.', at most fraction digits are read; without a '.', none. |
| Parser.SpaceRun | src-api/common/string.c:562-565 | Only ' ' characters are skipped before the suffix. |
| Parser.TrailingFactor | src-api/common/string.c:567-600 | What follows the spaces is accepted exactly when it is empty or one suffix character from " kMGTPE", with factor >= 1. |
| Parser.ApplyFactorExact | src-api/common/string.c:602-607 | The guard num > UINT64_MAX / factor refuses exactly the products above UINT64_MAX; otherwise *dst is num * factor. |
| Parser.OverflowGuard | src-api/common/string.c:602-605 | num <= UINT64_MAX / factor holds if and only if num * factor <= UINT64_MAX. |
| Parser.ParseU64 | src-api/common/string.c:528-609 | A successful parse never exceeds UINT64_MAX. |
| Parser.ParseBare | src-api/common/string.c:536-545 | A bare digit string gives its value unscaled, or an error when it is above UINT64_MAX. |
| Parser.ParseFormatted | src-api/common/string.c:528-609 | A well-formed text (digits, '.' and at most f digits, spaces, one optional suffix) parses to (whole * 10^f + zero-padded fraction) * step^k, or to an error when that exceeds UINT64_MAX. That includes a whole part strtoull reports as out of range, whatever follows it. |
| Parser.ParsedIsFormatted | src-api/common/string.c:528-609 | Conversely, every accepted text is a bare digit string or well formed in that sense. |
| Parser.SurplusDigits | src-api/common/string.c:549-572 | More fractional digits than fraction allows is an error, whatever follows. |
| Parser.TwoSuffixCharacters | src-api/common/string.c:568-572 | More than one character after the spaces is an error. |
| Parser.OneAndAHalfKilo | src-api/common/string.c:547-607 | "1.5 k" with fraction 2 and decimal steps parses to 150000. |
| Parser.ParseRestSteps | src-api/common/string.c:547-607 | The text behind the digits is read as fraction, padding, spaces and suffix, then passed through the overflow guard. |
| Parser.ToS64 | src-api/common/string.c:519-522 | The (int64_t) cast keeps values below 2^63 and maps the others to u - 2^64. Either way the result equals u modulo 2^64. |
| Parser.Neg64 | src-api/common/string.c:519 | Negation in int64_t is exact except for INT64_MIN, which it keeps. The sum of x and its negation is 0 modulo 2^64. |
| Parser.ParseS64 | src-api/common/string.c:505-526 | Fails exactly when the unsigned parse of the text behind an optional '-' fails. An unsigned value below 2^63 is returned, negated when the text had a '-'. |
| StrArrays.Unpack | src-api/common/string.c:373-380 | Walking a packed buffer string by string yields a list of NUL-free strings that packs back to the same bytes. |
| StrArrays.UnpackPack | src-api/common/string.c:373-380 | Packing a list of NUL-free strings and walking it again gives back the list. |
| StrArrays.PackInjective | src-api/common/string.c:373-380 | Two lists of NUL-free strings pack to the same bytes exactly when they are equal. |
| StrArrays.PackConcat | src-api/common/string.c:293-295 | Packing two lists one after another is packing their concatenation. |
| StrArrays.StringAt | src-api/common/string.c:389-400 | The C string at element i's start offset is element i. |
| StrArrays.MemSize | src-api/common/string.c:59-61 | The block size is a multiple of STRARRAY_BLOCKSIZE. Without wrap-around it is the least such multiple >= b; when b + BLOCKSIZE - 1 wraps past SIZE_MAX, it is below b. |
| StrArrays.Realloc | src-api/common/string.c:261-264 | A successful realloc keeps the old block's prefix up to the new size. |
| StrArrays.Copy | src-api/common/string.c:252-271 | An empty or NULL source gives an empty array. Otherwise, on success dst holds src's elements and length; on failure it returns -1 and dst is unchanged. |
| StrArrays.Append | src-api/common/string.c:281-297 | On success the element list becomes L ++ [s] and length grows by strlen(s)+1; on realloc failure it returns -1 with the array unchanged. |
| StrArrays.AppendedElements | src-api/common/string.c:293-295 | Copying s and its NUL behind the old content appends s to the element list. |
| StrArrays.Prepend | src-api/common/string.c:307-324 | On success the element list becomes [s] ++ L and length grows by strlen(s)+1; on realloc failure it returns -1 with the array unchanged. |
| StrArrays.PrependedElements | src-api/common/string.c:319-322 | Moving the old content up and copying s and its NUL in front puts s first in the list. |
| StrArrays.RemoveExt | src-api/common/string.c:333-366 | Exactly element i is removed and the others keep their order. length shrinks by its size, and the array is freed exactly when it was the only element. Resizing and a failed realloc keep the content. |
| StrArrays.CloseGap | src-api/common/string.c:345-365 | Shifting the tail down over the removed element, with or without a resize, leaves the other elements in order. |
| StrArrays.RemovedElements | src-api/common/string.c:346-351 | The memmove over the element's bytes leaves a buffer whose element list lacks exactly that element. |
| StrArrays.RemovedBytes | src-api/common/string.c:339-343 | The element's size equals the array's whole length exactly when it is the only element. |
| StrArrays.GetCount | src-api/common/string.c:373-381 | The count is the number of elements. |
| StrArrays.Get | src-api/common/string.c:389-400 | A result exists exactly when idx is below the count, and the string at it is element idx. |
| StrArrays.MemCmp | src-api/common/string.c:428 | memcmp's sign is zero exactly when the first n bytes agree. |
| StrArrays.MemCmpNegative | src-api/common/string.c:428 | memcmp is negative exactly when the first differing byte of x is smaller. |
| StrArrays.Cmp | src-api/common/string.c:409-438 | The comparison yields -1, 0 or 1. |
| StrArrays.CmpZero | src-api/common/string.c:409-438 | 0 exactly when both are NULL (or have a NULL value), or when both hold the same element list. |
| StrArrays.CmpAntisymmetric | src-api/common/string.c:409-438 | cmp(a1, a2) == -cmp(a2, a1). |
| StrArrays.CmpLess | src-api/common/string.c:409-438 | Negative exactly when only a1 is NULL, or when a1's packed bytes are lexicographically smaller (a proper prefix is smaller). |
| StrArrays.MemCmpLex | src-api/common/string.c:421-437 | memcmp over the shorter length, then the length test, is the lexicographic order on bytes. |
| AsWritten.TenPowExact | src-api/common/string.c:624-626 | Without wrap-around the multiplier loop computes 10^f. |
| AsWritten.TenPowWraps | src-api/common/string.c:624-626 | With 20 fractional digits the multiplier loop wraps: it holds 10^20 mod 2^64 = 7766279631452241920, not 10^20. |
| AsWritten.Scale | src-api/common/string.c:628-631 | The scaling loop in uint64_t stays within the table and keeps the multiplier below 2^64. |
| AsWritten.ScaleAgrees | src-api/common/string.c:628-631 | While the products fit in 64 bits, the loop as written picks the exact index and multiplier. |
| AsWritten.ScaleExact | src-api/common/string.c:620-631 | For numbers and 10^f up to UINT64_MAX / step, the code's scaling matches the corrected plan. |
| AsWritten.ScaleFits | src-api/common/string.c:628-631 | Under those bounds, every product the loop tests fits in 64 bits. |
| AsWritten.ScalePastE | src-api/common/string.c:615-631 | UINT64_MAX with no fraction makes the loop step past 'E' onto the terminator, where the exact index is 6. |
| AsWritten.ScaleToZero | src-api/common/string.c:624-631 | UINT64_MAX with fraction 4 and binary steps wraps the multiplier to 0, the divisor of the next line. |
| AsWritten.Digits | src-api/common/string.c:644-659 | The digit loop as written prints at most budget values. |
| AsWritten.BinaryDigitOverflow | src-api/common/string.c:644-659 | 2047 in binary with fraction 0 prints the value 10 first, so assert(print < 10) fails; the exact digits are "999". |
| AsWritten.BinaryDigitsSkew | src-api/common/string.c:644-659 | 1536 in binary with fraction 0 prints the digits 5, 0, 2 ("1.502 k"), while the corrected encoder's layout is 1 and "5" and its text is "1.5 k". |
| AsWritten.DigitsAgree | src-api/common/string.c:644-659 | With a power of ten as multiplier, the loop as written prints the exact digits. |
| AsWritten.DecimalDigitsAgree | src-api/common/string.c:644-659 | So for decimal steps the printed digits are those of the corrected plan. |
| AsWritten.PlanDigits | src-api/common/string.c:638-659 | The plan's digits are the exact loop run on number % multiplier. |
| AsWritten.HumanReadableS64 | src-api/common/string.c:481-503 | Every output starts with a digit. Only INT64_MIN gets its '-', in front of the returned string; any other negative number prints its magnitude without a sign. |
| AsWritten.NegativeLosesSign | src-api/common/string.c:468-499 | -120000 is encoded as "120 k", where the documentation promises "-120 k". |
| AsWritten.ShiftWraps | src-api/common/string.c:549-557 | The fraction loop in uint64_t computes (num * 10^len + digits) mod 2^64. |
| AsWritten.PadWraps | src-api/common/string.c:558-560 | The padding loop computes the padded value mod 2^64. |
| AsWritten.FixedPointWraps | src-api/common/string.c:547-560 | The accumulated value is the exact fixed-point value mod 2^64. |
| AsWritten.ParseU64 | src-api/common/string.c:528-609 | Results of the parser as written never exceed UINT64_MAX. |
| AsWritten.ParseAgrees | src-api/common/string.c:528-609 | The parser as written returns every value the corrected parser returns; they differ only where the corrected one reports an error. |
| AsWritten.MaxWithPointRejected | src-api/common/string.c:547-605 | "18446744073709551615." with fraction 1 is an overflow for the corrected parser. |
| AsWritten.MaxWithPointWraps | src-api/common/string.c:551-607 | The same text yields 2^64 - 10 from the code, because num *= 10 wrapped before the guard. |
| AsWritten.ParseWrapsAround | src-api/common/string.c:551-607 | Both together: a value the code accepts that the corrected parser rejects. |
| RoundTrip.EncodedFormat | src-api/common/string.c:611-670 | The encoder's output is the parser's format: the whole part, '.' and the significant digits, one space more without a suffix, and the symbol. |
| RoundTrip.EncodedWellFormatted | src-api/common/string.c:633-663 | When the significant digits fit in fraction, that text is well formed for the parser. |
| RoundTrip.Reparse | src-api/common/string.c:528-670 | Encoded text parses back exactly when its significant digits fit in fraction. The value is then at most n, within one unit of the last printed digit, and equal to n when the printed digits were exact. |
| RoundTrip.ReparseAccepted | src-api/common/string.c:528-609 | In the accepting case, the parsed value satisfies those bounds. |
| RoundTrip.ReparseRejected | src-api/common/string.c:549-572 | More significant digits than fraction allows makes the parser fail. |
| RoundTrip.PlanBounds | src-api/common/string.c:633-659 | The fixed-point value of the printed digits times step^k is at most n and within one printed unit of it. |
| RoundTrip.ParsedValue | src-api/common/string.c:528-609 | The encoder's text parses to the printed fixed-point value times step^k, or fails on overflow. |
| RoundTrip.RawRoundTrip | src-api/common/string.c:611-670 | Raw output without a unit parses back to the number exactly, for every fraction. |
| RoundTrip.RawDigitsExact | src-api/common/string.c:644-659 | In raw mode the printed digits are exact and fit in fraction. |
| RoundTrip.SignedRawRoundTrip | src-api/common/string.c:481-526 | With the documented signed encoder, raw output parses back to the signed number exactly, INT64_MIN included. |
| RoundTrip.NegativeRawRoundTrip | src-api/common/string.c:488-526 | A negative number encodes as '-' followed by the raw text of its magnitude, with no NUL and no further sign or space, and str_parse_human_readable_s64 returns the number. |
| RoundTrip.ParseNegative | src-api/common/string.c:505-526 | '-' in front of text that parses to m (0 < m <= 2^63) parses to -m. |
| RoundTrip.EncodeKilo | src-api/common/string.c:444 | 120000 encodes as "120 k". |
| RoundTrip.EncodeZero | src-api/common/string.c:633-663 | 0 encodes as "0  " (no digits after the point, an empty symbol) for every fraction, step and raw flag, in any buffer of Capacity(fraction) bytes. |
| RoundTrip.EncodeKibi | src-api/common/string.c:620-663 | 1024 in binary steps encodes as "1 k". |
| RoundTrip.SuffixedNotReparsed | src-api/common/string.c:640-642 | 1234567 with fraction 2 encodes as "12.345 k", which the parser rejects with the same fraction. |

## Left out

- `src/core/olsr_telnet.c` is not part of this model. It is session I/O, timers and subsystem registration around the library.
- Memory management: realloc's success is a boolean parameter `ok`. free and address arithmetic are gone: `element` in `strarray_remove_ext` is an element's index, whose start offset is `StartOf`. Bytes realloc adds beyond the old block are modelled as NUL; no operation reads them.
- `STRARRAY_BLOCKSIZE` is a parameter `2^bits` (a power of two, bits < 64). `sizeof(struct human_readable_str)` is the `outLen`/`size` parameter.
- `FOR_ALL_STRINGS` is defined outside string.c and is not modelled as a macro. The loops in `GetCount` and `Get` walk the packed strings from offset 0 while the offset is below `length`, which is what the macro's uses need.
- `str_char_is_printable` is defined outside string.c and is not modelled. `IsPrintable` uses the byte test its documentation states: at least 32 and neither 127 nor 255.
- strtoull is modelled on a leading digit run. Leading whitespace and a '+'/'-' sign, which strtoull would accept, are excluded by the precondition `NoLeadingSpaceOrSign`. A range error becomes an error result.
- StrArrays.MemCmp: memcmp's result is modelled only by its sign (-1, 0 or 1), not its magnitude.
- Encoder.HumanReadableU64: every write of the encoder is unchecked in the code. The model requires the buffer to hold the worst case for the fraction count, `Capacity(fraction)` = 24 + max(f, 3) bytes, the way a fixed-size `human_readable_str` is sized. That is more than the bytes one particular number needs (`Footprint`, proved to be at most `Capacity` by `Encoder.FootprintWithin`). The signed encoder and the round-trip lemmas use the same precondition.
- Sizes below SIZE_MAX: the strarray operations require that `length + BLOCKSIZE - 1` does not wrap. `STRARRAY_MEMSIZE` itself is modelled with its wrap-around.
- Encoder.HumanReadableU64: with binary steps and a suffix, the model prints the exact decimal digits of the remainder. The code's digit loop divides a multiplier of 10^f * 1024^k by 10, which is not a power of ten, so its digits differ on many inputs even when the assert holds. For example, 1536 with fraction 0 gives "1.502 k" in the code and "1.5 k" in the model (`AsWritten.BinaryDigitsSkew`). For decimal steps the two agree (`AsWritten.DecimalDigitsAgree`).
- RoundTrip.RawRoundTrip: the round trip holds for every fraction only for the corrected encoder. In the code the multiplier loop at lines 624-626 wraps 10^f modulo 2^64 from f = 20 on (`AsWritten.TenPowWraps`). Up to f = 19 it computes 10^f exactly (`AsWritten.TenPowExact`).
- `assert(print < 10)` aborts the process in the code. In the model it is a proof obligation (`Encoder.DigitBound`), and its failure for binary steps is a finding.
- AsWritten.HumanReadableS64 reuses the corrected unsigned encoder for the magnitude. The sign handling is the point of that member, so the scaling and digit problems of the code are not modelled in it.
- Parser.ToS64 and Parser.Neg64: two's-complement wrap is a modelling choice. In C, `(int64_t)u64` for u64 >= 2^63 is implementation-defined (section 6.3.1.3 of ISO/IEC 9899:2011). `-((int64_t)u64)` at line 519 is undefined behaviour when the cast gives INT64_MIN, which the text "-9223372036854775808" reaches. The model gives both the wrap that common compilers produce. `RoundTrip.ParseNegative` and the INT64_MIN case of `RoundTrip.SignedRawRoundTrip` rest on that choice.
- `unit` text in the signed round trip: `RoundTrip.SignedRawRoundTrip` and `RawRoundTrip` are stated without a unit, as a unit is not part of what the parser reads.

## Findings

| source | as written | input that shows it | evidently intended | confidence | as-written member | corrected member |
|---|---|---|---|---|---|---|
| src-api/common/string.c:624-631 | the scaling guard `number >= multiplier * step` and the multiplier wrap in uint64_t | UINT64_MAX, fraction 0, decimal: the loop passes 'E' onto the terminator; UINT64_MAX, fraction 4, binary: the multiplier wraps to 0 and then divides | stop at the largest step power not above the number, at most 'E' | not executed | AsWritten.ScalePastE | Encoder.ScaleStopsAtE |
| src-api/common/string.c:644-659 | digits are `n / (multiplier / 10)`, which for step 1024 can reach 10 | 2047, fraction 0, binary: the first digit is 1023 / 102 = 10, so assert(print < 10) fails | the exact decimal digits of the remainder, each below 10 | not executed | AsWritten.BinaryDigitOverflow | Encoder.DigitBound |
| src-api/common/string.c:644-659 | for step 1024, `multiplier / 10` is not a power of ten, so the digits are not the decimal expansion even when each is below 10 | 1536, fraction 0, binary: the digits are 5, 0, 2, so the text is "1.502 k" | "1.5 k", the exact decimal digits of 512/1024 | not executed | AsWritten.BinaryDigitsSkew | Encoder.FracDigits |
| src-api/common/string.c:488-499 | '-' is written only for INT64_MIN | -120000 encodes as "120 k" | "-120 k", as the comment at line 468 says | not executed | AsWritten.NegativeLosesSign | Encoder.HumanReadableS64 |
| src-api/common/string.c:551-560 | `num *= 10` wraps before the overflow guard at line 602 | "18446744073709551615." with fraction 1 gives 18446744073709551606 | an overflow error | not executed | AsWritten.ParseWrapsAround | Parser.ParseFormatted |
