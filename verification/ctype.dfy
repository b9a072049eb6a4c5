/**
 * The character classes of <ctype.h> in the "C" locale
 * (section 7.4 of ISO/IEC 9899:2011). A `char` stands for one byte.
 */
module CType {

  /** isspace: space, horizontal tab, new-line, vertical tab, form feed, carriage return. */
  predicate IsSpace(c: char) {
    c == ' ' || c == '\t' || c == '\n' || c == '\r' || c as int == 11 || c as int == 12
  }

  /** isblank: space and horizontal tab. */
  predicate IsBlank(c: char) {
    c == ' ' || c == '\t'
  }

  /** tolower: maps 'A'..'Z' to 'a'..'z' and leaves every other character alone. */
  function ToLower(c: char): char {
    if 'A' <= c <= 'Z' then (c as int + 32) as char else c
  }
}
