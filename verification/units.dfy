/**
 * The scale units of the human-readable number format: the symbol table
 * " kMGTPE" of _get_human_readable_u64 and the suffix switch of
 * str_parse_human_readable_u64.
 */
module Units {
  import opened Wrappers
  import opened Decimal

  /** Suffix symbols by power of the step; ' ' stands for no suffix. */
  const SYMBOLS: seq<char> := " kMGTPE"

  /** The scaling factor: 1024 for binary units, 1000 otherwise. */
  function Step(binary: bool): nat {
    if binary then 1024 else 1000
  }

  /**
   * The parser's fall-through switch: the power of the step a suffix
   * character stands for; None for a character the switch rejects.
   */
  function SuffixPower(c: char): (k: Option<nat>)
    ensures k.Some? ==> k.value < |SYMBOLS|
  {
    match c
    case 'E' => Some(6)
    case 'P' => Some(5)
    case 'T' => Some(4)
    case 'G' => Some(3)
    case 'M' => Some(2)
    case 'k' => Some(1)
    case ' ' => Some(0)
    case _ => None
  }

  /** The parser accepts exactly the encoder's symbols, each for its own power. */
  lemma SuffixPowerInvertsSymbols(c: char)
    ensures SuffixPower(c).Some? <==> c in SYMBOLS
    ensures SuffixPower(c).Some? ==> SYMBOLS[SuffixPower(c).value] == c
  {
  }

  /** The factor the parser's switch multiplies up for suffix c. */
  function SuffixFactor(c: char, binary: bool): (f: Option<nat>)
    ensures f.Some? <==> SuffixPower(c).Some?
    ensures f.Some? ==> f.value == Pow(Step(binary), SuffixPower(c).value) && f.value >= 1
  {
    match SuffixPower(c)
    case None => None
    case Some(k) => PowPositive(Step(binary), k); Some(Pow(Step(binary), k))
  }
}
