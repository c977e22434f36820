/** Character classes used by the parser's regular expressions and by Python's
    `str.strip()`. */
module Chars {

  /** Python's whitespace set: what `str.isspace()`, `str.strip()` with no
      argument and the regex class `\s` (on `str` patterns) all accept. */
  predicate IsSpace(c: char) {
    || c == ' '
    || ('\t' <= c <= '\r')                 // \t \n \v \f \r
    || ('\U{1C}' <= c <= '\U{1F}')         // file, group, record, unit separators
    || c == '\U{85}'                       // next line
    || c == '\U{A0}'                       // no-break space
    || c == '\U{1680}'
    || ('\U{2000}' <= c <= '\U{200A}')
    || c == '\U{2028}' || c == '\U{2029}'
    || c == '\U{202F}' || c == '\U{205F}' || c == '\U{3000}'
  }

  /** The regex class `\d`, restricted to ASCII digits. */
  predicate IsDigit(c: char) {
    '0' <= c <= '9'
  }

  /** The regex class `\w` over the Latin script: ASCII letters and digits, `_`,
      the letters and numeric signs of Latin-1 and the letters of Latin
      Extended-A (which holds `œ`). */
  predicate IsWordChar(c: char) {
    || IsDigit(c)
    || ('A' <= c <= 'Z') || ('a' <= c <= 'z') || c == '_'
    || c == '\U{AA}' || c == '\U{B2}' || c == '\U{B3}' || c == '\U{B5}'
    || c == '\U{B9}' || c == '\U{BA}' || ('\U{BC}' <= c <= '\U{BE}')
    || ('\U{C0}' <= c <= '\U{D6}')         // À .. Ö
    || ('\U{D8}' <= c <= '\U{F6}')         // Ø .. ö
    || ('\U{F8}' <= c <= '\U{17F}')        // ø .. ſ, Latin Extended-A
  }

  /** The class `[A-ZÉÈÀÊÂÔÛÇÏÜ]` that opens a capitalised word. */
  predicate IsCap(c: char) {
    || ('A' <= c <= 'Z')
    || c == 'É' || c == 'È' || c == 'À' || c == 'Ê' || c == 'Â'
    || c == 'Ô' || c == 'Û' || c == 'Ç' || c == 'Ï' || c == 'Ü'
  }

  /** The three classes the name-shaped lookaheads combine never overlap in the
      way that would make a greedy quantifier backtrack: a capital is a word
      character, and no word character is whitespace. */
  lemma ClassesAreSeparate(c: char)
    ensures IsCap(c) ==> IsWordChar(c)
    ensures IsWordChar(c) ==> !IsSpace(c)
    ensures IsDigit(c) ==> IsWordChar(c) && !IsSpace(c)
  {
  }
}
