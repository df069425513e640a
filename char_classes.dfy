/**
 * The character classes used by the two fixed patterns of the validator:
 * the e-mail pattern's word class `[a-zA-Z\d\.\-\_]`, the name pattern's
 * letter class `[a-zA-Z]` extended with U+00C0..U+024F and U+1E00..U+1EFF, and the whitespace
 * class `\s` of JavaScript regular expressions.
 */
module CharClasses {

  /** `[a-zA-Z]` */
  predicate IsAsciiLetter(c: char) {
    ('a' <= c <= 'z') || ('A' <= c <= 'Z')
  }

  /** `\d`: JavaScript's `\d` is ASCII digits only. */
  predicate IsDigit(c: char) {
    '0' <= c <= '9'
  }

  /** `\d*`: every character an ASCII digit. */
  predicate AllDigits(s: string) {
    forall i | 0 <= i < |s| :: IsDigit(s[i])
  }

  /** `[a-zA-Z\d\.\-\_]`: the class of the e-mail local part and domain. */
  predicate IsEmailWordChar(c: char) {
    IsAsciiLetter(c) || IsDigit(c) || c == '.' || c == '-' || c == '_'
  }

  /** `[a-zA-Z]` extended with U+00C0..U+024F and U+1E00..U+1EFF: ASCII letters, Latin-1 Supplement
      to Latin Extended-B, and Latin Extended Additional (Vietnamese letters). */
  predicate IsNameLetter(c: char) {
    IsAsciiLetter(c) || ('\U{00C0}' <= c <= '\U{024F}') || ('\U{1E00}' <= c <= '\U{1EFF}')
  }

  /** JavaScript `\s`: the WhiteSpace and LineTerminator code points of ECMAScript. */
  predicate IsJsSpace(c: char)
    ensures IsJsSpace(c) ==> !IsNameLetter(c) && !IsDigit(c)
  {
    || c == '\t' || c == '\n' || c == '\U{000B}' || c == '\U{000C}' || c == '\r'
    || c == ' ' || c == '\U{00A0}' || c == '\U{1680}'
    || ('\U{2000}' <= c <= '\U{200A}')
    || c == '\U{2028}' || c == '\U{2029}' || c == '\U{202F}' || c == '\U{205F}'
    || c == '\U{3000}' || c == '\U{FEFF}'
  }

  /** The name pattern can split words greedily because no letter is whitespace,
      and no digit is either. */
  lemma NameClassesDisjoint(c: char)
    ensures !(IsNameLetter(c) && IsJsSpace(c))
    ensures IsDigit(c) ==> !IsNameLetter(c) && !IsJsSpace(c)
  {
  }
}
