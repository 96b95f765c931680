/** Character classes used by the fragment tokeniser (src/compactor.rs). */
module Chars {

  /** Strings are modelled as ASCII text, so a byte length is a character count. */
  predicate IsAscii(s: string) {
    forall i :: 0 <= i < |s| ==> s[i] < 128 as char
  }

  /** Rust's `char::is_whitespace` on ASCII: tab, line feed, vertical tab, form feed, carriage return, space. */
  predicate IsSpace(c: char) {
    c == ' ' || '\t' <= c <= '\r'
  }

  /** The regex class `[-_.]`: word separators that are dropped. */
  predicate IsDelim(c: char) {
    c == '-' || c == '_' || c == '.'
  }

  /** The regex class `[a-zA-Z]`. */
  predicate IsLetter(c: char) {
    'a' <= c <= 'z' || 'A' <= c <= 'Z'
  }

  /** The regex class `[A-Z0-9]`. */
  predicate IsUpperOrDigit(c: char) {
    'A' <= c <= 'Z' || '0' <= c <= '9'
  }

  /** `MAIN_SEPARATOR` on a Unix host. */
  const PathSeparator: char := '/'
}
