/**
 * The character classes and the word-boundary assertion used by the DOI
 * pattern. The classes are the ASCII ones: `\d` is `[0-9]`, `\w` is
 * `[0-9A-Za-z_]` and `\s` is `[\t\n\v\f\r ]`.
 */
module CharClasses {

  /** `\d`: a decimal digit. */
  predicate IsDigit(c: char) {
    '0' <= c <= '9'
  }

  /** `\w`: a word character. */
  predicate IsWordChar(c: char) {
    IsDigit(c) || 'a' <= c <= 'z' || 'A' <= c <= 'Z' || c == '_'
  }

  /** `\s`: a whitespace character; `\S` is its complement. */
  predicate IsWhitespace(c: char) {
    c == ' ' || c == '\t' || c == '\n' || c == '\U{000B}' || c == '\U{000C}' || c == '\r'
  }

  /** The character just before position `i` is a word character. */
  predicate WordBefore(s: string, i: nat) {
    0 < i <= |s| && IsWordChar(s[i - 1])
  }

  /** The character at position `i` is a word character. */
  predicate WordAfter(s: string, i: nat) {
    i < |s| && IsWordChar(s[i])
  }

  /** `\b` at position `i`: a word character on exactly one side (the ends of `s` count as non-word). */
  predicate WordBoundary(s: string, i: nat) {
    i <= |s| && WordBefore(s, i) != WordAfter(s, i)
  }
}
