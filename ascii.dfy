/**
  ASCII character classes standing in for Python's `str.lower()`, the regular
  expression class `\w` and the class `\s` (together with `str.strip()`).
 */
module Ascii {

  predicate IsUpper(c: char) { 'A' <= c <= 'Z' }

  predicate IsLower(c: char) { 'a' <= c <= 'z' }

  predicate IsDigit(c: char) { '0' <= c <= '9' }

  /** `\w` over ASCII: letters, digits and the underscore. */
  predicate IsWordChar(c: char) { IsUpper(c) || IsLower(c) || IsDigit(c) || c == '_' }

  /**
    `\s` over ASCII: the characters for which Python's `str.isspace()` holds,
    tab, line feed, vertical tab, form feed, carriage return (9-13), the four
    separators 28-31, and the space.
   */
  predicate IsSpace(c: char) {
    c == ' ' || (9 <= c as int <= 13) || (28 <= c as int <= 31)
  }

  /** A character that can appear in normalised text. */
  predicate IsNormalChar(c: char) { IsLower(c) || IsDigit(c) || c == '_' || c == ' ' }

  /** ASCII case folding, as `str.lower()` does on ASCII characters. */
  function ToLower(c: char): (r: char)
    ensures !IsUpper(r)
    ensures IsUpper(c) ==> IsLower(r) && r as int - c as int == 'a' as int - 'A' as int
    ensures !IsUpper(c) ==> r == c
  {
    if IsUpper(c) then (c as int - 'A' as int + 'a' as int) as char else c
  }
}
