/** ASCII character classes shared by the name sanitiser and the integer
    parser. */
module Chars {
  predicate IsAsciiLetter(c: char) {
    ('a' <= c <= 'z') || ('A' <= c <= 'Z')
  }

  predicate IsAsciiDigit(c: char) {
    '0' <= c <= '9'
  }
}
