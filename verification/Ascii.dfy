/** The bytes the text formats give a meaning to. */
module Ascii {
  import opened Basics

  const TAB: byte := 9
  const LINE_FEED: byte := 10
  const CARRIAGE_RETURN: byte := 13
  const SPACE: byte := 32
  const QUOTE: byte := 34
  const HASH: byte := 35
  const DOLLAR: byte := 36
  const OPEN_PAREN: byte := 40
  const CLOSE_PAREN: byte := 41
  const STAR: byte := 42
  const PLUS: byte := 43
  const COMMA: byte := 44
  const DOT: byte := 46
  const DIGIT_ZERO: byte := 48
  const DIGIT_ONE: byte := 49
  const COLON: byte := 58
  const EQUALS: byte := 61
  const BACKSLASH: byte := 92
  const UNDERSCORE: byte := 95
  const LETTER_N: byte := 110
  const OPEN_BRACE: byte := 123
  const CLOSE_BRACE: byte := 125

  predicate IsSpace(b: byte) {
    b == SPACE || b == TAB
  }

  predicate IsLetter(b: byte) {
    65 <= b <= 90 || 97 <= b <= 122
  }

  predicate IsDigit(b: byte) {
    48 <= b <= 57
  }
}
