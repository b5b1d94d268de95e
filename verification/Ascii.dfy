/** Character codes. */
module Ascii {
  const BACKSPACE := 0x08
  const TAB := 0x09
  const LINE_FEED := 0x0A
  const VERTICAL_TAB := 0x0B
  const FORM_FEED := 0x0C
  const CARRIAGE_RETURN := 0x0D
  const SPACE := 0x20
  const QUOTE := 0x22
  const HASH := 0x23
  const DOLLAR := 0x24
  const PERCENT := 0x25
  const LEFT_PARENTHESIS := 0x28
  const RIGHT_PARENTHESIS := 0x29
  const ASTERISK := 0x2A
  const PLUS := 0x2B
  const COMMA := 0x2C
  const DASH := 0x2D
  const DOT := 0x2E
  const SLASH := 0x2F
  const DIGIT_0 := 0x30
  const DIGIT_1 := 0x31
  const DIGIT_5 := 0x35
  const DIGIT_8 := 0x38
  const DIGIT_9 := 0x39
  const COLON := 0x3A
  const QUESTION := 0x3F
  const UPPER_A := 0x41
  const UPPER_E := 0x45
  const UPPER_F := 0x46
  const UPPER_Z := 0x5A
  const LEFT_BRACKET := 0x5B
  const BACKSLASH := 0x5C
  const RIGHT_BRACKET := 0x5D
  const CARET := 0x5E
  const UNDERSCORE := 0x5F
  const LOWER_A := 0x61
  const LOWER_B := 0x62
  const LOWER_E := 0x65
  const LOWER_F := 0x66
  const LOWER_L := 0x6C
  const LOWER_N := 0x6E
  const LOWER_R := 0x72
  const LOWER_S := 0x73
  const LOWER_T := 0x74
  const LOWER_U := 0x75
  const LOWER_V := 0x76
  const LOWER_Z := 0x7A
  const LEFT_BRACE := 0x7B
  const BAR := 0x7C
  const RIGHT_BRACE := 0x7D
  const TILDE := 0x7E

  predicate IsDigit(c: int) {
    DIGIT_0 <= c <= DIGIT_9
  }
}
