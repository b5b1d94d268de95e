/** The parts of a JSON text that hold no other values, as functions of the text and a position: white space and
    comments, literals, strings and numbers.  Positions only grow, and never past the first zero byte. */
module JsonLexer {
  import opened Ascii
  import opened Utf8
  import opened Texts
  import opened Wrappers

  type Text = seq<int>

  datatype ErrorCode =
    | DocumentEmpty
    | DocumentRootNotSingular
    | ValueInvalid
    | ObjectMissName
    | ObjectMissColon
    | ObjectMissCommaOrCurlyBracket
    | ArrayMissCommaOrSquareBracket
    | StringUnicodeEscapeInvalidHex
    | StringUnicodeSurrogateInvalid
    | StringEscapeInvalid
    | StringMissQuotationMark
    | StringInvalidEncoding
    | NumberTooBig
    | NumberMissFraction
    | NumberMissExponent
    | Termination
    | UnspecificSyntaxError

  /** What reading a piece of text gives: a value and the position after it, or an error and where it is. */
  datatype Lexed<+T> = Read(value: T, next: nat) | Bad(code: ErrorCode, offset: nat)

  // ----- white space and comments

  predicate IsBlank(c: int) {
    c == SPACE || c == LINE_FEED || c == CARRIAGE_RETURN || c == TAB
  }

  function SkipBlanks(src: Text, pos: nat): (p: nat)
    ensures pos <= p && !IsBlank(Peek(src, p))
    decreases |src| - pos
  {
    if IsBlank(Peek(src, pos)) then SkipBlanks(src, pos + 1) else pos
  }

  /** Inside a block comment: the position after it, if it is closed. */
  function SkipBlock(src: Text, pos: nat): (p: Lexed<()>)
    ensures if p.Read? then pos < p.next else pos <= p.offset && p.code == UnspecificSyntaxError
    decreases |src| - pos
  {
    if Peek(src, pos) == 0 then Bad(UnspecificSyntaxError, pos)
    else if Peek(src, pos) == ASTERISK && Peek(src, pos + 1) == SLASH then Read((), pos + 2)
    else SkipBlock(src, pos + 1)
  }

  function SkipLine(src: Text, pos: nat): (p: nat)
    ensures pos <= p
    decreases |src| - pos
  {
    if Peek(src, pos) == 0 then pos
    else if Peek(src, pos) == LINE_FEED then pos + 1
    else SkipLine(src, pos + 1)
  }

  function SkipComments(src: Text, pos: nat): (p: Lexed<()>)
    ensures if p.Read? then pos <= p.next else p.code == UnspecificSyntaxError
    decreases |src| - pos
  {
    if Peek(src, pos) != SLASH then Read((), pos)
    else if Peek(src, pos + 1) == ASTERISK then
      match SkipBlock(src, pos + 2)
      case Bad(code, offset) => Bad(code, offset)
      case Read(_, p) => SkipComments(src, SkipBlanks(src, p))
    else if Peek(src, pos + 1) == SLASH then SkipComments(src, SkipBlanks(src, SkipLine(src, pos + 2)))
    else Bad(UnspecificSyntaxError, pos + 1)
  }

  /** `SkipWhitespaceAndComments` */
  function Skip(src: Text, comments: bool, pos: nat): (p: Lexed<()>)
    ensures if p.Read? then pos <= p.next else p.code == UnspecificSyntaxError
  {
    var p := SkipBlanks(src, pos);
    if comments then SkipComments(src, p) else Read((), p)
  }

  // ----- literals

  /** The position of the first byte that differs from `word`, or the position after it. */
  function MatchWord(src: Text, pos: nat, word: seq<int>): (r: (bool, nat))
    ensures pos <= r.1
    decreases |word|
  {
    if word == [] then (true, pos)
    else if Peek(src, pos) == word[0] then MatchWord(src, pos + 1, word[1..])
    else (false, pos)
  }

  // ----- strings

  function HexDigit(c: int): (d: Option<nat>)
    ensures d.Some? ==> d.value < 16
  {
    if DIGIT_0 <= c <= DIGIT_9 then Some(c - DIGIT_0)
    else if UPPER_A <= c <= UPPER_F then Some(c - (UPPER_A - 10))
    else if LOWER_A <= c <= LOWER_F then Some(c - (LOWER_A - 10))
    else None
  }

  /** `n` more hexadecimal digits after `codepoint`. */
  function Hex(src: Text, pos: nat, n: nat, codepoint: nat): Option<nat>
    decreases n
  {
    if n == 0 then Some(codepoint)
    else
      match HexDigit(Peek(src, pos))
      case None => None
      case Some(d) => Hex(src, pos + 1, n - 1, codepoint * 16 + d)
  }

  lemma {:induction false} HexBound(src: Text, pos: nat, n: nat, codepoint: nat)
    requires Hex(src, pos, n, codepoint).Some?
    ensures n == 1 ==> Hex(src, pos, n, codepoint).value < (codepoint + 1) * 16
    ensures n == 2 ==> Hex(src, pos, n, codepoint).value < (codepoint + 1) * 0x100
    ensures n == 3 ==> Hex(src, pos, n, codepoint).value < (codepoint + 1) * 0x1000
    ensures n == 4 ==> Hex(src, pos, n, codepoint).value < (codepoint + 1) * 0x10000
    decreases n
  {
    if n > 0 {
      HexBound(src, pos + 1, n - 1, codepoint * 16 + HexDigit(Peek(src, pos)).value);
    }
  }

  function Hex4(src: Text, pos: nat): (r: Option<nat>)
    ensures r.Some? ==> r.value <= 0xFFFF
  {
    var r := Hex(src, pos, 4, 0);
    if r.Some? then HexBound(src, pos, 4, 0); r else r
  }

  /** The byte a one-letter escape stands for; zero when there is none. */
  function SimpleEscape(e: int): int {
    if e == QUOTE then QUOTE
    else if e == SLASH then SLASH
    else if e == BACKSLASH then BACKSLASH
    else if e == LOWER_B then BACKSPACE
    else if e == LOWER_F then FORM_FEED
    else if e == LOWER_N then LINE_FEED
    else if e == LOWER_R then CARRIAGE_RETURN
    else if e == LOWER_T then TAB
    else 0
  }

  predicate IsHighSurrogate(c: int) {
    0xD800 <= c <= 0xDBFF
  }

  /** The code point of a surrogate pair. */
  function Paired(high: int, low: int): int {
    (high - 0xD800) * 0x400 + (low - 0xDC00) + 0x10000
  }

  /** The escape whose backslash is at `pos`: the bytes it stands for. */
  function Escape(src: Text, pos: nat): (r: Lexed<seq<int>>)
    ensures r.Read? ==> pos < r.next
  {
    var e := Peek(src, pos + 1);
    if SimpleEscape(e) != 0 then Read([SimpleEscape(e)], pos + 2)
    else if e != LOWER_U then Bad(StringEscapeInvalid, pos)
    else
      match Hex4(src, pos + 2)
      case None => Bad(StringUnicodeEscapeInvalidHex, pos)
      case Some(codepoint) =>
        if !IsHighSurrogate(codepoint) then Read(Encode(codepoint), pos + 6)
        else if Peek(src, pos + 6) != BACKSLASH || Peek(src, pos + 7) != LOWER_U then Bad(StringUnicodeSurrogateInvalid, pos)
        else
          match Hex4(src, pos + 8)
          case None => Bad(StringUnicodeEscapeInvalidHex, pos)
          case Some(low) =>
            if low < 0xDC00 || low > 0xDFFF then Bad(StringUnicodeSurrogateInvalid, pos)
            else Read(Encode(Paired(codepoint, low)), pos + 12)
  }

  /** The rest of a string, after `out`, up to its closing quote. */
  function StringBody(src: Text, pos: nat, out: seq<int>): (r: Lexed<seq<int>>)
    ensures r.Read? ==> pos < r.next
    decreases |src| - pos
  {
    var c := Peek(src, pos);
    if c == BACKSLASH then
      match Escape(src, pos)
      case Bad(code, offset) => Bad(code, offset)
      case Read(bytes, next) => StringBody(src, next, out + bytes)
    else if c == QUOTE then Read(out, pos + 1)
    else if c == 0 then Bad(StringMissQuotationMark, pos)
    else if 0 <= c < SPACE then Bad(StringInvalidEncoding, pos)
    else StringBody(src, pos + 1, out + [c])
  }

  /** The string whose opening quote is at `pos`. */
  function String(src: Text, pos: nat): (r: Lexed<seq<int>>)
    ensures r.Read? ==> pos < r.next
  {
    StringBody(src, pos + 1, [])
  }

  // ----- numbers

  /** What a number is handed on as; a floating-point number by its text, whose conversion is not modelled. */
  datatype Number = Int(i: int) | Uint(i: int) | Int64(i: int) | Uint64(i: int) | Double(numeral: seq<int>)

  function DigitsEnd(src: Text, pos: nat): (p: nat)
    ensures pos <= p && (pos <= |src| ==> p <= |src|) && !IsDigit(Peek(src, p))
    ensures forall i | pos <= i < p :: IsDigit(Peek(src, i))
    decreases |src| - pos
  {
    if IsDigit(Peek(src, pos)) then DigitsEnd(src, pos + 1) else pos
  }

  /** The number a run of digits denotes, after `v`. */
  function DigitsValue(src: Text, pos: nat, v: nat): (r: nat)
    ensures v <= r
    decreases |src| - pos
  {
    if IsDigit(Peek(src, pos)) then DigitsValue(src, pos + 1, v * 10 + (Peek(src, pos) - DIGIT_0)) else v
  }

  const INT32_MIN_MAGNITUDE := 0x8000_0000
  const UINT32_MAX := 0xFFFF_FFFF
  const INT64_MIN_MAGNITUDE := 0x8000_0000_0000_0000
  const UINT64_MAX := 0xFFFF_FFFF_FFFF_FFFF

  /** The narrowest integer type that holds the value, if any does. */
  function IntegerOf(negative: bool, v: nat): (n: Option<Number>) {
    if negative then
      if v <= INT32_MIN_MAGNITUDE then Some(Int(0 - v)) else if v <= INT64_MIN_MAGNITUDE then Some(Int64(0 - v)) else None
    else
      if v <= UINT32_MAX then Some(Uint(v)) else if v <= UINT64_MAX then Some(Uint64(v)) else None
  }

  /** Where a fraction that may start at `pos` ends. */
  function Fraction(src: Text, pos: nat): (r: Lexed<bool>)
    ensures r.Read? ==> pos <= r.next && (pos <= |src| ==> r.next <= |src|)
  {
    if Peek(src, pos) != DOT then Read(false, pos)
    else if !IsDigit(Peek(src, pos + 1)) then Bad(NumberMissFraction, pos + 1)
    else Read(true, DigitsEnd(src, pos + 1))
  }

  predicate IsSign(c: int) {
    c == PLUS || c == DASH
  }

  function Exponent(src: Text, pos: nat): (r: Lexed<bool>)
    ensures r.Read? ==> pos <= r.next && (pos <= |src| ==> r.next <= |src|)
  {
    if Peek(src, pos) != LOWER_E && Peek(src, pos) != UPPER_E then Read(false, pos)
    else
      var p := if IsSign(Peek(src, pos + 1)) then pos + 2 else pos + 1;
      if !IsDigit(Peek(src, p)) then Bad(NumberMissExponent, p) else Read(true, DigitsEnd(src, p))
  }

  /** Where the integer part that starts at `pos` ends: a zero stands alone. */
  function IntegerEnd(src: Text, pos: nat): (p: nat)
    ensures pos <= p && (pos <= |src| ==> p <= |src|)
  {
    if Peek(src, pos) == DIGIT_0 then pos + 1 else DigitsEnd(src, pos)
  }

  /** The number at `pos`.  `tooBig` says which numerals overflow a double. */
  function NumberAt(src: Text, pos: nat, tooBig: seq<int> -> bool): (r: Lexed<Number>)
    ensures r.Read? ==> pos < r.next
  {
    var negative := Peek(src, pos) == DASH;
    var start := if negative then pos + 1 else pos;
    if !IsDigit(Peek(src, start)) then Bad(ValueInvalid, start)
    else
      var end := IntegerEnd(src, start);
      var v := if Peek(src, start) == DIGIT_0 then 0 else DigitsValue(src, start, 0);
      match Fraction(src, end)
      case Bad(code, offset) => Bad(code, offset)
      case Read(fraction, p) =>
        match Exponent(src, p)
        case Bad(code, offset) => Bad(code, offset)
        case Read(exponent, next) =>
          var exact := IntegerOf(negative, v);
          if !fraction && !exponent && exact.Some? then Read(exact.value, next)
          else if tooBig(src[pos..next]) then Bad(NumberTooBig, pos)
          else Read(Double(src[pos..next]), next)
  }
}
