/** How the tokens of a JSON text may be spelled, written out character by character (RFC 8259, sections 2, 6 and 7), and
    that the lexer reads every spelling: strings, numbers, and what may stand between tokens. */
module JsonSpelling {
  import opened Ascii
  import opened JsonLexer
  import opened Streams
  import opened Texts
  import opened Utf8
  import opened Wrappers

  // ----- strings

  /** A character of a string: as it is, as an escape of one letter, or by its code point in hexadecimal digits, each of
      them in upper or lower case.  A low surrogate is let through alone, a high one is not. */
  datatype Piece = Plain(c: int) | Letter(e: int) | Unicode(c: int, upper: seq<bool>)

  predicate IsPiece(p: Piece) {
    match p
    case Plain(c) => 0x20 <= c < 0x100 && c != '"' as int && c != '\\' as int
    case Letter(e) => e in Codes("\"\\/bfnrt")
    case Unicode(c, upper) => (0 <= c < 0xD800 || 0xDC00 <= c <= 0x10FFFF) && |upper| == 8
  }

  function LetterCode(e: int): int {
    if e == 'b' as int then 8
    else if e == 't' as int then 9
    else if e == 'n' as int then 10
    else if e == 'f' as int then 12
    else if e == 'r' as int then 13
    else e
  }

  function HexChar(d: nat, upper: bool): int
    requires d < 16
  {
    if upper then Codes("0123456789ABCDEF")[d] else Codes("0123456789abcdef")[d]
  }

  /** `\uXXXX` for a code unit of sixteen bits. */
  function UnitText(u: nat, upper: seq<bool>): (s: seq<int>)
    requires u < 0x10000 && |upper| == 4
    ensures |s| == 6
  {
    Codes("\\u") + [HexChar(u / 0x1000, upper[0]), HexChar(u / 0x100 % 16, upper[1]), HexChar(u / 0x10 % 16, upper[2]),
                    HexChar(u % 16, upper[3])]
  }

  function PieceText(p: Piece): seq<int>
    requires IsPiece(p)
  {
    match p
    case Plain(c) => [c]
    case Letter(e) => ['\\' as int, e]
    case Unicode(c, upper) =>
      if c < 0x10000 then UnitText(c, upper[..4])
      else UnitText(0xD800 + (c - 0x10000) / 0x400, upper[..4]) + UnitText(0xDC00 + (c - 0x10000) % 0x400, upper[4..])
  }

  function PieceBytes(p: Piece): seq<int>
    requires IsPiece(p)
  {
    match p
    case Plain(c) => [c]
    case Letter(e) => [LetterCode(e)]
    case Unicode(c, _) => Encode(c)
  }

  predicate ArePieces(s: seq<Piece>) {
    forall i | 0 <= i < |s| :: IsPiece(s[i])
  }

  function Spelling(s: seq<Piece>): seq<int>
    requires ArePieces(s)
  {
    if s == [] then [] else assert IsPiece(s[0]); PieceText(s[0]) + Spelling(s[1..])
  }

  function Spelled(s: seq<Piece>): seq<int>
    requires ArePieces(s)
  {
    if s == [] then [] else assert IsPiece(s[0]); PieceBytes(s[0]) + Spelled(s[1..])
  }

  function StringText(s: seq<Piece>): seq<int>
    requires ArePieces(s)
  {
    ['"' as int] + (Spelling(s) + ['"' as int])
  }

  lemma ReadsHexChar(d: nat, upper: bool)
    requires d < 16
    ensures HexDigit(HexChar(d, upper)) == Some(d)
  {
    var c := HexChar(d, upper);
    assert c == if d < 10 then '0' as int + d else if upper then 'A' as int + (d - 10) else 'a' as int + (d - 10);
  }

  lemma FourDigits(u: nat)
    requires u < 0x10000
    ensures u / 0x1000 < 16
    ensures ((u / 0x1000 * 16 + u / 0x100 % 16) * 16 + u / 0x10 % 16) * 16 + u % 16 == u
  {
  }

  /** A code unit is read whichever case its digits have. */
  lemma ReadsUnit(src: Text, pos: nat, u: nat, upper: seq<bool>)
    requires u < 0x10000 && |upper| == 4 && At(src, pos, UnitText(u, upper))
    ensures Peek(src, pos) == '\\' as int && Peek(src, pos + 1) == 'u' as int && Hex4(src, pos + 2) == Some(u)
  {
    hide HexChar, HexDigit;
    var s := UnitText(u, upper);
    forall k | 0 <= k < 6
      ensures Peek(src, pos + k) == s[k]
    {
      assert src[pos..pos + 6][k] == src[pos + k];
    }
    FourDigits(u);
    ReadsHexChar(u / 0x1000, upper[0]);
    ReadsHexChar(u / 0x100 % 16, upper[1]);
    ReadsHexChar(u / 0x10 % 16, upper[2]);
    ReadsHexChar(u % 16, upper[3]);
    var h := pos + 2;
    assert Peek(src, h) == s[2] && Peek(src, h + 1) == s[3] && Peek(src, h + 2) == s[4] && Peek(src, h + 3) == s[5];
    var a := u / 0x1000;
    var b := a * 16 + u / 0x100 % 16;
    var c := b * 16 + u / 0x10 % 16;
    assert Hex(src, h, 4, 0) == Hex(src, h + 1, 3, a) == Hex(src, h + 2, 2, b) == Hex(src, h + 3, 1, c) == Hex(src, h + 4, 0, u);
  }

  /** Every code point, by its one or two code units, is read as its UTF-8. */
  lemma ReadsUnicode(src: Text, pos: nat, c: int, upper: seq<bool>)
    requires IsPiece(Unicode(c, upper)) && At(src, pos, PieceText(Unicode(c, upper)))
    ensures Escape(src, pos) == Read(Encode(c), pos + |PieceText(Unicode(c, upper))|)
  {
    hide Hex4, UnitText, Encode;
    if c < 0x10000 {
      ReadsUnit(src, pos, c, upper[..4]);
    } else {
      var high, low := 0xD800 + (c - 0x10000) / 0x400, 0xDC00 + (c - 0x10000) % 0x400;
      AtSplit(src, pos, UnitText(high, upper[..4]), UnitText(low, upper[4..]));
      ReadsUnit(src, pos, high, upper[..4]);
      ReadsUnit(src, pos + 6, low, upper[4..]);
      assert Paired(high, low) == c;
    }
  }

  lemma ReadsPiece(src: Text, pos: nat, p: Piece, out: seq<int>)
    requires IsPiece(p) && At(src, pos, PieceText(p))
    ensures StringBody(src, pos, out) == StringBody(src, pos + |PieceText(p)|, out + PieceBytes(p))
  {
    match p {
      case Plain(c) =>
        AtFirst(src, pos, [c]);
      case Letter(e) =>
        AtFirst(src, pos, ['\\' as int, e]);
        AtFirst(src, pos + 1, ['\\' as int, e][1..]);
        LetterIsRead(e);
        hide SimpleEscape, LetterCode;
      case Unicode(c, upper) =>
        ReadsUnicode(src, pos, c, upper);
        UnicodeHead(c, upper);
        AtFirst(src, pos, PieceText(p));
        hide Escape, PieceText, Encode;
    }
  }

  lemma LetterIsRead(e: int)
    requires e in Codes("\"\\/bfnrt")
    ensures SimpleEscape(e) == LetterCode(e) != 0
  {
    var i :| 0 <= i < 8 && e == Codes("\"\\/bfnrt")[i];
  }

  lemma UnicodeHead(c: int, upper: seq<bool>)
    requires IsPiece(Unicode(c, upper))
    ensures PieceText(Unicode(c, upper)) != [] && PieceText(Unicode(c, upper))[0] == '\\' as int
  {
  }

  lemma PiecesParts(s: seq<Piece>, out: seq<int>)
    requires ArePieces(s) && s != []
    ensures IsPiece(s[0]) && ArePieces(s[1..]) && Spelling(s) == PieceText(s[0]) + Spelling(s[1..])
    ensures (out + PieceBytes(s[0])) + Spelled(s[1..]) == out + Spelled(s)
  {
    hide PieceText, PieceBytes, IsPiece;
    assert IsPiece(s[0]);
  }

  lemma {:induction false} ReadsSpelling(src: Text, pos: nat, s: seq<Piece>, out: seq<int>)
    requires ArePieces(s) && At(src, pos, Spelling(s))
    ensures StringBody(src, pos, out) == StringBody(src, pos + |Spelling(s)|, out + Spelled(s))
    decreases |s|
  {
    hide *;
    if s == [] {
      NothingSpelled(s, out);
    } else {
      PiecesParts(s, out);
      AtSplit(src, pos, PieceText(s[0]), Spelling(s[1..]));
      ReadsPiece(src, pos, s[0], out);
      ReadsSpelling(src, pos + |PieceText(s[0])|, s[1..], out + PieceBytes(s[0]));
    }
  }

  lemma NothingSpelled(s: seq<Piece>, out: seq<int>)
    requires s == []
    ensures Spelling(s) == [] && out + Spelled(s) == out
  {
  }

  lemma QuoteThenSpelling(src: Text, pos: nat, s: seq<Piece>)
    requires ArePieces(s) && At(src, pos, ['"' as int] + Spelling(s))
    ensures Peek(src, pos) == '"' as int && String(src, pos) == StringBody(src, pos + 1 + |Spelling(s)|, Spelled(s))
  {
    hide Spelling, Spelled, StringBody, At;
    AtSplit(src, pos, ['"' as int], Spelling(s));
    AtFirst(src, pos, ['"' as int]);
    ReadsSpelling(src, pos + 1, s, []);
    assert [] + Spelled(s) == Spelled(s);
  }

  /** Every spelling of a string is read as the bytes it spells. */
  lemma ReadsStringText(src: Text, pos: nat, s: seq<Piece>)
    requires ArePieces(s) && At(src, pos, StringText(s))
    ensures Peek(src, pos) == '"' as int && String(src, pos) == Read(Spelled(s), pos + |StringText(s)|)
  {
    hide Spelling, Spelled, At, ArePieces, StringBody;
    assert StringText(s) == (['"' as int] + Spelling(s)) + ['"' as int];
    AtSplit(src, pos, ['"' as int] + Spelling(s), ['"' as int]);
    AtFirst(src, pos + 1 + |Spelling(s)|, ['"' as int]);
    QuoteThenSpelling(src, pos, s);
    Closes(src, pos + 1 + |Spelling(s)|, Spelled(s));
  }

  lemma Closes(src: Text, pos: nat, out: seq<int>)
    requires Peek(src, pos) == '"' as int
    ensures StringBody(src, pos, out) == Read(out, pos + 1)
  {
  }

  /** The characters that are digits of a hexadecimal numeral. */
  predicate IsHexChar(c: int) {
    c in Codes("0123456789abcdefABCDEF")
  }

  lemma HexCharsAre(c: int)
    ensures HexDigit(c).Some? <==> IsHexChar(c)
  {
    var s := Codes("0123456789abcdefABCDEF");
    assert forall i | 0 <= i < 22 :: s[i] == if i < 10 then '0' as int + i else if i < 16 then 'a' as int + (i - 10) else 'A' as int + (i - 16);
    if DIGIT_0 <= c <= DIGIT_9 {
      assert s[c - DIGIT_0] == c;
    } else if LOWER_A <= c <= LOWER_F {
      assert s[10 + (c - LOWER_A)] == c;
    } else if UPPER_A <= c <= UPPER_F {
      assert s[16 + (c - UPPER_A)] == c;
    }
  }

  /** At one of four places there is no hexadecimal digit. */
  predicate LacksHexDigit(src: Text, pos: nat) {
    !IsHexChar(Peek(src, pos)) || !IsHexChar(Peek(src, pos + 1)) || !IsHexChar(Peek(src, pos + 2)) || !IsHexChar(Peek(src, pos + 3))
  }

  lemma LacksMeansNone(src: Text, pos: nat)
    requires LacksHexDigit(src, pos)
    ensures Hex4(src, pos) == None
  {
    HexCharsAre(Peek(src, pos));
    HexCharsAre(Peek(src, pos + 1));
    HexCharsAre(Peek(src, pos + 2));
    HexCharsAre(Peek(src, pos + 3));
    hide HexDigit, IsHexChar, Peek;
  }

  lemma LettersAre(e: int)
    ensures SimpleEscape(e) != 0 || e == LOWER_U <==> e in Codes("\"\\/bfnrtu")
  {
    assert Codes("\"\\/bfnrtu")
        == ['"' as int, '\\' as int, '/' as int, 'b' as int, 'f' as int, 'n' as int, 'r' as int, 't' as int, 'u' as int];
  }

  /** What is wrong with an escape: the backslash is followed by no letter that is one, or by `u` and too few hexadecimal
      digits. */
  lemma EscapeErrors(src: Text, p: nat)
    ensures var e, r := Peek(src, p + 1), Escape(src, p);
            && (e !in Codes("\"\\/bfnrtu") ==> r == Bad(StringEscapeInvalid, p))
            && (e == 'u' as int && LacksHexDigit(src, p + 2) ==> r == Bad(StringUnicodeEscapeInvalidHex, p))
  {
    var e := Peek(src, p + 1);
    LettersAre(e);
    if LacksHexDigit(src, p + 2) {
      LacksMeansNone(src, p + 2);
    }
    hide Hex4, LacksHexDigit, Codes, Peek;
  }

  /** A high surrogate wants a low one after it, spelled in the same way. */
  lemma SurrogateErrors(src: Text, p: nat, u: nat, upper: seq<bool>)
    requires 0xD800 <= u <= 0xDBFF && |upper| == 4 && At(src, p, UnitText(u, upper))
    ensures if !(Peek(src, p + 6) == '\\' as int && Peek(src, p + 7) == 'u' as int) then Escape(src, p) == Bad(StringUnicodeSurrogateInvalid, p)
            else LacksHexDigit(src, p + 8) ==> Escape(src, p) == Bad(StringUnicodeEscapeInvalidHex, p)
  {
    ReadsUnit(src, p, u, upper);
    if LacksHexDigit(src, p + 8) {
      LacksMeansNone(src, p + 8);
    }
    hide Hex4, LacksHexDigit, UnitText, At, Peek;
  }

  lemma UnpairedError(src: Text, p: nat, u: nat, upper: seq<bool>, low: nat)
    requires 0xD800 <= u <= 0xDBFF && |upper| == 4 && At(src, p, UnitText(u, upper))
    requires (low < 0xDC00 || 0xDFFF < low < 0x10000) && At(src, p + 6, UnitText(low, upper))
    ensures Escape(src, p) == Bad(StringUnicodeSurrogateInvalid, p)
  {
    ReadsUnit(src, p, u, upper);
    ReadsUnit(src, p + 6, low, upper);
    hide Hex4, UnitText, At, Peek;
  }

  /** What is wrong with a string, after what can be read of it, and where: it does not end, it holds a control
      character, or something is wrong with an escape. */
  lemma StringErrors(src: Text, pos: nat, s: seq<Piece>)
    requires ArePieces(s) && At(src, pos, ['"' as int] + Spelling(s))
    ensures var p := pos + 1 + |Spelling(s)|;
            var c, r := Peek(src, p), String(src, pos);
            && (c == 0 ==> r == Bad(StringMissQuotationMark, p))
            && (0 < c < 0x20 ==> r == Bad(StringInvalidEncoding, p))
            && (c == '\\' as int && Escape(src, p).Bad? ==> r.Bad? && r.code == Escape(src, p).code && r.offset == Escape(src, p).offset)
  {
    hide *;
    QuoteThenSpelling(src, pos, s);
    BodyErrors(src, pos + 1 + |Spelling(s)|, Spelled(s));
  }

  lemma BodyErrors(src: Text, p: nat, out: seq<int>)
    ensures var c, r := Peek(src, p), StringBody(src, p, out);
            && (c == 0 ==> r == Bad(StringMissQuotationMark, p))
            && (0 < c < 0x20 ==> r == Bad(StringInvalidEncoding, p))
            && (c == '\\' as int && Escape(src, p).Bad? ==> r.Bad? && r.code == Escape(src, p).code && r.offset == Escape(src, p).offset)
  {
    hide Escape, Peek;
  }

  // ----- numbers

  datatype ExponentPart = NoExponent | ExponentPart(letter: int, sign: seq<int>, digits: seq<int>)

  /** A number: its sign, its integer part, the digits of its fraction if it has one, and its exponent. */
  datatype Numeral = Numeral(negative: bool, n: nat, fraction: seq<int>, exponent: ExponentPart)

  predicate AreDigits(s: seq<int>) {
    forall i | 0 <= i < |s| :: '0' as int <= s[i] <= '9' as int
  }

  predicate IsExponent(e: ExponentPart) {
    e.ExponentPart? ==>
      && e.letter in Codes("eE") && e.sign in {[], ['+' as int], ['-' as int]} && AreDigits(e.digits) && e.digits != []
  }

  predicate IsNumeral(m: Numeral) {
    AreDigits(m.fraction) && IsExponent(m.exponent)
  }

  function FractionText(fraction: seq<int>): seq<int> {
    if fraction == [] then [] else ['.' as int] + fraction
  }

  function ExponentText(e: ExponentPart): seq<int> {
    if e == NoExponent then [] else [e.letter] + (e.sign + e.digits)
  }

  function NumeralText(m: Numeral): seq<int> {
    (if m.negative then ['-' as int] else []) + (Decimal(m.n) + (FractionText(m.fraction) + ExponentText(m.exponent)))
  }

  predicate IsInteger(m: Numeral) {
    m.fraction == [] && m.exponent == NoExponent && (if m.negative then m.n <= 0x8000_0000_0000_0000 else m.n < 0x1_0000_0000_0000_0000)
  }

  /** An integer of 64 bits is handed on as such, in 32 bits if that is enough; any other number by its text. */
  function NumeralValue(m: Numeral): Number {
    if !IsInteger(m) then Double(NumeralText(m))
    else if m.negative then if m.n <= 0x8000_0000 then Int(0 - m.n) else Int64(0 - m.n)
    else if m.n < 0x1_0000_0000 then Uint(m.n) else Uint64(m.n)
  }

  /** What may follow a number without being taken for a part of it. */
  predicate EndsNumber(c: int) {
    !IsDigit(c) && c != DOT && c != LOWER_E && c != UPPER_E
  }

  lemma {:induction false} RunOfDigits(src: Text, pos: nat, s: seq<int>)
    requires AreDigits(s) && At(src, pos, s) && !IsDigit(Peek(src, pos + |s|))
    ensures DigitsEnd(src, pos) == pos + |s|
    decreases |s|
  {
    if s != [] {
      AtFirst(src, pos, s);
      RunOfDigits(src, pos + 1, s[1..]);
    }
  }

  lemma {:induction false} ReadsDigits(src: Text, pos: nat, n: nat)
    requires At(src, pos, Decimal(n))
    ensures DigitsValue(src, pos, 0) == DigitsValue(src, pos + |Decimal(n)|, n)
    ensures DigitsEnd(src, pos) == DigitsEnd(src, pos + |Decimal(n)|)
    decreases n
  {
    if n < 10 {
      AtFirst(src, pos, Decimal(n));
    } else {
      var d := [n % 10 + DIGIT_0];
      AtSplit(src, pos, Decimal(n / 10), d);
      ReadsDigits(src, pos, n / 10);
      AtFirst(src, pos + |Decimal(n / 10)|, d);
    }
  }

  lemma ReadsDecimal(src: Text, pos: nat, n: nat)
    requires At(src, pos, Decimal(n)) && !IsDigit(Peek(src, pos + |Decimal(n)|))
    ensures IsDigit(Peek(src, pos)) && IntegerEnd(src, pos) == pos + |Decimal(n)|
    ensures n == if Peek(src, pos) == DIGIT_0 then 0 else DigitsValue(src, pos, 0)
  {
    DecimalDigits(n);
    AtFirst(src, pos, Decimal(n));
    ReadsDigits(src, pos, n);
  }

  lemma ReadsFraction(src: Text, pos: nat, fraction: seq<int>)
    requires AreDigits(fraction) && At(src, pos, FractionText(fraction))
    requires var c := Peek(src, pos + |FractionText(fraction)|); !IsDigit(c) && c != DOT
    ensures Fraction(src, pos) == Read(fraction != [], pos + |FractionText(fraction)|)
  {
    if fraction != [] {
      var s := FractionText(fraction);
      AtFirst(src, pos, s);
      assert s[1..] == fraction;
      AtFirst(src, pos + 1, fraction);
      RunOfDigits(src, pos + 1, fraction);
    }
  }

  lemma LetterIs(c: int)
    requires c in Codes("eE")
    ensures c == LOWER_E || c == UPPER_E
  {
    assert Codes("eE") == ['e' as int, 'E' as int];
  }

  lemma ReadsExponent(src: Text, pos: nat, e: ExponentPart)
    requires IsExponent(e) && At(src, pos, ExponentText(e)) && EndsNumber(Peek(src, pos + |ExponentText(e)|))
    ensures Exponent(src, pos) == Read(e != NoExponent, pos + |ExponentText(e)|)
  {
    hide At, DigitsEnd;
    if e != NoExponent {
      var s := ExponentText(e);
      LetterIs(e.letter);
      AtFirst(src, pos, s);
      assert s[1..] == e.sign + e.digits;
      hide Codes;
      AtSplit(src, pos + 1, e.sign, e.digits);
      var p := pos + 1 + |e.sign|;
      AtFirst(src, p, e.digits);
      RunOfDigits(src, p, e.digits);
      if e.sign != [] {
        AtFirst(src, pos + 1, e.sign);
      }
    }
  }

  lemma AtFour(src: Text, pos: nat, sign: seq<int>, a: seq<int>, f: seq<int>, e: seq<int>)
    requires At(src, pos, sign + (a + (f + e)))
    ensures At(src, pos, sign) && At(src, pos + |sign|, a) && At(src, pos + |sign| + |a|, f)
    ensures At(src, pos + |sign| + |a| + |f|, e)
  {
    hide At;
    AtSplit(src, pos, sign, a + (f + e));
    AtSplit(src, pos + |sign|, a, f + e);
    AtSplit(src, pos + |sign| + |a|, f, e);
  }

  /** What follows the parts of a number that come before. */
  lemma NumeralParts(src: Text, pos: nat, m: Numeral)
    requires IsNumeral(m) && At(src, pos, NumeralText(m)) && EndsNumber(Peek(src, pos + |NumeralText(m)|))
    ensures var start := if m.negative then pos + 1 else pos;
            var p := start + |Decimal(m.n)|;
            var q := p + |FractionText(m.fraction)|;
            && (Peek(src, pos) == DASH <==> m.negative)
            && At(src, start, Decimal(m.n)) && At(src, p, FractionText(m.fraction)) && At(src, q, ExponentText(m.exponent))
            && q + |ExponentText(m.exponent)| == pos + |NumeralText(m)|
            && !IsDigit(Peek(src, p)) && !IsDigit(Peek(src, q)) && Peek(src, q) != DOT
  {
    hide At, Decimal;
    var a, f, e := Decimal(m.n), FractionText(m.fraction), ExponentText(m.exponent);
    var sign := if m.negative then ['-' as int] else [];
    var start := pos + |sign|;
    AtFour(src, pos, sign, a, f, e);
    DecimalDigits(m.n);
    if m.negative {
      AtFirst(src, pos, sign);
    } else {
      AtFirst(src, pos, a);
    }
    ExponentHead(src, start + |a| + |f|, m.exponent);
    if f != [] {
      AtFirst(src, start + |a|, f);
    }
  }

  lemma ExponentHead(src: Text, pos: nat, e: ExponentPart)
    requires IsExponent(e) && At(src, pos, ExponentText(e)) && EndsNumber(Peek(src, pos + |ExponentText(e)|))
    ensures !IsDigit(Peek(src, pos)) && Peek(src, pos) != DOT
  {
    if e != NoExponent {
      AtFirst(src, pos, ExponentText(e));
      assert Codes("eE") == ['e' as int, 'E' as int];
    }
  }

  /** Every number is read to its end, as what it stands for. */
  lemma ReadsNumeral(src: Text, pos: nat, m: Numeral, tooBig: seq<int> -> bool)
    requires IsNumeral(m) && At(src, pos, NumeralText(m)) && EndsNumber(Peek(src, pos + |NumeralText(m)|))
    ensures NumberAt(src, pos, tooBig)
         == if !IsInteger(m) && tooBig(NumeralText(m)) then Bad(NumberTooBig, pos) else Read(NumeralValue(m), pos + |NumeralText(m)|)
    ensures Peek(src, pos) == DASH || IsDigit(Peek(src, pos))
  {
    hide At, DigitsEnd, DigitsValue, IntegerEnd, Decimal, Fraction, Exponent, FractionText, ExponentText, NumeralText;
    NumeralParts(src, pos, m);
    var start := if m.negative then pos + 1 else pos;
    var p := start + |Decimal(m.n)|;
    ReadsDecimal(src, start, m.n);
    ReadsFraction(src, p, m.fraction);
    ReadsExponent(src, p + |FractionText(m.fraction)|, m.exponent);
    SliceAt(src, pos, NumeralText(m));
  }

  lemma SliceAt(src: Text, pos: nat, s: seq<int>)
    requires At(src, pos, s)
    ensures src[pos..pos + |s|] == s
  {
  }

  /** A number without digits. */
  lemma NoNumber(src: Text, pos: nat, tooBig: seq<int> -> bool)
    ensures var start := if Peek(src, pos) == '-' as int then pos + 1 else pos;
            !('0' as int <= Peek(src, start) <= '9' as int) ==> NumberAt(src, pos, tooBig) == Bad(ValueInvalid, start)
  {
  }

  /** The sign, the integer part and the fraction of a number that goes on. */
  lemma UpToFraction(src: Text, pos: nat, m: Numeral)
    requires IsNumeral(m) && m.exponent == NoExponent && At(src, pos, NumeralText(m))
    requires var c := Peek(src, pos + |NumeralText(m)|); !IsDigit(c) && (m.fraction != [] ==> c != DOT)
    ensures var start := if m.negative then pos + 1 else pos;
            var p := start + |Decimal(m.n)|;
            && (Peek(src, pos) == DASH <==> m.negative) && IsDigit(Peek(src, start)) && IntegerEnd(src, start) == p
            && At(src, p, FractionText(m.fraction)) && p + |FractionText(m.fraction)| == pos + |NumeralText(m)|
  {
    hide At, Decimal, FractionText, IntegerEnd;
    var a, f := Decimal(m.n), FractionText(m.fraction);
    var sign := if m.negative then ['-' as int] else [];
    var p := pos + |sign| + |a|;
    AtFour(src, pos, sign, a, f, []);
    assert f + [] == f;
    NoFractionText();
    FractionHead(src, p, m.fraction);
    ReadsDecimal(src, pos + |sign|, m.n);
    SignHead(src, pos, m.negative);
  }

  lemma SignHead(src: Text, pos: nat, negative: bool)
    requires At(src, pos, if negative then ['-' as int] else []) && IsDigit(Peek(src, if negative then pos + 1 else pos))
    ensures Peek(src, pos) == DASH <==> negative
  {
    if negative {
      AtFirst(src, pos, ['-' as int]);
    }
  }

  lemma FractionHead(src: Text, p: nat, fraction: seq<int>)
    requires At(src, p, FractionText(fraction)) && (fraction == [] ==> !IsDigit(Peek(src, p)))
    ensures !IsDigit(Peek(src, p))
  {
    if fraction != [] {
      AtFirst(src, p, FractionText(fraction));
    }
  }

  lemma NoFractionText()
    ensures FractionText([]) == []
  {
  }

  /** A point after which no digit comes. */
  lemma FractionMissing(src: Text, pos: nat, m: Numeral, tooBig: seq<int> -> bool)
    requires IsNumeral(m) && m.fraction == [] && m.exponent == NoExponent && At(src, pos, NumeralText(m))
    requires var p := pos + |NumeralText(m)|; Peek(src, p) == '.' as int && !IsDigit(Peek(src, p + 1))
    ensures NumberAt(src, pos, tooBig) == Bad(NumberMissFraction, pos + |NumeralText(m)| + 1)
  {
    UpToFraction(src, pos, m);
    hide At, Decimal, NumeralText, IntegerEnd, DigitsValue;
  }

  lemma NoExponentDigits(src: Text, p: nat)
    requires Peek(src, p) in Codes("eE")
    ensures !IsDigit(Peek(src, p)) && Peek(src, p) != DOT
    ensures var q := if Peek(src, p + 1) in Codes("+-") then p + 2 else p + 1;
            !IsDigit(Peek(src, q)) ==> Exponent(src, p) == Bad(NumberMissExponent, q)
  {
    assert Codes("eE") == ['e' as int, 'E' as int] && Codes("+-") == ['+' as int, '-' as int];
  }

  /** An exponent, with its sign if it has one, after which no digit comes. */
  lemma ExponentMissing(src: Text, pos: nat, m: Numeral, tooBig: seq<int> -> bool)
    requires IsNumeral(m) && m.exponent == NoExponent && At(src, pos, NumeralText(m))
    requires Peek(src, pos + |NumeralText(m)|) in Codes("eE")
    ensures var p := pos + |NumeralText(m)|;
            var q := if Peek(src, p + 1) in Codes("+-") then p + 2 else p + 1;
            !IsDigit(Peek(src, q)) ==> NumberAt(src, pos, tooBig) == Bad(NumberMissExponent, q)
  {
    hide At, Decimal, NumeralText, IntegerEnd, DigitsValue, Fraction, FractionText, Codes, Peek, Exponent, IsNumeral;
    NoExponentDigits(src, pos + |NumeralText(m)|);
    UpToFraction(src, pos, m);
    DigitsOf(m);
    var start := if m.negative then pos + 1 else pos;
    ReadsFraction(src, start + |Decimal(m.n)|, m.fraction);
  }

  lemma DigitsOf(m: Numeral)
    requires IsNumeral(m)
    ensures AreDigits(m.fraction)
  {
  }

  // ----- between tokens

  /** White space of one character, or a comment. */
  datatype Filler = Blank(c: int) | BlockComment(text: seq<int>) | LineComment(text: seq<int>)

  type Gap = seq<Filler>

  /** Inside a block comment: it is not closed, nor does the text end, before its closing mark. */
  predicate StaysOpen(text: seq<int>) {
    forall i | 0 <= i < |text| ::
      text[i] != 0 && !(text[i] == '*' as int && (if i + 1 < |text| then text[i + 1] else '*' as int) == '/' as int)
  }

  predicate IsFiller(f: Filler, comments: bool) {
    match f
    case Blank(c) => c in Codes(" \n\r\t")
    case BlockComment(text) => comments && StaysOpen(text)
    case LineComment(text) => comments && 0 !in text && '\n' as int !in text
  }

  predicate IsGap(g: Gap, comments: bool) {
    forall i | 0 <= i < |g| :: IsFiller(g[i], comments)
  }

  function FillerText(f: Filler): seq<int> {
    match f
    case Blank(c) => [c]
    case BlockComment(text) => Codes("/*") + (text + Codes("*/"))
    case LineComment(text) => Codes("//") + (text + ['\n' as int])
  }

  function GapText(g: Gap): seq<int> {
    if g == [] then [] else FillerText(g[0]) + GapText(g[1..])
  }

  /** Nothing is skipped before a byte that is neither blank nor a slash. */
  predicate NotSkipped(c: int) {
    !IsBlank(c) && c != SLASH
  }

  /** The blanks are these four characters. */
  lemma BlanksAre(c: int)
    ensures IsBlank(c) <==> c in Codes(" \n\r\t")
  {
    assert Codes(" \n\r\t") == [0x20, 10, 13, 9];
  }

  lemma {:induction false} ReadsBlock(src: Text, pos: nat, text: seq<int>)
    requires StaysOpen(text) && At(src, pos, text + Codes("*/"))
    ensures SkipBlock(src, pos) == Read((), pos + |text| + 2)
    decreases |text|
  {
    var s := text + Codes("*/");
    assert Codes("*/") == ['*' as int, '/' as int];
    AtFirst(src, pos, s);
    AtFirst(src, pos + 1, s[1..]);
    if text != [] {
      assert s[1..] == text[1..] + Codes("*/");
      assert s[1] == if 1 < |text| then text[1] else '*' as int;
      assert StaysOpen(text[1..]) by {
        forall i | 0 <= i < |text| - 1
          ensures text[1..][i] == text[i + 1]
        {
        }
      }
      ReadsBlock(src, pos + 1, text[1..]);
    }
  }

  lemma {:induction false} ReadsLine(src: Text, pos: nat, text: seq<int>)
    requires 0 !in text && '\n' as int !in text && At(src, pos, text + ['\n' as int])
    ensures SkipLine(src, pos) == pos + |text| + 1
    decreases |text|
  {
    var s := text + ['\n' as int];
    AtFirst(src, pos, s);
    if text != [] {
      assert s[1..] == text[1..] + ['\n' as int] && text[0] in text;
      ReadsLine(src, pos + 1, text[1..]);
    }
  }

  lemma SkipsBlank(src: Text, comments: bool, pos: nat, c: int)
    requires c in Codes(" \n\r\t") && At(src, pos, [c])
    ensures Skip(src, comments, pos) == Skip(src, comments, pos + 1)
  {
    AtFirst(src, pos, [c]);
    BlanksAre(c);
    hide IsBlank, Codes, At, SkipComments;
  }

  lemma SkipsBlockComment(src: Text, pos: nat, text: seq<int>)
    requires StaysOpen(text) && At(src, pos, Codes("/*") + (text + Codes("*/")))
    ensures Skip(src, true, pos) == Skip(src, true, pos + 4 + |text|)
  {
    hide SkipBlock, At, StaysOpen;
    AtSplit(src, pos, Codes("/*"), text + Codes("*/"));
    OpeningMark(src, pos, "/*");
    ReadsBlock(src, pos + 2, text);
    assert SkipBlanks(src, pos) == pos;
  }

  lemma SkipsLineComment(src: Text, pos: nat, text: seq<int>)
    requires 0 !in text && '\n' as int !in text && At(src, pos, Codes("//") + (text + ['\n' as int]))
    ensures Skip(src, true, pos) == Skip(src, true, pos + 3 + |text|)
  {
    hide SkipLine, At;
    AtSplit(src, pos, Codes("//"), text + ['\n' as int]);
    OpeningMark(src, pos, "//");
    ReadsLine(src, pos + 2, text);
    assert SkipBlanks(src, pos) == pos;
  }

  /** One filler is skipped. */
  lemma SkipsFiller(src: Text, comments: bool, pos: nat, f: Filler)
    requires IsFiller(f, comments) && At(src, pos, FillerText(f))
    ensures Skip(src, comments, pos) == Skip(src, comments, pos + |FillerText(f)|)
  {
    hide Skip, At, StaysOpen;
    match f
    case Blank(c) => SkipsBlank(src, comments, pos, c);
    case BlockComment(text) => SkipsBlockComment(src, pos, text);
    case LineComment(text) => SkipsLineComment(src, pos, text);
  }

  lemma OpeningMark(src: Text, pos: nat, mark: string)
    requires |mark| == 2 && At(src, pos, Codes(mark))
    ensures Peek(src, pos) == mark[0] as int && Peek(src, pos + 1) == mark[1] as int
  {
    AtFirst(src, pos, Codes(mark));
    AtFirst(src, pos + 1, Codes(mark)[1..]);
  }

  /** A gap is skipped, and what follows it is skipped as if the gap were not there. */
  lemma {:induction false} SkipsOver(src: Text, comments: bool, pos: nat, g: Gap)
    requires IsGap(g, comments) && At(src, pos, GapText(g))
    ensures Skip(src, comments, pos) == Skip(src, comments, pos + |GapText(g)|)
    decreases |g|
  {
    hide IsFiller, FillerText, At, Skip;
    if g != [] {
      AtSplit(src, pos, FillerText(g[0]), GapText(g[1..]));
      assert IsFiller(g[0], comments);
      SkipsFiller(src, comments, pos, g[0]);
      SkipsOver(src, comments, pos + |FillerText(g[0])|, g[1..]);
    }
  }

  /** Whatever may stand between tokens is skipped, and no more. */
  lemma SkipsGap(src: Text, comments: bool, pos: nat, g: Gap)
    requires IsGap(g, comments) && At(src, pos, GapText(g)) && NotSkipped(Peek(src, pos + |GapText(g)|))
    ensures Skip(src, comments, pos) == Read((), pos + |GapText(g)|)
  {
    SkipsOver(src, comments, pos, g);
    hide GapText, At;
  }

  /** At the end of the text, a comment that has no end of its line. */
  predicate IsLastComment(tail: seq<int>, comments: bool) {
    tail != [] ==> comments && |tail| >= 2 && tail[..2] == Codes("//") && 0 !in tail[2..] && '\n' as int !in tail[2..]
  }

  lemma {:induction false} ReadsTail(src: Text, pos: nat, text: seq<int>)
    requires 0 !in text && '\n' as int !in text && At(src, pos, text) && Peek(src, pos + |text|) == 0
    ensures SkipLine(src, pos) == pos + |text|
    decreases |text|
  {
    if text != [] {
      AtFirst(src, pos, text);
      assert text[0] in text;
      ReadsTail(src, pos + 1, text[1..]);
    }
  }

  lemma SkipsTail(src: Text, comments: bool, pos: nat, tail: seq<int>)
    requires IsLastComment(tail, comments) && At(src, pos, tail) && Peek(src, pos + |tail|) == 0
    ensures Skip(src, comments, pos) == Read((), pos + |tail|)
  {
    hide At, SkipLine;
    if tail != [] {
      assert tail == tail[..2] + tail[2..];
      AtSplit(src, pos, Codes("//"), tail[2..]);
      OpeningMark(src, pos, "//");
      ReadsTail(src, pos + 2, tail[2..]);
      var end := pos + |tail|;
      assert SkipBlanks(src, pos) == pos && SkipBlanks(src, end) == end && SkipComments(src, end) == Read((), end);
    } else {
      assert SkipBlanks(src, pos) == pos && SkipComments(src, pos) == Read((), pos);
    }
  }

  /** A gap is skipped to the end of the text, with a comment that ends only there. */
  lemma SkipsToEnd(src: Text, comments: bool, pos: nat, g: Gap, tail: seq<int>)
    requires IsGap(g, comments) && IsLastComment(tail, comments) && At(src, pos, GapText(g)) && At(src, pos + |GapText(g)|, tail)
    requires Peek(src, pos + |GapText(g)| + |tail|) == 0
    ensures Skip(src, comments, pos) == Read((), pos + |GapText(g)| + |tail|)
  {
    hide *;
    SkipsOver(src, comments, pos, g);
    SkipsTail(src, comments, pos + |GapText(g)|, tail);
  }

  /** What can come first in a gap is no part of a number. */
  lemma GapHead(g: Gap, comments: bool)
    requires IsGap(g, comments) && g != []
    ensures GapText(g) != [] && EndsNumber(GapText(g)[0]) && GapText(g)[0] != 0
  {
    assert IsFiller(g[0], comments);
    if g[0].Blank? {
      assert Codes(" \n\r\t") == [0x20, 10, 13, 9];
    }
  }
}
