/** What the lexer reads is a spelling: of every string, number and stretch of white space and comments it takes, the
    characters, digits and fillers it consists of. */
module JsonSpelled {
  import opened Ascii
  import opened JsonLexer
  import opened JsonSpelling
  import opened Streams
  import opened Texts
  import opened Utf8
  import opened Wrappers

  /** `s` is what stands between two positions. */
  ghost predicate Spans(src: Text, pos: nat, s: seq<int>, next: nat) {
    At(src, pos, s) && next == pos + |s|
  }

  lemma Join(src: Text, pos: nat, s: seq<int>, mid: nat, u: seq<int>, next: nat)
    requires Spans(src, pos, s, mid) && Spans(src, mid, u, next)
    ensures Spans(src, pos, s + u, next)
  {
    AtJoin(src, pos, s, u);
    hide At;
  }

  lemma One(src: Text, pos: nat)
    requires Peek(src, pos) != 0
    ensures Spans(src, pos, [Peek(src, pos)], pos + 1)
  {
  }

  lemma Nothing(src: Text, pos: nat)
    requires pos <= |src|
    ensures Spans(src, pos, [], pos)
  {
  }

  lemma Two(src: Text, pos: nat, mark: string)
    requires |mark| == 2 && Peek(src, pos) == mark[0] as int != 0 && Peek(src, pos + 1) == mark[1] as int != 0
    ensures Spans(src, pos, Codes(mark), pos + 2)
  {
  }

  // ----- gaps

  lemma {:induction false} GapJoin(g: Gap, h: Gap)
    ensures GapText(g + h) == GapText(g) + GapText(h)
    decreases |g|
  {
    if g == [] {
      assert g + h == h;
    } else {
      assert (g + h)[1..] == g[1..] + h;
      GapJoin(g[1..], h);
      hide FillerText;
    }
  }

  lemma GapOfOne(f: Filler)
    ensures GapText([f]) == FillerText(f)
  {
    hide FillerText;
    assert GapText([f][1..]) == [];
  }

  lemma {:induction false} BlanksFrom(src: Text, pos: nat, comments: bool) returns (g: Gap)
    requires pos <= |src|
    ensures IsGap(g, comments) && Spans(src, pos, GapText(g), SkipBlanks(src, pos))
    decreases |src| - pos
  {
    var c := Peek(src, pos);
    if IsBlank(c) {
      var rest := BlanksFrom(src, pos + 1, comments);
      g := [Blank(c)] + rest;
      BlanksAre(c);
      One(src, pos);
      Join(src, pos, [c], pos + 1, GapText(rest), SkipBlanks(src, pos));
      assert g[1..] == rest;
      hide Spans;
    } else {
      g := [];
      Nothing(src, pos);
    }
  }

  lemma {:induction false} BlockFrom(src: Text, pos: nat) returns (text: seq<int>)
    requires SkipBlock(src, pos).Read?
    ensures StaysOpen(text) && Spans(src, pos, text + Codes("*/"), SkipBlock(src, pos).next)
    ensures Peek(src, pos) == if text == [] then '*' as int else text[0]
    decreases |src| - pos
  {
    var c := Peek(src, pos);
    if c == ASTERISK && Peek(src, pos + 1) == SLASH {
      text := [];
      Two(src, pos, "*/");
      assert text + Codes("*/") == Codes("*/");
    } else {
      var rest := BlockFrom(src, pos + 1);
      text := [c] + rest;
      One(src, pos);
      Join(src, pos, [c], pos + 1, rest + Codes("*/"), SkipBlock(src, pos).next);
      assert text + Codes("*/") == [c] + (rest + Codes("*/"));
      hide Spans, SkipBlock;
      forall i | 0 <= i < |text|
        ensures text[i] != 0 && !(text[i] == '*' as int && (if i + 1 < |text| then text[i + 1] else '*' as int) == '/' as int)
      {
        if i > 0 {
          assert text[i] == rest[i - 1];
        }
      }
    }
  }

  lemma {:induction false} LineFrom(src: Text, pos: nat) returns (text: seq<int>, closed: bool)
    requires pos <= |src|
    ensures 0 !in text && '\n' as int !in text
    ensures Spans(src, pos, if closed then text + ['\n' as int] else text, SkipLine(src, pos))
    ensures !closed ==> Peek(src, SkipLine(src, pos)) == 0
    decreases |src| - pos
  {
    var c := Peek(src, pos);
    if c == 0 {
      text, closed := [], false;
      Nothing(src, pos);
    } else if c == LINE_FEED {
      text, closed := [], true;
      One(src, pos);
      assert text + ['\n' as int] == ['\n' as int];
    } else {
      text, closed := LineFrom(src, pos + 1);
      var rest := if closed then text + ['\n' as int] else text;
      One(src, pos);
      Join(src, pos, [c], pos + 1, rest, SkipLine(src, pos));
      assert ([c] + text) + ['\n' as int] == [c] + (text + ['\n' as int]);
      text := [c] + text;
      hide Spans;
    }
  }

  lemma {:induction false} CommentsFrom(src: Text, pos: nat) returns (g: Gap, tail: seq<int>)
    requires pos <= |src| && SkipComments(src, pos).Read?
    ensures IsGap(g, true) && IsLastComment(tail, true) && Spans(src, pos, GapText(g) + tail, SkipComments(src, pos).next)
    ensures tail != [] ==> Peek(src, SkipComments(src, pos).next) == 0
    decreases |src| - pos
  {
    hide Spans, IsLastComment;
    var end := SkipComments(src, pos).next;
    if Peek(src, pos) != SLASH {
      g, tail := [], [];
      Nothing(src, pos);
      NoTail();
      assert GapText(g) + tail == [];
    } else if Peek(src, pos + 1) == ASTERISK {
      var text := BlockFrom(src, pos + 2);
      var f, p := BlockComment(text), SkipBlock(src, pos + 2).next;
      Two(src, pos, "/*");
      Join(src, pos, Codes("/*"), pos + 2, text + Codes("*/"), p);
      SpansInside(src, pos, FillerText(f), p);
      g, tail := CommentsAfter(src, pos, f, p);
    } else {
      var text, closed := LineFrom(src, pos + 2);
      var p := SkipLine(src, pos + 2);
      Two(src, pos, "//");
      if closed {
        Join(src, pos, Codes("//"), pos + 2, text + ['\n' as int], p);
        SpansInside(src, pos, FillerText(LineComment(text)), p);
        g, tail := CommentsAfter(src, pos, LineComment(text), p);
      } else {
        Join(src, pos, Codes("//"), pos + 2, text, p);
        g, tail := [], Codes("//") + text;
        TailOf(text);
        assert SkipBlanks(src, p) == p && SkipComments(src, p) == Read((), p);
        NoTail();
        assert GapText(g) + tail == tail;
      }
    }
  }

  lemma NoTail()
    ensures GapText([]) == [] && forall comments :: IsLastComment([], comments)
  {
  }

  lemma TailOf(text: seq<int>)
    requires 0 !in text && '\n' as int !in text
    ensures IsLastComment(Codes("//") + text, true)
  {
    var tail := Codes("//") + text;
    assert |Codes("//")| == 2;
    assert tail[2..] == text && tail[..2] == Codes("//");
  }

  /** After a comment come blanks and, maybe, more comments. */
  lemma {:induction false} CommentsAfter(src: Text, pos: nat, f: Filler, p: nat) returns (g: Gap, tail: seq<int>)
    requires IsFiller(f, true) && Spans(src, pos, FillerText(f), p) && pos < p <= |src| && SkipComments(src, SkipBlanks(src, p)).Read?
    ensures IsGap(g, true) && IsLastComment(tail, true)
    ensures Spans(src, pos, GapText(g) + tail, SkipComments(src, SkipBlanks(src, p)).next)
    ensures tail != [] ==> Peek(src, SkipComments(src, SkipBlanks(src, p)).next) == 0
    decreases |src| - pos, 0
  {
    hide *;
    var b := BlanksFrom(src, p, true);
    var q := SkipBlanks(src, p);
    SpansInside(src, p, GapText(b), q);
    var h, last := CommentsFrom(src, q);
    var end := SkipComments(src, q).next;
    Join(src, p, GapText(b), q, GapText(h) + last, end);
    Join(src, pos, FillerText(f), p, GapText(b) + (GapText(h) + last), end);
    g, tail := [f] + (b + h), last;
    GapOfOne(f);
    GapJoin(b, h);
    GapJoin([f], b + h);
    Regrouped(FillerText(f), GapText(b), GapText(h), last);
    GapsJoin(f, b, h, true);
  }

  lemma SpansInside(src: Text, pos: nat, s: seq<int>, next: nat)
    requires Spans(src, pos, s, next)
    ensures pos <= next <= |src|
  {
  }

  lemma Regrouped(a: seq<int>, b: seq<int>, c: seq<int>, d: seq<int>)
    ensures (a + (b + c)) + d == a + (b + (c + d))
  {
  }

  lemma GapsJoin(f: Filler, b: Gap, h: Gap, comments: bool)
    requires IsFiller(f, comments) && IsGap(b, comments) && IsGap(h, comments)
    ensures IsGap([f] + (b + h), comments)
  {
    hide IsFiller;
  }

  /** What is skipped is a gap, and at the end of the text maybe a comment that ends only there. */
  lemma GapFrom(src: Text, comments: bool, pos: nat) returns (g: Gap, tail: seq<int>)
    requires pos <= |src| && Skip(src, comments, pos).Read?
    ensures IsGap(g, comments) && IsLastComment(tail, comments) && Spans(src, pos, GapText(g) + tail, Skip(src, comments, pos).next)
    ensures tail != [] ==> Peek(src, Skip(src, comments, pos).next) == 0
  {
    hide IsGap, IsLastComment, Spans, SkipBlanks, SkipComments, GapText;
    var b := BlanksFrom(src, pos, comments);
    var p := SkipBlanks(src, pos);
    SpansInside(src, pos, GapText(b), p);
    if comments {
      var h, last := CommentsFrom(src, p);
      Join(src, pos, GapText(b), p, GapText(h) + last, SkipComments(src, p).next);
      g, tail := b + h, last;
      GapJoin(b, h);
      assert (GapText(b) + GapText(h)) + last == GapText(b) + (GapText(h) + last);
      BothGaps(b, h, comments);
    } else {
      g, tail := b, [];
      NoTail();
      assert GapText(b) + [] == GapText(b);
    }
  }

  lemma BothGaps(b: Gap, h: Gap, comments: bool)
    requires IsGap(b, comments) && IsGap(h, comments)
    ensures IsGap(b + h, comments)
  {
    hide IsFiller;
  }

  // ----- strings

  lemma HexCharFrom(c: int) returns (upper: bool)
    requires HexDigit(c).Some?
    ensures c == HexChar(HexDigit(c).value, upper) && c != 0
  {
    upper := c <= UPPER_F;
    var d := HexDigit(c).value;
    var e := HexChar(d, upper);
    assert e == if d < 10 then '0' as int + d else if upper then 'A' as int + (d - 10) else 'a' as int + (d - 10);
  }

  lemma UnitFrom(src: Text, pos: nat) returns (upper: seq<bool>)
    requires Peek(src, pos) == BACKSLASH && Peek(src, pos + 1) == LOWER_U && Hex4(src, pos + 2).Some?
    ensures |upper| == 4 && Spans(src, pos, UnitText(Hex4(src, pos + 2).value, upper), pos + 6)
  {
    hide HexChar, HexDigit, Spans;
    var h, u := pos + 2, Hex4(src, pos + 2).value;
    var a, b, c, d := HexDigit(Peek(src, h)), HexDigit(Peek(src, h + 1)), HexDigit(Peek(src, h + 2)), HexDigit(Peek(src, h + 3));
    FourDigitsFrom(src, h, a, b, c, d);
    var a' := HexCharFrom(Peek(src, h));
    var b' := HexCharFrom(Peek(src, h + 1));
    var c' := HexCharFrom(Peek(src, h + 2));
    var d' := HexCharFrom(Peek(src, h + 3));
    upper := [a', b', c', d'];
    Two(src, pos, "\\u");
    FourCharacters(src, h);
    Join(src, pos, Codes("\\u"), h, [Peek(src, h), Peek(src, h + 1), Peek(src, h + 2), Peek(src, h + 3)], h + 4);
  }

  lemma FourDigitsFrom(src: Text, h: nat, a: Option<nat>, b: Option<nat>, c: Option<nat>, d: Option<nat>)
    requires a == HexDigit(Peek(src, h)) && b == HexDigit(Peek(src, h + 1))
    requires c == HexDigit(Peek(src, h + 2)) && d == HexDigit(Peek(src, h + 3))
    requires Hex4(src, h).Some?
    ensures a.Some? && b.Some? && c.Some? && d.Some?
    ensures var u := Hex4(src, h).value;
            a.value == u / 0x1000 && b.value == u / 0x100 % 16 && c.value == u / 0x10 % 16 && d.value == u % 16
  {
    hide HexDigit;
    assert Hex(src, h, 4, 0) == Hex(src, h + 1, 3, a.value) == Hex(src, h + 2, 2, a.value * 16 + b.value)
        == Hex(src, h + 3, 1, (a.value * 16 + b.value) * 16 + c.value)
        == Some(((a.value * 16 + b.value) * 16 + c.value) * 16 + d.value);
  }

  lemma FourCharacters(src: Text, h: nat)
    requires Peek(src, h) != 0 && Peek(src, h + 1) != 0 && Peek(src, h + 2) != 0 && Peek(src, h + 3) != 0
    ensures Spans(src, h, [Peek(src, h), Peek(src, h + 1), Peek(src, h + 2), Peek(src, h + 3)], h + 4)
  {
  }

  lemma LetterFrom(e: int)
    requires SimpleEscape(e) != 0
    ensures e in Codes("\"\\/bfnrt") && SimpleEscape(e) == LetterCode(e)
  {
    assert Codes("\"\\/bfnrt") == ['"' as int, '\\' as int, '/' as int, 'b' as int, 'f' as int, 'n' as int, 'r' as int, 't' as int];
  }

  /** Whatever the reader takes for an escape is the spelling of a character. */
  lemma PieceFrom(src: Text, pos: nat) returns (p: Piece)
    requires Peek(src, pos) == BACKSLASH && Escape(src, pos).Read?
    ensures IsPiece(p) && Spans(src, pos, PieceText(p), Escape(src, pos).next) && PieceBytes(p) == Escape(src, pos).value
  {
    hide Spans, Hex4, UnitText, Encode, SimpleEscape, LetterCode;
    var e := Peek(src, pos + 1);
    if SimpleEscape(e) != 0 {
      p := Letter(e);
      LetterFrom(e);
      NoEscapeOfZero();
      One(src, pos);
      One(src, pos + 1);
      Join(src, pos, [BACKSLASH], pos + 1, [e], pos + 2);
      assert PieceText(p) == [BACKSLASH] + [e];
    } else {
      var u := Hex4(src, pos + 2).value;
      var upper := UnitFrom(src, pos);
      if !IsHighSurrogate(u) {
        p := Unicode(u, upper + upper);
        assert (upper + upper)[..4] == upper;
      } else {
        var low := Hex4(src, pos + 8).value;
        var lower := UnitFrom(src, pos + 6);
        p := Unicode(Paired(u, low), upper + lower);
        PairedBack(u, low);
        assert (upper + lower)[..4] == upper && (upper + lower)[4..] == lower;
        Join(src, pos, UnitText(u, upper), pos + 6, UnitText(low, lower), pos + 12);
      }
    }
  }

  lemma PairedBack(high: int, low: int)
    requires IsHighSurrogate(high) && 0xDC00 <= low <= 0xDFFF
    ensures var c := Paired(high, low);
            0x10000 <= c <= 0x10FFFF && 0xD800 + (c - 0x10000) / 0x400 == high && 0xDC00 + (c - 0x10000) % 0x400 == low
  {
  }

  lemma NoEscapeOfZero()
    ensures SimpleEscape(0) == 0
  {
  }

  lemma {:induction false} PiecesFrom(src: Text, pos: nat, out: seq<int>) returns (s: seq<Piece>)
    requires AreBytes(src) && StringBody(src, pos, out).Read?
    ensures ArePieces(s) && Spans(src, pos, Spelling(s) + ['"' as int], StringBody(src, pos, out).next)
    ensures StringBody(src, pos, out).value == out + Spelled(s)
    decreases |src| - pos
  {
    hide Spans, Escape, PieceText, PieceBytes, IsPiece;
    var c := Peek(src, pos);
    if c == QUOTE {
      s := [];
      One(src, pos);
      assert Spelling(s) + ['"' as int] == ['"' as int] && out + Spelled(s) == out;
    } else {
      var p: Piece, next: nat;
      if c == BACKSLASH {
        next := Escape(src, pos).next;
        p := PieceFrom(src, pos);
      } else {
        next, p := pos + 1, Plain(c);
        PlainFrom(src, pos);
      }
      var rest := PiecesFrom(src, next, out + PieceBytes(p));
      s := [p] + rest;
      SpellingOfMore(p, rest, out);
      Join(src, pos, PieceText(p), next, Spelling(rest) + ['"' as int], StringBody(src, pos, out).next);
    }
  }

  lemma PlainFrom(src: Text, pos: nat)
    requires AreBytes(src)
    requires var c := Peek(src, pos); c != QUOTE && c != BACKSLASH && c != 0 && !(0 <= c < SPACE)
    ensures var p := Plain(Peek(src, pos)); IsPiece(p) && Spans(src, pos, PieceText(p), pos + 1) && PieceBytes(p) == [Peek(src, pos)]
  {
    assert IsByte(src[pos]);
  }

  lemma SpellingOfMore(p: Piece, rest: seq<Piece>, out: seq<int>)
    requires IsPiece(p) && ArePieces(rest)
    ensures var s := [p] + rest;
            ArePieces(s) && Spelling(s) + ['"' as int] == PieceText(p) + (Spelling(rest) + ['"' as int])
            && out + Spelled(s) == (out + PieceBytes(p)) + Spelled(rest)
  {
    hide IsPiece, PieceText, PieceBytes;
    var s := [p] + rest;
    assert s[1..] == rest;
  }

  lemma StringFrom(src: Text, pos: nat) returns (s: seq<Piece>)
    requires AreBytes(src) && Peek(src, pos) == QUOTE && String(src, pos).Read?
    ensures ArePieces(s) && Spans(src, pos, StringText(s), String(src, pos).next) && String(src, pos).value == Spelled(s)
  {
    s := PiecesFrom(src, pos + 1, []);
    hide Spans, StringBody, Spelling, Spelled;
    One(src, pos);
    Join(src, pos, [QUOTE], pos + 1, Spelling(s) + ['"' as int], String(src, pos).next);
  }

  // ----- numbers

  lemma {:induction false} DecimalGrows(src: Text, pos: nat, v: nat)
    requires v > 0 && pos <= |src|
    ensures Decimal(DigitsValue(src, pos, v)) == Decimal(v) + src[pos..DigitsEnd(src, pos)]
    decreases |src| - pos
  {
    if IsDigit(Peek(src, pos)) {
      var c := Peek(src, pos);
      var w := v * 10 + (c - DIGIT_0);
      assert Decimal(w) == Decimal(v) + [c];
      DecimalGrows(src, pos + 1, w);
      hide Decimal;
      assert src[pos..DigitsEnd(src, pos)] == [c] + src[pos + 1..DigitsEnd(src, pos)];
    }
  }

  lemma IntegerFrom(src: Text, pos: nat)
    requires IsDigit(Peek(src, pos))
    ensures var v := if Peek(src, pos) == DIGIT_0 then 0 else DigitsValue(src, pos, 0);
            Spans(src, pos, Decimal(v), IntegerEnd(src, pos))
  {
    var c := Peek(src, pos);
    if c != DIGIT_0 {
      DecimalGrows(src, pos + 1, c - DIGIT_0);
      assert Decimal(c - DIGIT_0) == [c];
      var end := DigitsEnd(src, pos);
      assert src[pos..end] == [c] + src[pos + 1..end];
      hide Decimal;
    }
  }

  lemma DigitsFrom(src: Text, pos: nat) returns (s: seq<int>)
    requires IsDigit(Peek(src, pos))
    ensures AreDigits(s) && s != [] && Spans(src, pos, s, DigitsEnd(src, pos))
  {
    var end := DigitsEnd(src, pos);
    s := src[pos..end];
    forall i | 0 <= i < |s|
      ensures '0' as int <= s[i] <= '9' as int
    {
      assert s[i] == Peek(src, pos + i);
    }
  }

  lemma FractionFrom(src: Text, pos: nat) returns (f: seq<int>)
    requires pos <= |src| && Fraction(src, pos).Read?
    ensures AreDigits(f) && Spans(src, pos, FractionText(f), Fraction(src, pos).next) && (Fraction(src, pos).value <==> f != [])
  {
    hide Spans, DigitsEnd;
    if Peek(src, pos) != DOT {
      f := [];
      Nothing(src, pos);
    } else {
      f := DigitsFrom(src, pos + 1);
      One(src, pos);
      Join(src, pos, [DOT], pos + 1, f, DigitsEnd(src, pos + 1));
    }
  }

  lemma ExponentFrom(src: Text, pos: nat) returns (e: ExponentPart)
    requires pos <= |src| && Exponent(src, pos).Read?
    ensures IsExponent(e) && Spans(src, pos, ExponentText(e), Exponent(src, pos).next)
    ensures Exponent(src, pos).value <==> e != NoExponent
  {
    hide Spans, DigitsEnd;
    var c := Peek(src, pos);
    if c != LOWER_E && c != UPPER_E {
      e := NoExponent;
      Nothing(src, pos);
    } else {
      One(src, pos);
      var sign, p := [], pos + 1;
      Nothing(src, p);
      if IsSign(Peek(src, p)) {
        One(src, p);
        sign, p := [Peek(src, p)], p + 1;
      }
      var digits := DigitsFrom(src, p);
      Join(src, pos + 1, sign, p, digits, DigitsEnd(src, p));
      Join(src, pos, [c], pos + 1, sign + digits, DigitsEnd(src, p));
      assert Codes("eE") == ['e' as int, 'E' as int];
      e := ExponentPart(c, sign, digits);
    }
  }

  /** Whatever the reader takes for a number is a numeral, and is handed on as what it stands for. */
  lemma NumberFrom(src: Text, pos: nat, tooBig: seq<int> -> bool) returns (m: Numeral)
    requires NumberAt(src, pos, tooBig).Read?
    ensures IsNumeral(m) && Spans(src, pos, NumeralText(m), NumberAt(src, pos, tooBig).next)
    ensures NumberAt(src, pos, tooBig).value == NumeralValue(m) && (!IsInteger(m) ==> !tooBig(NumeralText(m)))
  {
    hide Spans, Decimal, DigitsEnd, DigitsValue, IntegerEnd, Fraction, Exponent, FractionText, ExponentText;
    var negative := Peek(src, pos) == DASH;
    var start := if negative then pos + 1 else pos;
    var v := if Peek(src, start) == DIGIT_0 then 0 else DigitsValue(src, start, 0);
    var p := IntegerEnd(src, start);
    IntegerFrom(src, start);
    SpansInside(src, start, Decimal(v), p);
    var f := FractionFrom(src, p);
    var q := Fraction(src, p).next;
    var e := ExponentFrom(src, q);
    var next := Exponent(src, q).next;
    m := Numeral(negative, v, f, e);
    Join(src, p, FractionText(f), q, ExponentText(e), next);
    Join(src, start, Decimal(v), p, FractionText(f) + ExponentText(e), next);
    SignFrom(src, pos);
    Join(src, pos, if negative then ['-' as int] else [], start, Decimal(v) + (FractionText(f) + ExponentText(e)), next);
    SpansSlice(src, pos, NumeralText(m), next);
  }

  lemma SignFrom(src: Text, pos: nat)
    requires pos <= |src|
    ensures var negative := Peek(src, pos) == DASH;
            Spans(src, pos, if negative then ['-' as int] else [], if negative then pos + 1 else pos)
  {
  }

  lemma SpansSlice(src: Text, pos: nat, s: seq<int>, next: nat)
    requires Spans(src, pos, s, next)
    ensures pos <= next <= |src| && src[pos..next] == s
  {
  }
}
