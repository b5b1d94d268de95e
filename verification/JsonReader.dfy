/** `GenericReader`: both parsers, working in place on a stream position, a stack and the parse result. */
module JsonReader {
  import opened Ascii
  import opened Utf8
  import opened JsonLexer
  import opened JsonParser
  import opened JsonAutomaton
  import opened JsonNesting
  import opened Texts
  import opened Wrappers

  /** What lies on the reader's stack: characters of the string being decoded, or the words of the table-driven
      parser. */
  datatype Slot = Char(c: int) | StateWord(state: State) | CountWord(n: nat)

  function FrameSlots(frames: seq<Frame>): seq<Slot> {
    if frames == [] then []
    else FrameSlots(Popped(frames)) + [StateWord(frames[|frames| - 1].resume), CountWord(frames[|frames| - 1].count)]
  }

  /** The frame on top is the two words on top. */
  lemma TopSlots(frames: seq<Frame>)
    requires frames != []
    ensures var s, top := FrameSlots(frames), frames[|frames| - 1];
            && |s| >= 2 && s[|s| - 2] == StateWord(top.resume) && s[|s| - 1] == CountWord(top.count)
            && s[..|s| - 2] == FrameSlots(Popped(frames))
  {
  }

  lemma CountedSlots(frames: seq<Frame>)
    requires frames != []
    ensures var s, top := FrameSlots(frames), frames[|frames| - 1];
            s[..|s| - 1] + [CountWord(top.count + 1)] == FrameSlots(Counted(frames))
  {
    TopSlots(frames);
    assert Popped(Counted(frames)) == Popped(frames);
    var s, top := FrameSlots(frames), frames[|frames| - 1];
    assert s[..|s| - 1] == s[..|s| - 2] + [StateWord(top.resume)];
    assert FrameSlots(Counted(frames)) == FrameSlots(Popped(frames)) + [StateWord(top.resume), CountWord(top.count + 1)];
    hide FrameSlots;
  }

  lemma PushedSlots(frames: seq<Frame>, f: Frame)
    ensures FrameSlots(frames + [f]) == FrameSlots(frames) + [StateWord(f.resume), CountWord(f.count)]
  {
    assert Popped(frames + [f]) == frames;
  }

  function CharSlots(s: seq<int>): (r: seq<Slot>)
    ensures |r| == |s|
  {
    seq(|s|, i requires 0 <= i < |s| => Char(s[i]))
  }

  function Chars(s: seq<Slot>): seq<int> {
    seq(|s|, i requires 0 <= i < |s| => if s[i].Char? then s[i].c else 0)
  }

  /** A 32-bit word read as a signed number. */
  function AsInt32(x: int): int {
    if x < 0x8000_0000 then x else x - 0x1_0000_0000
  }

  function AsInt64(x: int): int {
    if x < 0x8000_0000_0000_0000 then x else x - 0x1_0000_0000_0000_0000
  }

  /** The largest magnitude of an integer type. */
  function MostOf(minus: bool, wide: bool): nat {
    if wide then if minus then INT64_MIN_MAGNITUDE else UINT64_MAX
    else if minus then INT32_MIN_MAGNITUDE else UINT32_MAX
  }

  /** A member and the blanks after it. */
  function Member(t: Job, pos: nat, events: seq<Event>): (r: Parse)
    ensures r.Going? ==> pos < r.pos
  {
    if Peek(t.src, pos) != QUOTE then Failed(ObjectMissName, pos, events)
    else
      var r := ThenSkip(t, QuotedString(t, pos, events, true));
      if r.Failed? then r
      else if Peek(t.src, r.pos) != COLON then Failed(ObjectMissColon, r.pos, r.events)
      else
        var s := SkipAt(t, r.pos + 1, r.events);
        if s.Failed? then s else ThenSkip(t, Value(t, s.pos, s.events))
  }

  lemma MembersStep(t: Job, pos: nat, events: seq<Event>, count: nat)
    ensures var r := Member(t, pos, events);
            Members(t, pos, events, count) == if r.Failed? then r else AfterMember(t, r.pos, r.events, count + 1)
  {
  }

  /** An element and the blanks after it. */
  function Element(t: Job, pos: nat, events: seq<Event>): (r: Parse)
    ensures r.Going? ==> pos < r.pos
  {
    ThenSkip(t, Value(t, pos, events))
  }

  lemma ElementsStep(t: Job, pos: nat, events: seq<Event>, count: nat)
    ensures var r := Element(t, pos, events);
            Elements(t, pos, events, count) == if r.Failed? then r else AfterElement(t, r.pos, r.events, count + 1)
  {
  }

  lemma HexStep(src: Text, pos: nat, n: nat, codepoint: nat)
    requires n > 0
    ensures Hex(src, pos, n, codepoint) == if HexDigit(Peek(src, pos)) == None then None
                                           else Hex(src, pos + 1, n - 1, codepoint * 16 + HexDigit(Peek(src, pos)).value)
  {
  }

  lemma EmitElsewhere(t: Job, events: seq<Event>, e: Event, offset: nat, next: nat, next': nat)
    ensures var r := Emit(t, events, e, offset, next);
            Emit(t, events, e, offset, next') == if r.Failed? then r else Going(next', r.events)
  {
  }

  class GenericReader {
    const t: Job
    var pos: nat
    /** What the handler has been given. */
    var events: seq<Event>
    var stack: seq<Slot>
    var parseResult: Option<(ErrorCode, nat)>

    constructor (job: Job)
      ensures t == job && pos == 0 && events == [] && stack == [] && parseResult == None
    {
      t := job;
      pos, events, stack, parseResult := 0, [], [], None;
    }

    predicate HasParseError()
      reads this
    {
      parseResult.Some?
    }

    /** How far the parse has come. */
    function Outcome(): Parse
      reads this
    {
      match parseResult
      case None => Going(pos, events)
      case Some((code, offset)) => Failed(code, offset, events)
    }

    function Head(): int
      reads this
    {
      Peek(t.src, pos)
    }

    method Take() returns (c: int)
      requires Head() != 0
      modifies this`pos
      ensures pos == old(pos) + 1 && c == old(Head())
    {
      c := Head();
      pos := pos + 1;
    }

    method Consume(wanted: int) returns (yes: bool)
      requires wanted != 0
      modifies this`pos
      ensures yes <==> old(Head()) == wanted
      ensures pos == if yes then old(pos) + 1 else old(pos)
    {
      yes := Head() == wanted;
      if yes {
        pos := pos + 1;
      }
    }

    method SetParseError(code: ErrorCode, offset: nat)
      requires !HasParseError()
      modifies this`parseResult
      ensures parseResult == Some((code, offset))
    {
      parseResult := Some((code, offset));
    }

    /** Hands an event to the handler, and stops if it says so. */
    method Hand(e: Event, offset: nat)
      requires !HasParseError()
      modifies this`events, this`parseResult
      ensures Outcome() == Emit(t, old(events), e, offset, pos)
    {
      events := events + [e];
      if !t.accepts(events) {
        SetParseError(Termination, offset);
      }
    }

    // ----- white space

    method SkipWhitespace()
      modifies this`pos
      ensures pos == SkipBlanks(t.src, old(pos))
    {
      while IsBlank(Head())
        invariant SkipBlanks(t.src, pos) == SkipBlanks(t.src, old(pos))
        decreases |t.src| - pos
      {
        pos := pos + 1;
      }
    }

    /** A block comment, from after its opening on. */
    method SkipBlockComment()
      requires !HasParseError()
      modifies this`pos, this`parseResult
      ensures match SkipBlock(t.src, old(pos))
              case Read(_, next) => !HasParseError() && pos == next
              case Bad(code, offset) => parseResult == Some((code, offset))
    {
      while true
        invariant !HasParseError() && SkipBlock(t.src, pos) == SkipBlock(t.src, old(pos))
        decreases |t.src| - pos
      {
        if Head() == 0 {
          SetParseError(UnspecificSyntaxError, pos);
          return;
        }
        var star := Consume(ASTERISK);
        if star {
          var slash := Consume(SLASH);
          if slash {
            return;
          }
        } else {
          pos := pos + 1;
        }
      }
    }

    method SkipLineComment()
      modifies this`pos
      ensures pos == SkipLine(t.src, old(pos))
    {
      while Head() != 0
        invariant SkipLine(t.src, pos) == SkipLine(t.src, old(pos))
        decreases |t.src| - pos
      {
        var c := Take();
        if c == LINE_FEED {
          return;
        }
      }
    }

    method SkipWhitespaceAndComments()
      requires !HasParseError()
      modifies this`pos, this`parseResult
      ensures Outcome() == SkipAt(t, old(pos), events)
    {
      SkipWhitespace();
      if t.comments {
        var more := Consume(SLASH);
        while more
          invariant !HasParseError()
          invariant if more then 0 < pos && Peek(t.src, pos - 1) == SLASH && SkipComments(t.src, pos - 1) == SkipComments(t.src, SkipBlanks(t.src, old(pos)))
                    else Read((), pos) == SkipComments(t.src, SkipBlanks(t.src, old(pos)))
          decreases |t.src| - pos, more
        {
          var block := Consume(ASTERISK);
          if block {
            SkipBlockComment();
            if HasParseError() {
              return;
            }
          } else {
            var line := Consume(SLASH);
            if !line {
              SetParseError(UnspecificSyntaxError, pos);
              return;
            }
            SkipLineComment();
          }
          SkipWhitespace();
          more := Consume(SLASH);
        }
      }
    }

    // ----- literals

    method ParseLiteral(rest: seq<int>, e: Event)
      requires !HasParseError() && Head() != 0 && 0 !in rest
      modifies this`pos, this`events, this`parseResult
      ensures Outcome() == Literal(t, old(pos), old(events), rest, e)
    {
      pos := pos + 1;
      var i := 0;
      while i < |rest|
        invariant 0 <= i <= |rest| && events == old(events) && parseResult == old(parseResult)
        invariant MatchWord(t.src, pos, rest[i..]) == MatchWord(t.src, old(pos) + 1, rest)
      {
        var same := Consume(rest[i]);
        if !same {
          SetParseError(ValueInvalid, pos);
          return;
        }
        assert rest[i..][1..] == rest[i + 1..];
        i := i + 1;
      }
      Hand(e, pos);
    }

    // ----- strings

    method ParseHex4(escapeOffset: nat) returns (codepoint: nat)
      requires !HasParseError()
      modifies this`pos, this`parseResult
      ensures match Hex4(t.src, old(pos))
              case Some(c) => !HasParseError() && codepoint == c && pos == old(pos) + 4
              case None => parseResult == Some((StringUnicodeEscapeInvalidHex, escapeOffset))
    {
      codepoint := 0;
      var i := 0;
      hide Peek;
      while i < 4
        invariant 0 <= i <= 4 && pos == old(pos) + i && !HasParseError()
        invariant Hex(t.src, pos, 4 - i, codepoint) == Hex(t.src, old(pos), 4, 0)
      {
        HexStep(t.src, pos, 4 - i, codepoint);
        var c := Head();
        codepoint := codepoint * 16;
        if DIGIT_0 <= c <= DIGIT_9 {
          codepoint := codepoint + c - DIGIT_0;
        } else if UPPER_A <= c <= UPPER_F {
          codepoint := codepoint + c - (UPPER_A - 10);
        } else if LOWER_A <= c <= LOWER_F {
          codepoint := codepoint + c - (LOWER_A - 10);
        } else {
          SetParseError(StringUnicodeEscapeInvalidHex, escapeOffset);
          return;
        }
        pos := pos + 1;
        i := i + 1;
      }
    }

    /** `Put` on the stack stream. */
    method Put(bytes: seq<int>)
      modifies this`stack
      ensures stack == old(stack) + CharSlots(bytes)
    {
      stack := stack + CharSlots(bytes);
    }

    method ParseEscape()
      requires !HasParseError() && Head() == BACKSLASH
      modifies this`pos, this`parseResult, this`stack
      ensures match Escape(t.src, old(pos))
              case Read(bytes, next) => !HasParseError() && pos == next && stack == old(stack) + CharSlots(bytes)
              case Bad(code, offset) => parseResult == Some((code, offset))
    {
      hide Hex4, Encode, CharSlots, SimpleEscape;
      var escapeOffset := pos;
      pos := pos + 1;
      var e := Head();
      if SimpleEscape(e) != 0 {
        pos := pos + 1;
        Put([SimpleEscape(e)]);
      } else if e == LOWER_U {
        pos := pos + 1;
        var codepoint := ParseHex4(escapeOffset);
        if HasParseError() {
          return;
        }
        if IsHighSurrogate(codepoint) {
          var pair := Consume(BACKSLASH);
          if pair {
            pair := Consume(LOWER_U);
          }
          if !pair {
            SetParseError(StringUnicodeSurrogateInvalid, escapeOffset);
            return;
          }
          var codepoint2 := ParseHex4(escapeOffset);
          if HasParseError() {
            return;
          }
          if codepoint2 < 0xDC00 || codepoint2 > 0xDFFF {
            SetParseError(StringUnicodeSurrogateInvalid, escapeOffset);
            return;
          }
          codepoint := Paired(codepoint, codepoint2);
        }
        Put(Encode(codepoint));
      } else {
        SetParseError(StringEscapeInvalid, escapeOffset);
      }
    }

    /** The decoded characters and a terminating zero, on the stack. */
    method ParseStringToStream()
      requires !HasParseError()
      modifies this`pos, this`parseResult, this`stack
      ensures match StringBody(t.src, old(pos), [])
              case Read(s, next) => !HasParseError() && pos == next && stack == old(stack) + CharSlots(s + [0])
              case Bad(code, offset) => parseResult == Some((code, offset))
    {
      ghost var out: seq<int> := [];
      while true
        invariant !HasParseError() && stack == old(stack) + CharSlots(out)
        invariant StringBody(t.src, pos, out) == StringBody(t.src, old(pos), [])
        decreases |t.src| - pos
      {
        var c := Head();
        if c == BACKSLASH {
          ghost var r := Escape(t.src, pos);
          ParseEscape();
          if HasParseError() {
            return;
          }
          PutMore(old(stack), out, r.value);
          out := out + r.value;
        } else if c == QUOTE {
          pos := pos + 1;
          Put([0]);
          PutMore(old(stack), out, [0]);
          return;
        } else if 0 <= c < SPACE {
          SetParseError(if c == 0 then StringMissQuotationMark else StringInvalidEncoding, pos);
          return;
        } else {
          pos := pos + 1;
          Put([c]);
          PutMore(old(stack), out, [c]);
          out := out + [c];
        }
      }
    }

    lemma PutMore(base: seq<Slot>, s: seq<int>, more: seq<int>)
      ensures base + CharSlots(s) + CharSlots(more) == base + CharSlots(s + more)
    {
    }

    /** A string or a name.  What it leaves on the stack it takes off again. */
    method ParseString(isKey: bool)
      requires !HasParseError() && Head() == QUOTE
      modifies this
      ensures Outcome() == QuotedString(t, old(pos), old(events), isKey)
      ensures !HasParseError() ==> stack == old(stack)
    {
      ghost var r := StringBody(t.src, pos + 1, []);
      var bottom := |stack|;
      pos := pos + 1;
      ParseStringToStream();
      if HasParseError() {
        return;
      }
      var s := Chars(stack[bottom..|stack| - 1]);
      assert s == r.value;
      stack := stack[..bottom];
      Hand(if isKey then Key(s) else Str(s), pos);
    }

    // ----- numbers

    /** The digits that fit in 32 bits; `wide` when there are more. */
    method ParseInt32(minus: bool, first: nat) returns (i: nat, wide: bool)
      requires first <= 9
      modifies this`pos
      ensures DigitsValue(t.src, pos, i) == DigitsValue(t.src, old(pos), first)
      ensures DigitsEnd(t.src, pos) == DigitsEnd(t.src, old(pos)) && old(pos) <= pos
      ensures i <= if minus then INT32_MIN_MAGNITUDE else UINT32_MAX
      ensures wide ==> IsDigit(Head()) && i * 10 + (Head() - DIGIT_0) > if minus then INT32_MIN_MAGNITUDE else UINT32_MAX
      ensures !wide ==> !IsDigit(Head())
    {
      var limit := if minus then 214748364 else 429496729;
      var lastDigit := if minus then DIGIT_8 else DIGIT_5;
      i, wide := first, false;
      while IsDigit(Head())
        invariant i <= if minus then INT32_MIN_MAGNITUDE else UINT32_MAX
        invariant DigitsValue(t.src, pos, i) == DigitsValue(t.src, old(pos), first)
        invariant DigitsEnd(t.src, pos) == DigitsEnd(t.src, old(pos)) && old(pos) <= pos
        decreases |t.src| - pos
      {
        if i >= limit && (i != limit || Head() > lastDigit) {
          wide := true;
          return;
        }
        i := (i * 10 + (Head() - DIGIT_0)) % 0x1_0000_0000;
        pos := pos + 1;
      }
    }

    /** The digits that fit in 64 bits; `wide` when there are more. */
    method ParseInt64(minus: bool, start: nat) returns (i64: nat, wide: bool)
      requires start <= UINT32_MAX
      modifies this`pos
      ensures DigitsValue(t.src, pos, i64) == DigitsValue(t.src, old(pos), start)
      ensures DigitsEnd(t.src, pos) == DigitsEnd(t.src, old(pos)) && old(pos) <= pos
      ensures i64 <= if minus then INT64_MIN_MAGNITUDE else UINT64_MAX
      ensures wide ==> IsDigit(Head()) && i64 * 10 + (Head() - DIGIT_0) > if minus then INT64_MIN_MAGNITUDE else UINT64_MAX
      ensures !wide ==> !IsDigit(Head())
    {
      var limit := if minus then 0x0CCCCCCC_CCCCCCCC else 0x19999999_99999999;
      var lastDigit := if minus then DIGIT_8 else DIGIT_5;
      i64, wide := start, false;
      while IsDigit(Head())
        invariant i64 <= if minus then INT64_MIN_MAGNITUDE else UINT64_MAX
        invariant DigitsValue(t.src, pos, i64) == DigitsValue(t.src, old(pos), start)
        invariant DigitsEnd(t.src, pos) == DigitsEnd(t.src, old(pos)) && old(pos) <= pos
        decreases |t.src| - pos
      {
        if i64 >= limit && (i64 != limit || Head() > lastDigit) {
          wide := true;
          return;
        }
        i64 := (i64 * 10 + (Head() - DIGIT_0)) % 0x1_0000_0000_0000_0000;
        pos := pos + 1;
      }
    }

    method TakeDigits()
      modifies this`pos
      ensures pos == DigitsEnd(t.src, old(pos))
    {
      while IsDigit(Head())
        invariant DigitsEnd(t.src, pos) == DigitsEnd(t.src, old(pos))
        decreases |t.src| - pos
      {
        pos := pos + 1;
      }
    }

    /** The integer part: its value when no more than 64 bits are needed, as the narrower type where that is enough. */
    method ParseInteger(minus: bool) returns (i: nat, i64: nat, use64bit: bool, useDouble: bool)
      requires IsDigit(Head())
      modifies this`pos
      ensures pos == IntegerEnd(t.src, old(pos))
      ensures var v := if Peek(t.src, old(pos)) == DIGIT_0 then 0 else DigitsValue(t.src, old(pos), 0);
              && (useDouble ==> IntegerOf(minus, v).None?)
              && (!useDouble ==> v == (if use64bit then i64 else i)
                                 && v <= MostOf(minus, use64bit) && (use64bit ==> MostOf(minus, false) < v))
    {
      i, i64, use64bit, useDouble := 0, 0, false, false;
      if Head() == DIGIT_0 {
        pos := pos + 1;
        return;
      }
      i := Head() - DIGIT_0;
      pos := pos + 1;
      i, use64bit := ParseInt32(minus, i);
      if use64bit {
        i64, useDouble := ParseInt64(minus, i);
        if useDouble {
          TakeDigits();
        }
      }
    }

    /** A fraction, or an exponent: `present` when there is one. */
    method ParseFraction() returns (present: bool)
      requires !HasParseError()
      modifies this`pos, this`parseResult
      ensures match Fraction(t.src, old(pos))
              case Read(b, next) => !HasParseError() && present == b && pos == next
              case Bad(code, offset) => parseResult == Some((code, offset))
    {
      present := Consume(DOT);
      if present {
        if !IsDigit(Head()) {
          SetParseError(NumberMissFraction, pos);
          return;
        }
        TakeDigits();
      }
    }

    method ParseExponent() returns (present: bool)
      requires !HasParseError()
      modifies this`pos, this`parseResult
      ensures match Exponent(t.src, old(pos))
              case Read(b, next) => !HasParseError() && present == b && pos == next
              case Bad(code, offset) => parseResult == Some((code, offset))
    {
      present := Consume(LOWER_E);
      if !present {
        present := Consume(UPPER_E);
      }
      if present {
        var sign := Consume(PLUS);
        if !sign {
          sign := Consume(DASH);
        }
        if !IsDigit(Head()) {
          SetParseError(NumberMissExponent, pos);
          return;
        }
        TakeDigits();
      }
    }

    method ParseNumber()
      requires !HasParseError()
      modifies this`pos, this`events, this`parseResult
      ensures Outcome() == Numeral(t, old(pos), old(events))
    {
      var startOffset := pos;
      var minus := Consume(DASH);
      if !IsDigit(Head()) {
        SetParseError(ValueInvalid, pos);
        return;
      }
      var i, i64, use64bit, useDouble := ParseInteger(minus);
      var fraction := ParseFraction();
      if HasParseError() {
        return;
      }
      var exponent := ParseExponent();
      if HasParseError() {
        return;
      }
      NumeralEnds(t.src, startOffset);
      if fraction || exponent || useDouble {
        if t.tooBig(t.src[startOffset..pos]) {
          SetParseError(NumberTooBig, startOffset);
          return;
        }
        Hand(Num(Double(t.src[startOffset..pos])), startOffset);
      } else if use64bit {
        if minus {
          Hand(Num(Int64(AsInt64((0x1_0000_0000_0000_0000 - i64) % 0x1_0000_0000_0000_0000))), startOffset);
        } else {
          Hand(Num(Uint64(i64)), startOffset);
        }
      } else if minus {
        Hand(Num(Int(AsInt32((0x1_0000_0000 - i) % 0x1_0000_0000))), startOffset);
      } else {
        Hand(Num(Uint(i)), startOffset);
      }
    }

    lemma NumeralEnds(src: Text, pos: nat)
      ensures NumberAt(src, pos, t.tooBig).Read? ==> pos < NumberAt(src, pos, t.tooBig).next <= |src|
    {
    }

    // ----- values, recursively

    method ParseScalar()
      requires !HasParseError()
      modifies this
      ensures Outcome() == Scalar(t, old(pos), old(events))
      ensures !HasParseError() ==> stack == old(stack)
    {
      hide Literal, QuotedString, Numeral;
      var c := Head();
      if c == LOWER_N {
        ParseLiteral(NULL_REST, Null);
      } else if c == LOWER_T {
        ParseLiteral(TRUE_REST, Bool(true));
      } else if c == LOWER_F {
        ParseLiteral(FALSE_REST, Bool(false));
      } else if c == QUOTE {
        ParseString(false);
      } else {
        ParseNumber();
      }
    }

    method ParseValue()
      requires !HasParseError()
      modifies this
      ensures Outcome() == Value(t, old(pos), old(events))
      ensures !HasParseError() ==> stack == old(stack)
      decreases |t.src| - pos, 2
    {
      hide Scalar, Object, Array;
      var c := Head();
      if c == LEFT_BRACE {
        ParseObject();
      } else if c == LEFT_BRACKET {
        ParseArray();
      } else {
        ParseScalar();
      }
    }

    /** The part of `ParseObject`'s loop that reads a member. */
    method ParseMember()
      requires !HasParseError()
      modifies this
      ensures Outcome() == Member(t, old(pos), old(events))
      ensures !HasParseError() ==> stack == old(stack)
      decreases |t.src| - pos, 0
    {
      hide SkipAt, QuotedString, Value;
      if Head() != QUOTE {
        SetParseError(ObjectMissName, pos);
        return;
      }
      ParseString(true);
      if HasParseError() {
        return;
      }
      SkipWhitespaceAndComments();
      if HasParseError() {
        return;
      }
      var colon := Consume(COLON);
      if !colon {
        SetParseError(ObjectMissColon, pos);
        return;
      }
      SkipWhitespaceAndComments();
      if HasParseError() {
        return;
      }
      ParseValue();
      if HasParseError() {
        return;
      }
      SkipWhitespaceAndComments();
    }

    method ParseObject()
      requires !HasParseError() && Head() == LEFT_BRACE
      modifies this
      ensures Outcome() == Object(t, old(pos), old(events))
      ensures !HasParseError() ==> stack == old(stack)
      decreases |t.src| - pos, 1
    {
      hide SkipAt, Member, Members, Emit;
      pos := pos + 1;
      Hand(StartObject, pos);
      if HasParseError() {
        return;
      }
      SkipWhitespaceAndComments();
      if HasParseError() {
        return;
      }
      var end := Consume(RIGHT_BRACE);
      if end {
        Hand(EndObject(0), pos);
        return;
      }
      var memberCount := 0;
      while true
        invariant !HasParseError() && stack == old(stack) && old(pos) < pos
        invariant Members(t, pos, events, memberCount) == Object(t, old(pos), old(events))
        decreases |t.src| - pos
      {
        MembersStep(t, pos, events, memberCount);
        ParseMember();
        if HasParseError() {
          return;
        }
        memberCount := memberCount + 1;
        var c := Head();
        if c == COMMA {
          pos := pos + 1;
          SkipWhitespaceAndComments();
          if HasParseError() {
            return;
          }
        } else if c == RIGHT_BRACE {
          pos := pos + 1;
          Hand(EndObject(memberCount), pos);
          return;
        } else {
          SetParseError(ObjectMissCommaOrCurlyBracket, pos);
          return;
        }
        if t.trailingCommas && Head() == RIGHT_BRACE {
          EmitElsewhere(t, events, EndObject(memberCount), pos, pos, pos + 1);
          Hand(EndObject(memberCount), pos);
          pos := pos + 1;
          return;
        }
      }
    }

    /** The part of `ParseArray`'s loop that reads an element. */
    method ParseElement()
      requires !HasParseError()
      modifies this
      ensures Outcome() == Element(t, old(pos), old(events))
      ensures !HasParseError() ==> stack == old(stack)
      decreases |t.src| - pos, 3
    {
      hide SkipAt, Value;
      ParseValue();
      if !HasParseError() {
        SkipWhitespaceAndComments();
      }
    }

    method ParseArray()
      requires !HasParseError() && Head() == LEFT_BRACKET
      modifies this
      ensures Outcome() == Array(t, old(pos), old(events))
      ensures !HasParseError() ==> stack == old(stack)
      decreases |t.src| - pos, 1
    {
      hide SkipAt, Element, Elements, Emit;
      pos := pos + 1;
      Hand(StartArray, pos);
      if HasParseError() {
        return;
      }
      SkipWhitespaceAndComments();
      if HasParseError() {
        return;
      }
      var end := Consume(RIGHT_BRACKET);
      if end {
        Hand(EndArray(0), pos);
        return;
      }
      var elementCount := 0;
      while true
        invariant !HasParseError() && stack == old(stack) && old(pos) < pos
        invariant Elements(t, pos, events, elementCount) == Array(t, old(pos), old(events))
        decreases |t.src| - pos
      {
        ElementsStep(t, pos, events, elementCount);
        ParseElement();
        if HasParseError() {
          return;
        }
        elementCount := elementCount + 1;
        var comma := Consume(COMMA);
        if comma {
          SkipWhitespaceAndComments();
          if HasParseError() {
            return;
          }
        } else {
          end := Consume(RIGHT_BRACKET);
          if end {
            Hand(EndArray(elementCount), pos);
          } else {
            SetParseError(ArrayMissCommaOrSquareBracket, pos);
          }
          return;
        }
        if t.trailingCommas && Head() == RIGHT_BRACKET {
          EmitElsewhere(t, events, EndArray(elementCount), pos, pos, pos + 1);
          Hand(EndArray(elementCount), pos);
          pos := pos + 1;
          return;
        }
      }
    }

    /** `Parse`, from the beginning of the text. */
    method Parse()
      requires pos == 0 && events == []
      modifies this
      ensures Outcome() == Document(t) && stack == []
    {
      hide SkipAt, Value;
      parseResult := None;
      SkipWhitespaceAndComments();
      if !HasParseError() {
        if Head() == 0 {
          SetParseError(DocumentEmpty, pos);
        } else {
          ParseValue();
          if !HasParseError() && !t.stopWhenDone {
            SkipWhitespaceAndComments();
            if !HasParseError() && Head() != 0 {
              SetParseError(DocumentRootNotSingular, pos);
            }
          }
        }
      }
      stack := [];
    }

    // ----- values, by the table

    /** The reader stands where the machine does, and its stack holds the machine's frames. */
    ghost predicate StandsAt(m: Machine)
      reads this
    {
      !HasParseError() && pos == m.pos && events == m.events && stack == FrameSlots(m.frames)
    }

    method OpenContainer(src: State, isObject: bool, ghost frames: seq<Frame>)
      requires !HasParseError() && stack == FrameSlots(frames)
      modifies this
      ensures var m := Machine(src, frames, old(pos), old(events));
              match Open(t, m, if isObject then ObjectInitialState else ArrayInitialState, if isObject then StartObject else StartArray)
              case To(m') => StandsAt(m')
              case Stuck(code, offset, all) => parseResult == Some((code, offset)) && events == all
    {
      hide Emit, FrameSlots;
      var n := src;
      if src == ArrayInitialState || src == ElementDelimiterState {
        n := ElementState;
      } else if src == KeyValueDelimiterState {
        n := MemberValueState;
      }
      stack := stack + [StateWord(n), CountWord(0)];
      PushedSlots(frames, Frame(n, 0));
      EmitElsewhere(t, events, if isObject then StartObject else StartArray, pos, pos, pos + 1);
      Hand(if isObject then StartObject else StartArray, pos);
      if !HasParseError() {
        pos := pos + 1;
      }
    }

    method CloseContainer(src: State, isObject: bool, ghost frames: seq<Frame>) returns (d: State)
      requires !HasParseError() && stack == FrameSlots(frames) && frames != []
      modifies this
      ensures var m := Machine(src, frames, old(pos), old(events));
              match Close(t, m, if isObject then MemberValueState else ElementState, isObject)
              case To(m') => StandsAt(m') && d == m'.state
              case Stuck(code, offset, all) => parseResult == Some((code, offset)) && events == all && d == ErrorState
    {
      hide Emit, FrameSlots;
      TopSlots(frames);
      var c := stack[|stack| - 1].n;
      stack := stack[..|stack| - 1];
      if src == (if isObject then MemberValueState else ElementState) {
        c := c + 1;
      }
      var n := stack[|stack| - 1].state;
      stack := stack[..|stack| - 1];
      if n == StartState {
        n := FinishState;
      }
      EmitElsewhere(t, events, if isObject then EndObject(c) else EndArray(c), pos, pos, pos + 1);
      Hand(if isObject then EndObject(c) else EndArray(c), pos);
      if HasParseError() {
        return ErrorState;
      }
      pos := pos + 1;
      d := n;
    }

    /** One more comma in the innermost container. */
    method CountDelimiter(ghost frames: seq<Frame>)
      requires !HasParseError() && stack == FrameSlots(frames) && frames != []
      modifies this`pos, this`stack
      ensures pos == old(pos) + 1 && stack == FrameSlots(Counted(frames))
    {
      TopSlots(frames);
      CountedSlots(frames);
      pos := pos + 1;
      var top := stack[|stack| - 1].n;
      stack := stack[..|stack| - 1] + [CountWord(top + 1)];
    }

    /** `Transit`: the next state, or `ErrorState`; then the error is set unless it is the one of the state. */
    method TransitTo(src: State, dst: State, ghost frames: seq<Frame>) returns (d: State)
      requires !HasParseError() && stack == FrameSlots(frames) && MachineOk(Machine(src, frames, pos, events))
      requires dst == Predict(src, Tokenize(Head()))
      modifies this
      ensures match Transit(t, Machine(src, frames, old(pos), old(events)))
              case To(m) => StandsAt(m) && d == m.state
              case Stuck(code, offset, all) =>
                && d == ErrorState && events == all
                && (if HasParseError() then parseResult == Some((code, offset)) else code == ErrorOf(src) && offset == pos)
    {
      hide QuotedString, Scalar, Emit, Close, Counted, FramesOk, FrameSlots;
      d := dst;
      match dst {
      case ErrorState =>
      case ObjectInitialState =>
        OpenContainer(src, true, frames);
      case ArrayInitialState =>
        OpenContainer(src, false, frames);
      case MemberKeyState =>
        ParseString(true);
      case KeyValueDelimiterState =>
        pos := pos + 1;
      case MemberValueState =>
        ParseScalarAsValue();
      case ElementState =>
        ParseScalarAsValue();
      case MemberDelimiterState =>
        CountDelimiter(frames);
      case ElementDelimiterState =>
        CountDelimiter(frames);
      case ObjectFinishState =>
        if !t.trailingCommas && src == MemberDelimiterState {
          SetParseError(ObjectMissName, pos);
        } else {
          d := CloseContainer(src, true, frames);
        }
      case ArrayFinishState =>
        if !t.trailingCommas && src == ElementDelimiterState {
          SetParseError(ValueInvalid, pos);
        } else {
          d := CloseContainer(src, false, frames);
        }
      case ValueState =>
        ParseScalarAsValue();
        d := FinishState;
      case _ =>
        assert false;
      }
      if HasParseError() {
        d := ErrorState;
      }
    }

    /** `ParseValue`, where the table has seen to it that no container begins. */
    method ParseScalarAsValue()
      requires !HasParseError() && Head() != LEFT_BRACE && Head() != LEFT_BRACKET
      modifies this
      ensures Outcome() == Scalar(t, old(pos), old(events))
      ensures !HasParseError() ==> stack == old(stack)
    {
      ParseValue();
    }

    /** The first error stays; a new one names what the table would have had a place for. */
    method HandleError(src: State)
      modifies this`parseResult
      ensures parseResult == if old(HasParseError()) then old(parseResult) else Some((ErrorOf(src), pos))
      ensures HasParseError()
      ensures LooksAhead(src) && !old(HasParseError()) ==>
                forall token | IsMissed(parseResult.value.0, token) :: Predict(src, token) != ErrorState
    {
      if !HasParseError() {
        SetParseError(ErrorOf(src), pos);
      }
    }

    /** `IterativeParse`, from the beginning of the text. */
    method IterativeParse()
      requires pos == 0 && events == [] && stack == []
      modifies this
      ensures Outcome() == IterativeDocument(t) && stack == []
    {
      parseResult := None;
      IterativeLoop();
      stack := [];
    }

    /** The body of `IterativeParse`; its loop keeps the stack a list of the open containers. */
    method IterativeLoop()
      requires pos == 0 && events == [] && stack == [] && !HasParseError()
      modifies this
      ensures Outcome() == IterativeDocument(t)
    {
      hide Transit, SkipAt, Matches, MachineOk, MoveMatches, FrameSlots, NestOf;
      var state := StartState;
      ghost var frames: seq<Frame> := [];
      NoSlots();
      SkipWhitespaceAndComments();
      if HasParseError() {
        return;
      }
      StartMatches(pos);
      MatchesOk(Machine(state, frames, pos, events));
      while Head() != 0
        invariant !HasParseError() && stack == FrameSlots(frames)
        invariant Matches(Machine(state, frames, pos, events)) && MachineOk(Machine(state, frames, pos, events))
        invariant Loop(t, Machine(state, frames, pos, events)) == IterativeDocument(t)
        decreases |t.src| - pos
      {
        ghost var m := Machine(state, frames, pos, events);
        TransitMatches(t, m);
        MatchesNoError(Transit(t, m));
        var n := Predict(state, Tokenize(Head()));
        var d := TransitTo(state, n, frames);
        if d == ErrorState {
          HandleError(state);
          break;
        }
        ghost var m' := Transit(t, m).m;
        state, frames := d, m'.frames;
        if t.stopWhenDone && state == FinishState {
          break;
        }
        SkipWhitespaceAndComments();
        if HasParseError() {
          return;
        }
        MovedMatches(m', pos);
        MatchesOk(m'.(pos := pos));
      }
      if state != FinishState {
        HandleError(state);
      }
    }
  }

  lemma NoSlots()
    ensures FrameSlots([]) == []
  {
  }

  lemma MatchesNoError(r: Move)
    requires MoveMatches(r)
    ensures r.To? ==> r.m.state != ErrorState
  {
  }

  lemma MovedMatches(m: Machine, pos: nat)
    requires MoveMatches(To(m))
    ensures Matches(m.(pos := pos))
  {
  }
}
