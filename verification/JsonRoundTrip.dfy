/** Reading values back: laid out in any way, and as they are printed. */
module JsonRoundTrip {
  import opened Ascii
  import opened JsonAutomaton
  import opened JsonLexer
  import opened JsonParser
  import opened JsonSpelling
  import opened JsonTree
  import opened Streams
  import opened Texts
  import opened Utf8
  import opened Wrappers

  /** Exactness of the integer path: a numeral without fraction and exponent is handed on as the integer it denotes
      exactly when that fits in 64 bits; otherwise as a floating-point number, unless even that overflows. */
  lemma IntegerPath(src: Text, pos: nat, tooBig: seq<int> -> bool)
    requires var start := if Peek(src, pos) == DASH then pos + 1 else pos;
             IsDigit(Peek(src, start)) && EndsNumber(Peek(src, IntegerEnd(src, start)))
    ensures var negative := Peek(src, pos) == DASH;
            var start := if negative then pos + 1 else pos;
            var v := if Peek(src, start) == DIGIT_0 then 0 else DigitsValue(src, start, 0);
            var i := if negative then 0 - v else v;
            var r := NumberAt(src, pos, tooBig);
            if -INT64_MIN_MAGNITUDE <= i <= UINT64_MAX then r.Read? && !r.value.Double? && r.value.i == i
            else if r.Read? then r.value.Double? else r.code == NumberTooBig
  {
    hide DigitsEnd, DigitsValue;
  }

  // ----- values, laid out

  /** A value with the spelling of its strings and numbers and with all that stands between its tokens.  `comma` is a
      comma after the last child. */
  datatype Laid =
    | LaidNull
    | LaidBool(b: bool)
    | LaidString(pieces: seq<Piece>)
    | LaidNumber(m: Numeral)
    | LaidArray(space: Gap, elements: seq<Element>, comma: bool)
    | LaidObject(space: Gap, members: seq<Entry>, comma: bool)

  /** An element, what comes after it, and what comes after the comma that follows. */
  datatype Element = Element(value: Laid, after: Gap, next: Gap)

  datatype Entry = Entry(name: seq<Piece>, before: Gap, colon: Gap, value: Laid, after: Gap, next: Gap)

  /** The layout is one for the flags of the parse, and no number is too big for a double. */
  predicate IsLaid(t: Job, v: Laid) {
    match v
    case LaidNull => true
    case LaidBool(_) => true
    case LaidString(pieces) => ArePieces(pieces)
    case LaidNumber(m) => IsNumeral(m) && (!IsInteger(m) ==> !t.tooBig(NumeralText(m)))
    case LaidArray(space, elements, comma) =>
      && IsGap(space, t.comments) && (comma ==> t.trailingCommas && elements != [])
      && forall i | 0 <= i < |elements| :: IsElement(t, elements[i])
    case LaidObject(space, members, comma) =>
      && IsGap(space, t.comments) && (comma ==> t.trailingCommas && members != [])
      && forall i | 0 <= i < |members| :: IsEntry(t, members[i])
  }

  predicate IsElement(t: Job, e: Element) {
    IsGap(e.after, t.comments) && IsGap(e.next, t.comments) && IsLaid(t, e.value)
  }

  predicate IsEntry(t: Job, m: Entry) {
    && ArePieces(m.name) && IsGap(m.before, t.comments) && IsGap(m.colon, t.comments)
    && IsGap(m.after, t.comments) && IsGap(m.next, t.comments) && IsLaid(t, m.value)
  }

  predicate AreElements(t: Job, elements: seq<Element>) {
    forall i | 0 <= i < |elements| :: IsElement(t, elements[i])
  }

  predicate AreEntries(t: Job, members: seq<Entry>) {
    forall i | 0 <= i < |members| :: IsEntry(t, members[i])
  }

  function LaidText(t: Job, v: Laid): seq<int>
    requires IsLaid(t, v)
    decreases v, 2
  {
    match v
    case LaidNull => Codes("null")
    case LaidBool(b) => if b then Codes("true") else Codes("false")
    case LaidString(pieces) => StringText(pieces)
    case LaidNumber(m) => NumeralText(m)
    case LaidArray(space, elements, comma) =>
      ['[' as int] + (GapText(space) + ((if elements == [] then [] else ElementsText(t, elements, comma)) + [']' as int]))
    case LaidObject(space, members, comma) =>
      ['{' as int] + (GapText(space) + ((if members == [] then [] else EntriesText(t, members, comma)) + ['}' as int]))
  }

  function ElementsText(t: Job, elements: seq<Element>, comma: bool): seq<int>
    requires AreElements(t, elements) && elements != []
    decreases elements, 1
  {
    assert IsElement(t, elements[0]);
    LaidText(t, elements[0].value) + (GapText(elements[0].after) + ElementsTail(t, elements, comma))
  }

  /** What comes after the first element and its gap: a comma and more of them, or nothing. */
  function ElementsTail(t: Job, elements: seq<Element>, comma: bool): seq<int>
    requires AreElements(t, elements) && elements != []
    decreases elements, 0
  {
    if |elements| == 1 then if comma then [',' as int] + GapText(elements[0].next) else []
    else [',' as int] + (GapText(elements[0].next) + ElementsText(t, elements[1..], comma))
  }

  function EntryText(t: Job, m: Entry): seq<int>
    requires IsEntry(t, m)
    decreases m, 2
  {
    StringText(m.name) + (GapText(m.before) + ([':' as int] + (GapText(m.colon) + LaidText(t, m.value))))
  }

  function EntriesText(t: Job, members: seq<Entry>, comma: bool): seq<int>
    requires AreEntries(t, members) && members != []
    decreases members, 1
  {
    assert IsEntry(t, members[0]);
    EntryText(t, members[0]) + (GapText(members[0].after) + EntriesTail(t, members, comma))
  }

  function EntriesTail(t: Job, members: seq<Entry>, comma: bool): seq<int>
    requires AreEntries(t, members) && members != []
    decreases members, 0
  {
    if |members| == 1 then if comma then [',' as int] + GapText(members[0].next) else []
    else [',' as int] + (GapText(members[0].next) + EntriesText(t, members[1..], comma))
  }

  /** What a handler is given for a value, whatever its layout. */
  function LaidEvents(v: Laid): seq<Event> {
    match v
    case LaidNull => [Null]
    case LaidBool(b) => [Bool(b)]
    case LaidString(pieces) => if ArePieces(pieces) then [Str(Spelled(pieces))] else []
    case LaidNumber(m) => [Num(NumeralValue(m))]
    case LaidArray(_, elements, _) => [StartArray] + (ElementsEvents(elements) + [EndArray(|elements|)])
    case LaidObject(_, members, _) => [StartObject] + (EntriesEvents(members) + [EndObject(|members|)])
  }

  function ElementsEvents(elements: seq<Element>): seq<Event> {
    if elements == [] then [] else LaidEvents(elements[0].value) + ElementsEvents(elements[1..])
  }

  function NameOf(m: Entry): seq<int> {
    if ArePieces(m.name) then Spelled(m.name) else []
  }

  function EntriesEvents(members: seq<Entry>): seq<Event> {
    if members == [] then [] else [Key(NameOf(members[0]))] + (LaidEvents(members[0].value) + EntriesEvents(members[1..]))
  }

  /** The handler never stops the parse. */
  ghost predicate AcceptsAll(t: Job) {
    forall events: seq<Event> :: t.accepts(events)
  }

  lemma SkipsAt(t: Job, pos: nat, events: seq<Event>, g: Gap)
    requires IsGap(g, t.comments) && At(t.src, pos, GapText(g)) && NotSkipped(Peek(t.src, pos + |GapText(g)|))
    ensures SkipAt(t, pos, events) == Going(pos + |GapText(g)|, events)
  {
    SkipsGap(t.src, t.comments, pos, g);
    hide Skip, GapText;
  }

  lemma Emits(t: Job, events: seq<Event>, e: Event, offset: nat, next: nat)
    requires AcceptsAll(t)
    ensures Emit(t, events, e, offset, next) == Going(next, events + [e])
  {
  }

  lemma {:induction false} ReadsWord(src: Text, pos: nat, word: seq<int>)
    requires At(src, pos, word)
    ensures MatchWord(src, pos, word) == (true, pos + |word|)
    decreases |word|
  {
    if word != [] {
      AtFirst(src, pos, word);
      ReadsWord(src, pos + 1, word[1..]);
    }
  }

  lemma ReadsLiteral(t: Job, pos: nat, events: seq<Event>, first: int, rest: seq<int>, e: Event)
    requires AcceptsAll(t) && At(t.src, pos, [first] + rest)
    ensures Peek(t.src, pos) == first && Literal(t, pos, events, rest, e) == Going(pos + 1 + |rest|, events + [e])
  {
    AtFirst(t.src, pos, [first] + rest);
    assert ([first] + rest)[1..] == rest;
    ReadsWord(t.src, pos + 1, rest);
    hide MatchWord;
  }

  lemma ReadsString(t: Job, pos: nat, events: seq<Event>, s: seq<Piece>, isKey: bool)
    requires AcceptsAll(t) && ArePieces(s) && At(t.src, pos, StringText(s))
    ensures Peek(t.src, pos) == QUOTE
    ensures QuotedString(t, pos, events, isKey)
         == Going(pos + |StringText(s)|, events + [if isKey then Key(Spelled(s)) else Str(Spelled(s))])
  {
    ReadsStringText(t.src, pos, s);
    hide String, StringText, Spelled;
  }

  lemma WordsWrittenOut()
    ensures Codes("null") == [LOWER_N] + NULL_REST && Codes("true") == [LOWER_T] + TRUE_REST
    ensures Codes("false") == [LOWER_F] + FALSE_REST
  {
  }

  predicate IsLeaf(v: Laid) {
    !v.LaidArray? && !v.LaidObject?
  }

  lemma ReadsLeaf(t: Job, pos: nat, events: seq<Event>, v: Laid)
    requires AcceptsAll(t) && IsLaid(t, v) && IsLeaf(v)
    requires At(t.src, pos, LaidText(t, v)) && EndsNumber(Peek(t.src, pos + |LaidText(t, v)|))
    ensures Value(t, pos, events) == Going(pos + |LaidText(t, v)|, events + LaidEvents(v))
  {
    hide At, Literal, QuotedString, NumberAt, AcceptsAll, StringText, NumeralText, NumeralValue, IsNumeral, IsInteger, ArePieces,
         Codes, EndsNumber, Spelled;
    WordsWrittenOut();
    match v
    case LaidNull =>
      ReadsLiteral(t, pos, events, LOWER_N, NULL_REST, Null);
    case LaidBool(b) =>
      if b {
        ReadsLiteral(t, pos, events, LOWER_T, TRUE_REST, Bool(true));
      } else {
        ReadsLiteral(t, pos, events, LOWER_F, FALSE_REST, Bool(false));
      }
    case LaidNumber(m) =>
      ReadsNumeral(t.src, pos, m, t.tooBig);
      Emits(t, events, Num(NumeralValue(m)), pos, pos + |NumeralText(m)|);
    case LaidString(pieces) =>
      ReadsString(t, pos, events, pieces, false);
  }

  /** A value in any layout is read as its events, whatever the flags it is a layout for, if nothing after it runs into
      it. */
  lemma {:induction false} ReadsLaid(t: Job, pos: nat, events: seq<Event>, v: Laid)
    requires AcceptsAll(t) && IsLaid(t, v) && At(t.src, pos, LaidText(t, v)) && EndsNumber(Peek(t.src, pos + |LaidText(t, v)|))
    ensures Value(t, pos, events) == Going(pos + |LaidText(t, v)|, events + LaidEvents(v))
    decreases |t.src| - pos, 1
  {
    hide Value, LaidText, LaidEvents, At, EndsNumber, AcceptsAll, IsLaid;
    if v.LaidArray? {
      ReadsArray(t, pos, events, v);
    } else if v.LaidObject? {
      ReadsObject(t, pos, events, v);
    } else {
      ReadsLeaf(t, pos, events, v);
    }
  }

  /** No separator is skipped, or taken for a part of a number. */
  lemma Separators()
    ensures EndsNumber(COMMA) && EndsNumber(RIGHT_BRACKET) && EndsNumber(RIGHT_BRACE) && EndsNumber(0)
    ensures NotSkipped(COMMA) && NotSkipped(COLON) && NotSkipped(RIGHT_BRACKET) && NotSkipped(RIGHT_BRACE) && NotSkipped(0)
    ensures ',' as int == COMMA && ':' as int == COLON && '[' as int == LEFT_BRACKET && ']' as int == RIGHT_BRACKET
    ensures '{' as int == LEFT_BRACE && '}' as int == RIGHT_BRACE
  {
  }

  /** A gap before something that is neither skipped nor a part of a number. */
  lemma AfterGap(src: Text, pos: nat, g: Gap, comments: bool)
    requires IsGap(g, comments) && At(src, pos, GapText(g)) && EndsNumber(Peek(src, pos + |GapText(g)|))
    ensures EndsNumber(Peek(src, pos))
  {
    hide EndsNumber;
    if g != [] {
      GapHead(g, comments);
      AtFirst(src, pos, GapText(g));
    }
  }

  /** The first byte of a value. */
  lemma LaidHead(t: Job, v: Laid)
    requires IsLaid(t, v)
    ensures var s := LaidText(t, v);
            s != [] && NotSkipped(s[0]) && s[0] != RIGHT_BRACKET && s[0] != RIGHT_BRACE && s[0] != 0
  {
    WordsWrittenOut();
    if v.LaidNumber? {
      DecimalDigits(v.m.n);
    }
  }

  lemma HeadAt(t: Job, pos: nat, v: Laid)
    requires IsLaid(t, v) && At(t.src, pos, LaidText(t, v))
    ensures var c := Peek(t.src, pos); NotSkipped(c) && c != RIGHT_BRACKET && c != RIGHT_BRACE && c != 0
  {
    LaidHead(t, v);
    AtFirst(t.src, pos, LaidText(t, v));
    hide LaidText, At;
  }

  /** The events after those of some children and the end of their container. */
  function Onto(events: seq<Event>, children: seq<Event>, last: Event): seq<Event> {
    events + (children + [last])
  }

  // ----- arrays

  lemma LaidArrayParts(t: Job, v: Laid)
    requires IsLaid(t, v) && v.LaidArray?
    ensures AreElements(t, v.elements) && IsGap(v.space, t.comments) && (v.comma ==> t.trailingCommas && v.elements != [])
    ensures LaidText(t, v) == [LEFT_BRACKET] + (GapText(v.space) + (ContentText(t, v.elements, v.comma) + [RIGHT_BRACKET]))
    ensures forall events :: Onto(events + [StartArray], ElementsEvents(v.elements), EndArray(|v.elements|)) == events + LaidEvents(v)
  {
    hide ElementsText, GapText;
  }

  function ContentText(t: Job, elements: seq<Element>, comma: bool): seq<int>
    requires AreElements(t, elements)
  {
    if elements == [] then [] else ElementsText(t, elements, comma)
  }

  lemma {:induction false} ReadsArray(t: Job, pos: nat, events: seq<Event>, v: Laid)
    requires AcceptsAll(t) && IsLaid(t, v) && v.LaidArray? && At(t.src, pos, LaidText(t, v))
    ensures Value(t, pos, events) == Going(pos + |LaidText(t, v)|, events + LaidEvents(v))
    decreases |t.src| - pos, 0
  {
    hide *;
    Separators();
    LaidArrayParts(t, v);
    var space, content, begun := GapText(v.space), ContentText(t, v.elements, v.comma), events + [StartArray];
    var p := pos + 1 + |space|;
    AtContainer(t.src, pos, LEFT_BRACKET, space, content, RIGHT_BRACKET);
    Emits(t, events, StartArray, pos + 1, pos + 1);
    ContentHead(t, p, v.elements, v.comma);
    SkipsAt(t, pos + 1, begun, v.space);
    ArrayGoesOn(t, pos, events, begun, p);
    if v.elements == [] {
      Emits(t, begun, EndArray(0), p + 1, p + 1);
      NoElements(begun, v.elements, EndArray(0));
    } else {
      SomeElements(t, v.elements, v.comma);
      ReadsElements(t, p, begun, v.elements, v.comma, 0);
    }
  }

  /** A container: an opening mark, a gap, the content and a closing mark. */
  lemma AtContainer(src: Text, pos: nat, open: int, space: seq<int>, content: seq<int>, close: int)
    requires At(src, pos, [open] + (space + (content + [close])))
    ensures Peek(src, pos) == open && At(src, pos + 1, space) && At(src, pos + 1 + |space|, content)
    ensures Peek(src, pos + 1 + |space| + |content|) == close && pos < |src|
    ensures |[open] + (space + (content + [close]))| == 2 + |space| + |content|
  {
    hide At;
    AtSplit(src, pos, [open], space + (content + [close]));
    AtSplit(src, pos + 1, space, content + [close]);
    AtSplit(src, pos + 1 + |space|, content, [close]);
    AtFirst(src, pos, [open]);
    AtFirst(src, pos + 1 + |space| + |content|, [close]);
  }

  lemma ContentHead(t: Job, pos: nat, elements: seq<Element>, comma: bool)
    requires AreElements(t, elements) && At(t.src, pos, ContentText(t, elements, comma))
    requires Peek(t.src, pos + |ContentText(t, elements, comma)|) == RIGHT_BRACKET
    ensures NotSkipped(Peek(t.src, pos)) && (Peek(t.src, pos) == RIGHT_BRACKET <==> elements == [])
    ensures elements == [] ==> ContentText(t, elements, comma) == []
  {
    hide NotSkipped;
    Separators();
    if elements != [] {
      ElementsHead(t, pos, elements, comma);
    }
  }

  lemma SomeElements(t: Job, elements: seq<Element>, comma: bool)
    requires AreElements(t, elements) && elements != []
    ensures ContentText(t, elements, comma) == ElementsText(t, elements, comma)
  {
  }

  lemma ArrayGoesOn(t: Job, pos: nat, events: seq<Event>, begun: seq<Event>, p: nat)
    requires pos < |t.src| && Peek(t.src, pos) == LEFT_BRACKET && Emit(t, events, StartArray, pos + 1, pos + 1) == Going(pos + 1, begun)
    requires SkipAt(t, pos + 1, begun) == Going(p, begun)
    ensures Value(t, pos, events)
         == if Peek(t.src, p) == RIGHT_BRACKET then Emit(t, begun, EndArray(0), p + 1, p + 1) else Elements(t, p, begun, 0)
  {
    hide Emit, SkipAt, Elements;
  }

  lemma NoElements(events: seq<Event>, elements: seq<Element>, last: Event)
    requires elements == []
    ensures Onto(events, ElementsEvents(elements), last) == events + [last]
  {
  }

  lemma Regroup(a: seq<Event>, b: seq<Event>, c: seq<Event>, d: seq<Event>, e: seq<Event>)
    ensures ((a + b) + c) + (d + e) == a + ((b + (c + d)) + e)
  {
  }

  lemma ElementsJoin(events: seq<Event>, elements: seq<Element>, last: Event)
    requires elements != []
    ensures Onto(events + LaidEvents(elements[0].value), ElementsEvents(elements[1..]), last) == Onto(events, ElementsEvents(elements), last)
  {
    hide LaidEvents;
  }

  lemma ElementsParts(t: Job, pos: nat, elements: seq<Element>, comma: bool)
    requires AreElements(t, elements) && elements != [] && At(t.src, pos, ElementsText(t, elements, comma))
    ensures IsElement(t, elements[0]) && IsLaid(t, elements[0].value) && IsGap(elements[0].after, t.comments)
    ensures IsGap(elements[0].next, t.comments)
    ensures var s, g, r := LaidText(t, elements[0].value), GapText(elements[0].after), ElementsTail(t, elements, comma);
            && At(t.src, pos, s) && At(t.src, pos + |s|, g) && At(t.src, pos + |s| + |g|, r)
            && |ElementsText(t, elements, comma)| == |s| + |g| + |r|
  {
    hide At, LaidText, GapText, ElementsTail, IsLaid;
    assert IsElement(t, elements[0]);
    var s, g, r := LaidText(t, elements[0].value), GapText(elements[0].after), ElementsTail(t, elements, comma);
    AtSplit(t.src, pos, s, g + r);
    AtSplit(t.src, pos + |s|, g, r);
  }

  lemma ElementsHead(t: Job, pos: nat, elements: seq<Element>, comma: bool)
    requires AreElements(t, elements) && elements != [] && At(t.src, pos, ElementsText(t, elements, comma))
    ensures NotSkipped(Peek(t.src, pos)) && Peek(t.src, pos) != RIGHT_BRACKET
  {
    hide *;
    ElementsParts(t, pos, elements, comma);
    HeadAt(t, pos, elements[0].value);
  }

  /** What comes after an element and its gap: a comma or the closing bracket. */
  lemma TailHead(t: Job, pos: nat, elements: seq<Element>, comma: bool)
    requires AreElements(t, elements) && elements != [] && At(t.src, pos, ElementsTail(t, elements, comma))
    requires Peek(t.src, pos + |ElementsTail(t, elements, comma)|) == RIGHT_BRACKET
    ensures Peek(t.src, pos) == if |elements| == 1 && !comma then RIGHT_BRACKET else COMMA
    ensures |elements| == 1 && !comma ==> ElementsTail(t, elements, comma) == []
    ensures |elements| == 1 && comma ==>
              At(t.src, pos + 1, GapText(elements[0].next)) && |ElementsTail(t, elements, comma)| == 1 + |GapText(elements[0].next)|
    ensures |elements| > 1 ==>
              && AreElements(t, elements[1..]) && At(t.src, pos + 1, GapText(elements[0].next))
              && At(t.src, pos + 1 + |GapText(elements[0].next)|, ElementsText(t, elements[1..], comma))
              && |ElementsTail(t, elements, comma)| == 1 + |GapText(elements[0].next)| + |ElementsText(t, elements[1..], comma)|
  {
    hide At, GapText, ElementsText;
    var g := GapText(elements[0].next);
    if |elements| > 1 {
      var r := ElementsText(t, elements[1..], comma);
      AtSplit(t.src, pos, [COMMA], g + r);
      AtSplit(t.src, pos + 1, g, r);
      AtFirst(t.src, pos, [COMMA]);
    } else if comma {
      AtSplit(t.src, pos, [COMMA], g);
      AtFirst(t.src, pos, [COMMA]);
    }
  }

  lemma {:induction false} ReadsElementsTail(t: Job, p: nat, events: seq<Event>, elements: seq<Element>, comma: bool, count: nat)
    requires AcceptsAll(t) && AreElements(t, elements) && elements != [] && (comma ==> t.trailingCommas)
    requires At(t.src, p, ElementsTail(t, elements, comma)) && Peek(t.src, p + |ElementsTail(t, elements, comma)|) == RIGHT_BRACKET
    requires IsGap(elements[0].next, t.comments)
    ensures AfterElement(t, p, events, count + 1)
         == Going(p + |ElementsTail(t, elements, comma)| + 1, Onto(events, ElementsEvents(elements[1..]), EndArray(count + |elements|)))
    decreases |t.src| - p, 0
  {
    hide *;
    Separators();
    TailHead(t, p, elements, comma);
    var rest, last := elements[1..], EndArray(count + |elements|);
    if |elements| == 1 {
      NoElements(events, rest, last);
      if comma {
        var q := p + 1 + |GapText(elements[0].next)|;
        SkipsAt(t, p + 1, events, elements[0].next);
        Emits(t, events, last, q, q + 1);
        CommaThenEnd(t, p, events, count + 1, q);
      } else {
        Emits(t, events, last, p + 1, p + 1);
        EndAtOnce(t, p, events, count + 1);
      }
    } else {
      var q := p + 1 + |GapText(elements[0].next)|;
      ElementsHead(t, q, rest, comma);
      SkipsAt(t, p + 1, events, elements[0].next);
      CommaThenMore(t, p, events, count + 1, q);
      ReadsElements(t, q, events, rest, comma, count + 1);
    }
  }

  lemma EndAtOnce(t: Job, p: nat, events: seq<Event>, count: nat)
    requires Peek(t.src, p) == RIGHT_BRACKET
    ensures AfterElement(t, p, events, count) == Emit(t, events, EndArray(count), p + 1, p + 1)
  {
    hide Emit;
  }

  lemma CommaThenEnd(t: Job, p: nat, events: seq<Event>, count: nat, q: nat)
    requires Peek(t.src, p) == COMMA && SkipAt(t, p + 1, events) == Going(q, events) && Peek(t.src, q) == RIGHT_BRACKET && t.trailingCommas
    ensures AfterElement(t, p, events, count) == Emit(t, events, EndArray(count), q, q + 1)
  {
    hide Emit, SkipAt;
  }

  lemma CommaThenMore(t: Job, p: nat, events: seq<Event>, count: nat, q: nat)
    requires Peek(t.src, p) == COMMA && SkipAt(t, p + 1, events) == Going(q, events) && Peek(t.src, q) != RIGHT_BRACKET
    ensures AfterElement(t, p, events, count) == Elements(t, q, events, count)
  {
    hide Emit, SkipAt, Elements;
  }

  lemma ElementsGoOn(t: Job, pos: nat, events: seq<Event>, count: nat, v: Parse, q: nat)
    requires Value(t, pos, events) == v && v.Going? && SkipAt(t, v.pos, v.events) == Going(q, v.events)
    ensures Elements(t, pos, events, count) == AfterElement(t, q, v.events, count + 1)
  {
    hide Peek, SkipAt, Value, AfterElement;
  }

  lemma {:induction false} ReadsElements(t: Job, pos: nat, events: seq<Event>, elements: seq<Element>, comma: bool, count: nat)
    requires AcceptsAll(t) && AreElements(t, elements) && elements != [] && (comma ==> t.trailingCommas)
    requires At(t.src, pos, ElementsText(t, elements, comma)) && Peek(t.src, pos + |ElementsText(t, elements, comma)|) == RIGHT_BRACKET
    ensures Elements(t, pos, events, count)
         == Going(pos + |ElementsText(t, elements, comma)| + 1, Onto(events, ElementsEvents(elements), EndArray(count + |elements|)))
    decreases |t.src| - pos, 2
  {
    hide *;
    Separators();
    ElementsParts(t, pos, elements, comma);
    var v := elements[0].value;
    var s, g, after := LaidText(t, v), GapText(elements[0].after), events + LaidEvents(v);
    var p, q := pos + |s|, pos + |s| + |g|;
    TailHead(t, q, elements, comma);
    AfterGap(t.src, p, elements[0].after, t.comments);
    HeadAt(t, pos, v);
    LaidHead(t, v);
    ReadsLaid(t, pos, events, v);
    SkipsAt(t, p, after, elements[0].after);
    ElementsGoOn(t, pos, events, count, Going(p, after), q);
    ReadsElementsTail(t, q, after, elements, comma, count);
    ElementsJoin(events, elements, EndArray(count + |elements|));
  }

  // ----- objects

  lemma LaidObjectParts(t: Job, v: Laid)
    requires IsLaid(t, v) && v.LaidObject?
    ensures AreEntries(t, v.members) && IsGap(v.space, t.comments) && (v.comma ==> t.trailingCommas && v.members != [])
    ensures LaidText(t, v) == [LEFT_BRACE] + (GapText(v.space) + (MembersText(t, v.members, v.comma) + [RIGHT_BRACE]))
    ensures forall events :: Onto(events + [StartObject], EntriesEvents(v.members), EndObject(|v.members|)) == events + LaidEvents(v)
  {
    hide EntriesText, GapText;
  }

  function MembersText(t: Job, members: seq<Entry>, comma: bool): seq<int>
    requires AreEntries(t, members)
  {
    if members == [] then [] else EntriesText(t, members, comma)
  }

  lemma {:induction false} ReadsObject(t: Job, pos: nat, events: seq<Event>, v: Laid)
    requires AcceptsAll(t) && IsLaid(t, v) && v.LaidObject? && At(t.src, pos, LaidText(t, v))
    ensures Value(t, pos, events) == Going(pos + |LaidText(t, v)|, events + LaidEvents(v))
    decreases |t.src| - pos, 0
  {
    hide *;
    Separators();
    LaidObjectParts(t, v);
    var space, content, begun := GapText(v.space), MembersText(t, v.members, v.comma), events + [StartObject];
    var p := pos + 1 + |space|;
    AtContainer(t.src, pos, LEFT_BRACE, space, content, RIGHT_BRACE);
    Emits(t, events, StartObject, pos + 1, pos + 1);
    MembersHead(t, p, v.members, v.comma);
    SkipsAt(t, pos + 1, begun, v.space);
    ObjectGoesOn(t, pos, events, begun, p);
    if v.members == [] {
      Emits(t, begun, EndObject(0), p + 1, p + 1);
      NoEntries(begun, v.members, EndObject(0));
    } else {
      SomeEntries(t, v.members, v.comma);
      ReadsEntries(t, p, begun, v.members, v.comma, 0);
    }
  }

  lemma MembersHead(t: Job, pos: nat, members: seq<Entry>, comma: bool)
    requires AreEntries(t, members) && At(t.src, pos, MembersText(t, members, comma))
    requires Peek(t.src, pos + |MembersText(t, members, comma)|) == RIGHT_BRACE
    ensures NotSkipped(Peek(t.src, pos)) && (Peek(t.src, pos) == RIGHT_BRACE <==> members == [])
    ensures members == [] ==> MembersText(t, members, comma) == []
  {
    hide NotSkipped;
    Separators();
    if members != [] {
      EntriesHead(t, pos, members, comma);
    }
  }

  lemma SomeEntries(t: Job, members: seq<Entry>, comma: bool)
    requires AreEntries(t, members) && members != []
    ensures MembersText(t, members, comma) == EntriesText(t, members, comma)
  {
  }

  lemma ObjectGoesOn(t: Job, pos: nat, events: seq<Event>, begun: seq<Event>, p: nat)
    requires pos < |t.src| && Peek(t.src, pos) == LEFT_BRACE && Emit(t, events, StartObject, pos + 1, pos + 1) == Going(pos + 1, begun)
    requires SkipAt(t, pos + 1, begun) == Going(p, begun)
    ensures Value(t, pos, events)
         == if Peek(t.src, p) == RIGHT_BRACE then Emit(t, begun, EndObject(0), p + 1, p + 1) else Members(t, p, begun, 0)
  {
    hide Emit, SkipAt, Members;
  }

  lemma NoEntries(events: seq<Event>, members: seq<Entry>, last: Event)
    requires members == []
    ensures Onto(events, EntriesEvents(members), last) == events + [last]
  {
  }

  lemma EntriesJoin(events: seq<Event>, members: seq<Entry>, last: Event)
    requires members != []
    ensures Onto((events + [Key(NameOf(members[0]))]) + LaidEvents(members[0].value), EntriesEvents(members[1..]), last)
         == Onto(events, EntriesEvents(members), last)
  {
    hide LaidEvents, NameOf;
    Regroup(events, [Key(NameOf(members[0]))], LaidEvents(members[0].value), EntriesEvents(members[1..]), [last]);
  }

  lemma EntriesParts(t: Job, pos: nat, members: seq<Entry>, comma: bool)
    requires AreEntries(t, members) && members != [] && At(t.src, pos, EntriesText(t, members, comma))
    ensures IsEntry(t, members[0]) && IsGap(members[0].after, t.comments) && IsGap(members[0].next, t.comments)
    ensures var s, g, r := EntryText(t, members[0]), GapText(members[0].after), EntriesTail(t, members, comma);
            && At(t.src, pos, s) && At(t.src, pos + |s|, g) && At(t.src, pos + |s| + |g|, r)
            && |EntriesText(t, members, comma)| == |s| + |g| + |r|
  {
    hide At, EntryText, GapText, EntriesTail, IsLaid;
    assert IsEntry(t, members[0]);
    var s, g, r := EntryText(t, members[0]), GapText(members[0].after), EntriesTail(t, members, comma);
    AtSplit(t.src, pos, s, g + r);
    AtSplit(t.src, pos + |s|, g, r);
  }

  /** A name, a colon and a value. */
  lemma AtFive(src: Text, pos: nat, n: seq<int>, b: seq<int>, c: seq<int>, s: seq<int>)
    requires At(src, pos, n + (b + ([COLON] + (c + s))))
    ensures At(src, pos, n) && At(src, pos + |n|, b) && Peek(src, pos + |n| + |b|) == COLON
    ensures At(src, pos + |n| + |b| + 1, c) && At(src, pos + |n| + |b| + 1 + |c|, s)
  {
    hide At;
    AtSplit(src, pos, n, b + ([COLON] + (c + s)));
    AtSplit(src, pos + |n|, b, [COLON] + (c + s));
    var p := pos + |n| + |b|;
    AtSplit(src, p, [COLON], c + s);
    AtSplit(src, p + 1, c, s);
    AtFirst(src, p, [COLON]);
  }

  lemma EntryParts(t: Job, pos: nat, m: Entry)
    requires IsEntry(t, m) && At(t.src, pos, EntryText(t, m))
    ensures ArePieces(m.name) && IsGap(m.before, t.comments) && IsGap(m.colon, t.comments) && IsLaid(t, m.value)
    ensures var n, b, c, s := StringText(m.name), GapText(m.before), GapText(m.colon), LaidText(t, m.value);
            var p := pos + |n| + |b|;
            && At(t.src, pos, n) && At(t.src, pos + |n|, b) && Peek(t.src, p) == COLON && At(t.src, p + 1, c)
            && At(t.src, p + 1 + |c|, s) && |EntryText(t, m)| == |n| + |b| + 1 + |c| + |s|
            && Peek(t.src, pos) == QUOTE
  {
    hide At, Peek, StringText, GapText, LaidText, IsLaid;
    AtFive(t.src, pos, StringText(m.name), GapText(m.before), GapText(m.colon), LaidText(t, m.value));
    ReadsStringText(t.src, pos, m.name);
  }

  lemma EntriesHead(t: Job, pos: nat, members: seq<Entry>, comma: bool)
    requires AreEntries(t, members) && members != [] && At(t.src, pos, EntriesText(t, members, comma))
    ensures NotSkipped(Peek(t.src, pos)) && Peek(t.src, pos) != RIGHT_BRACE
  {
    EntriesParts(t, pos, members, comma);
    EntryParts(t, pos, members[0]);
    hide EntriesText, EntryText, At;
  }

  lemma EntriesTailHead(t: Job, pos: nat, members: seq<Entry>, comma: bool)
    requires AreEntries(t, members) && members != [] && At(t.src, pos, EntriesTail(t, members, comma))
    requires Peek(t.src, pos + |EntriesTail(t, members, comma)|) == RIGHT_BRACE
    ensures Peek(t.src, pos) == if |members| == 1 && !comma then RIGHT_BRACE else COMMA
    ensures |members| == 1 && !comma ==> EntriesTail(t, members, comma) == []
    ensures |members| == 1 && comma ==>
              At(t.src, pos + 1, GapText(members[0].next)) && |EntriesTail(t, members, comma)| == 1 + |GapText(members[0].next)|
    ensures |members| > 1 ==>
              && AreEntries(t, members[1..]) && At(t.src, pos + 1, GapText(members[0].next))
              && At(t.src, pos + 1 + |GapText(members[0].next)|, EntriesText(t, members[1..], comma))
              && |EntriesTail(t, members, comma)| == 1 + |GapText(members[0].next)| + |EntriesText(t, members[1..], comma)|
  {
    hide At, GapText, EntriesText;
    var g := GapText(members[0].next);
    if |members| > 1 {
      var r := EntriesText(t, members[1..], comma);
      AtSplit(t.src, pos, [COMMA], g + r);
      AtSplit(t.src, pos + 1, g, r);
      AtFirst(t.src, pos, [COMMA]);
    } else if comma {
      AtSplit(t.src, pos, [COMMA], g);
      AtFirst(t.src, pos, [COMMA]);
    }
  }

  lemma {:induction false} ReadsEntriesTail(t: Job, p: nat, events: seq<Event>, members: seq<Entry>, comma: bool, count: nat)
    requires AcceptsAll(t) && AreEntries(t, members) && members != [] && (comma ==> t.trailingCommas)
    requires At(t.src, p, EntriesTail(t, members, comma)) && Peek(t.src, p + |EntriesTail(t, members, comma)|) == RIGHT_BRACE
    requires IsGap(members[0].next, t.comments)
    ensures AfterMember(t, p, events, count + 1)
         == Going(p + |EntriesTail(t, members, comma)| + 1, Onto(events, EntriesEvents(members[1..]), EndObject(count + |members|)))
    decreases |t.src| - p, 0
  {
    hide *;
    Separators();
    EntriesTailHead(t, p, members, comma);
    var rest, last := members[1..], EndObject(count + |members|);
    if |members| == 1 {
      NoEntries(events, rest, last);
      if comma {
        var q := p + 1 + |GapText(members[0].next)|;
        SkipsAt(t, p + 1, events, members[0].next);
        Emits(t, events, last, q, q + 1);
        CommaThenBrace(t, p, events, count + 1, q);
      } else {
        Emits(t, events, last, p + 1, p + 1);
        BraceAtOnce(t, p, events, count + 1);
      }
    } else {
      var q := p + 1 + |GapText(members[0].next)|;
      EntriesHead(t, q, rest, comma);
      SkipsAt(t, p + 1, events, members[0].next);
      CommaThenMembers(t, p, events, count + 1, q);
      ReadsEntries(t, q, events, rest, comma, count + 1);
    }
  }

  lemma BraceAtOnce(t: Job, p: nat, events: seq<Event>, count: nat)
    requires Peek(t.src, p) == RIGHT_BRACE
    ensures AfterMember(t, p, events, count) == Emit(t, events, EndObject(count), p + 1, p + 1)
  {
    hide Emit;
  }

  lemma CommaThenBrace(t: Job, p: nat, events: seq<Event>, count: nat, q: nat)
    requires Peek(t.src, p) == COMMA && SkipAt(t, p + 1, events) == Going(q, events) && Peek(t.src, q) == RIGHT_BRACE && t.trailingCommas
    ensures AfterMember(t, p, events, count) == Emit(t, events, EndObject(count), q, q + 1)
  {
    hide Emit, SkipAt;
  }

  lemma CommaThenMembers(t: Job, p: nat, events: seq<Event>, count: nat, q: nat)
    requires Peek(t.src, p) == COMMA && SkipAt(t, p + 1, events) == Going(q, events) && Peek(t.src, q) != RIGHT_BRACE
    ensures AfterMember(t, p, events, count) == Members(t, q, events, count)
  {
    hide Emit, SkipAt, Members;
  }

  lemma MembersGoOn(t: Job, pos: nat, events: seq<Event>, count: nat, r: Parse, p: nat, b: nat, v: Parse, q: nat)
    requires Peek(t.src, pos) == QUOTE && QuotedString(t, pos, events, true) == r && r.Going?
    requires SkipAt(t, r.pos, r.events) == Going(p, r.events) && Peek(t.src, p) == COLON
    requires SkipAt(t, p + 1, r.events) == Going(b, r.events)
    requires Value(t, b, r.events) == v && v.Going? && SkipAt(t, v.pos, v.events) == Going(q, v.events)
    ensures Members(t, pos, events, count) == AfterMember(t, q, v.events, count + 1)
  {
    hide Peek, QuotedString, SkipAt, Value, AfterMember;
  }

  /** One member, and the gap after it. */
  lemma {:induction false} ReadsEntry(t: Job, pos: nat, events: seq<Event>, m: Entry, count: nat)
    requires AcceptsAll(t) && IsEntry(t, m) && At(t.src, pos, EntryText(t, m))
    requires IsGap(m.after, t.comments) && At(t.src, pos + |EntryText(t, m)|, GapText(m.after))
    requires var c := Peek(t.src, pos + |EntryText(t, m)| + |GapText(m.after)|); EndsNumber(c) && NotSkipped(c)
    ensures Members(t, pos, events, count)
         == AfterMember(t, pos + |EntryText(t, m)| + |GapText(m.after)|, (events + [Key(NameOf(m))]) + LaidEvents(m.value), count + 1)
    decreases |t.src| - pos, 2
  {
    hide *;
    Separators();
    EntryParts(t, pos, m);
    NameIs(m);
    var p := pos + |StringText(m.name)|;
    var c := p + |GapText(m.before)|;
    var b := c + 1 + |GapText(m.colon)|;
    var e, named := b + |LaidText(t, m.value)|, events + [Key(NameOf(m))];
    ReadsString(t, pos, events, m.name, true);
    SkipsAt(t, p, named, m.before);
    HeadAt(t, b, m.value);
    SkipsAt(t, c + 1, named, m.colon);
    AfterGap(t.src, e, m.after, t.comments);
    ReadsLaid(t, b, named, m.value);
    var after := named + LaidEvents(m.value);
    SkipsAt(t, e, after, m.after);
    MembersGoOn(t, pos, events, count, Going(p, named), c, b, Going(e, after), e + |GapText(m.after)|);
  }

  lemma NameIs(m: Entry)
    requires ArePieces(m.name)
    ensures NameOf(m) == Spelled(m.name)
  {
  }

  lemma {:induction false} ReadsEntries(t: Job, pos: nat, events: seq<Event>, members: seq<Entry>, comma: bool, count: nat)
    requires AcceptsAll(t) && AreEntries(t, members) && members != [] && (comma ==> t.trailingCommas)
    requires At(t.src, pos, EntriesText(t, members, comma)) && Peek(t.src, pos + |EntriesText(t, members, comma)|) == RIGHT_BRACE
    ensures Members(t, pos, events, count)
         == Going(pos + |EntriesText(t, members, comma)| + 1, Onto(events, EntriesEvents(members), EndObject(count + |members|)))
    decreases |t.src| - pos, 3
  {
    hide *;
    Separators();
    EntriesParts(t, pos, members, comma);
    var m := members[0];
    var q := pos + |EntryText(t, m)| + |GapText(m.after)|;
    EntriesTailHead(t, q, members, comma);
    EntryParts(t, pos, m);
    ReadsEntry(t, pos, events, m, count);
    ReadsEntriesTail(t, q, (events + [Key(NameOf(m))]) + LaidEvents(m.value), members, comma, count);
    EntriesJoin(events, members, EndObject(count + |members|));
  }

  // ----- documents

  /** A whole text: a value, what may stand before and after it, at the end maybe a comment that only the end of the text
      ends, and what is not read. */
  datatype Layout = Layout(before: Gap, value: Laid, after: Gap, tail: seq<int>, rest: seq<int>)

  predicate IsLayout(t: Job, d: Layout) {
    IsGap(d.before, t.comments) && IsLaid(t, d.value) && IsGap(d.after, t.comments) && IsLastComment(d.tail, t.comments)
  }

  function LayoutText(t: Job, d: Layout): (s: seq<int>)
    requires IsLayout(t, d)
    ensures |d.rest| <= |s|
  {
    GapText(d.before) + (LaidText(t, d.value) + (GapText(d.after) + (d.tail + d.rest)))
  }

  /** Where reading stops: after the value, if the parse is to stop there, or else at the end, which is the first zero
      byte if there is one. */
  predicate StopsBefore(t: Job, d: Layout, rest: seq<int>) {
    if t.stopWhenDone then d.after == [] && d.tail == [] && (rest == [] || EndsNumber(rest[0])) else rest == [] || rest[0] == 0
  }

  /** A value in any layout, with anything that may stand between tokens before and after it, is read as its events,
      and to the end of the text; or, when the parse is to stop there, whatever follows it. */
  lemma ReadsDocument(t: Job, d: Layout)
    requires AcceptsAll(t) && IsLayout(t, d) && t.src == LayoutText(t, d) && StopsBefore(t, d, d.rest)
    ensures Document(t) == Going(|t.src| - |d.rest|, LaidEvents(d.value)) && IterativeDocument(t) == Document(t)
  {
    hide *;
    LayoutParts(t, d);
    var p := |GapText(d.before)|;
    var q := p + |LaidText(t, d.value)|;
    var end := q + |GapText(d.after)| + |d.tail|;
    Separators();
    HeadAt(t, p, d.value);
    SkipsAt(t, 0, [], d.before);
    RestFollows(t, q, d);
    ReadsLaid(t, p, [], d.value);
    NothingBefore(LaidEvents(d.value));
    if !t.stopWhenDone {
      SkipsToEnd(t.src, t.comments, q, d.after, d.tail);
      SkipIs(t, q, LaidEvents(d.value), end);
    }
    DocumentGoesOn(t, p, Going(q, LaidEvents(d.value)), end);
    IterativeRefinesRecursive(t);
  }

  lemma SkipIs(t: Job, pos: nat, events: seq<Event>, next: nat)
    requires Skip(t.src, t.comments, pos) == Read((), next)
    ensures SkipAt(t, pos, events) == Going(next, events)
  {
  }

  lemma NothingBefore(events: seq<Event>)
    ensures [] + events == events
  {
  }

  lemma LayoutParts(t: Job, d: Layout)
    requires IsLayout(t, d) && t.src == LayoutText(t, d)
    ensures IsGap(d.before, t.comments) && IsLaid(t, d.value) && IsGap(d.after, t.comments) && IsLastComment(d.tail, t.comments)
    ensures var b, v, a := |GapText(d.before)|, |LaidText(t, d.value)|, |GapText(d.after)|;
            && At(t.src, 0, GapText(d.before)) && At(t.src, b, LaidText(t, d.value)) && At(t.src, b + v, GapText(d.after))
            && At(t.src, b + v + a, d.tail) && At(t.src, b + v + a + |d.tail|, d.rest)
            && b + v + a + |d.tail| + |d.rest| == |t.src|
  {
    hide At, GapText, LaidText;
    var b, v, a := GapText(d.before), LaidText(t, d.value), GapText(d.after);
    AtWhole(t.src);
    AtSplit(t.src, 0, b, v + (a + (d.tail + d.rest)));
    AtSplit(t.src, |b|, v, a + (d.tail + d.rest));
    AtSplit(t.src, |b| + |v|, a, d.tail + d.rest);
    AtSplit(t.src, |b| + |v| + |a|, d.tail, d.rest);
  }

  /** Nothing after the value is taken for a part of a number; and at the end, nothing is left to read. */
  lemma RestFollows(t: Job, q: nat, d: Layout)
    requires IsLayout(t, d) && StopsBefore(t, d, d.rest)
    requires var a := |GapText(d.after)|;
             && At(t.src, q, GapText(d.after)) && At(t.src, q + a, d.tail) && At(t.src, q + a + |d.tail|, d.rest)
             && q + a + |d.tail| + |d.rest| == |t.src|
    ensures EndsNumber(Peek(t.src, q))
    ensures if t.stopWhenDone then q == |t.src| - |d.rest| else Peek(t.src, q + |GapText(d.after)| + |d.tail|) == 0
  {
    hide IsLaid, IsGap, At, GapText, Peek, EndsNumber;
    NoText();
    Separators();
    var a := q + |GapText(d.after)|;
    PeekRest(t.src, a + |d.tail|, d.rest);
    if d.tail != [] {
      CommentHead(d.tail, t.comments);
      PeekFirst(t.src, a, d.tail);
    }
    AfterGap(t.src, q, d.after, t.comments);
  }

  lemma PeekFirst(src: Text, pos: nat, s: seq<int>)
    requires At(src, pos, s) && s != []
    ensures Peek(src, pos) == s[0]
  {
    AtFirst(src, pos, s);
  }

  lemma PeekRest(src: Text, pos: nat, rest: seq<int>)
    requires At(src, pos, rest) && pos + |rest| == |src|
    ensures Peek(src, pos) == if rest == [] then 0 else rest[0]
  {
    if rest != [] {
      PeekFirst(src, pos, rest);
    }
  }

  lemma CommentHead(tail: seq<int>, comments: bool)
    requires IsLastComment(tail, comments) && tail != []
    ensures EndsNumber(tail[0])
  {
    assert tail[0] == Codes("//")[0];
  }

  lemma DocumentGoesOn(t: Job, p: nat, v: Parse, end: nat)
    requires SkipAt(t, 0, []) == Going(p, []) && Peek(t.src, p) != 0 && Value(t, p, []) == v && v.Going?
    requires !t.stopWhenDone ==> SkipAt(t, v.pos, v.events) == Going(end, v.events) && Peek(t.src, end) == 0
    ensures Document(t) == if t.stopWhenDone then v else Going(end, v.events)
  {
    hide SkipAt, Value;
  }

  // ----- as printed

  /** The spelling the writer chooses for a byte. */
  function PieceOf(c: int): Piece {
    if EscapeLetter(c) == 0 then Plain(c)
    else if EscapeLetter(c) == LOWER_U then Unicode(c, [true, true, true, true, true, true, true, true])
    else Letter(EscapeLetter(c))
  }

  function PiecesOf(s: seq<int>): seq<Piece> {
    if s == [] then [] else [PieceOf(s[0])] + PiecesOf(s[1..])
  }

  lemma HexDigitsWrittenOut(d: nat)
    requires d < 16
    ensures HexDigitOf(d) == HexChar(d, true)
  {
    var c := HexChar(d, true);
    assert c == if d < 10 then '0' as int + d else 'A' as int + (d - 10);
  }

  lemma PieceOfIsOne(c: int)
    requires IsByte(c)
    ensures IsPiece(PieceOf(c)) && PieceText(PieceOf(c)) == EscapedByte(c) && PieceBytes(PieceOf(c)) == [c]
  {
    hide HexChar, HexDigitOf;
    assert Codes("\"\\/bfnrt") == ['"' as int, '\\' as int, '/' as int, 'b' as int, 'f' as int, 'n' as int, 'r' as int, 't' as int];
    if EscapeLetter(c) == LOWER_U {
      assert c < 0x20;
      HexDigitsWrittenOut(0);
      HexDigitsWrittenOut(c / 16);
      HexDigitsWrittenOut(c % 16);
      ZeroDigit();
      assert Codes("\\u") == ['\\' as int, 'u' as int];
    }
  }

  lemma ZeroDigit()
    ensures HexDigitOf(0) == DIGIT_0
  {
  }

  lemma {:induction false} PiecesOfBytes(s: seq<int>)
    requires AreBytes(s)
    ensures ArePieces(PiecesOf(s)) && Spelling(PiecesOf(s)) == Escaped(s) && Spelled(PiecesOf(s)) == s
    decreases |s|
  {
    if s != [] {
      assert IsByte(s[0]);
      PieceOfIsOne(s[0]);
      PiecesOfBytes(s[1..]);
      hide IsPiece, PieceText, PieceBytes, PieceOf, EscapedByte;
      var p := PiecesOf(s);
      assert p[0] == PieceOf(s[0]) && p[1..] == PiecesOf(s[1..]);
      assert [s[0]] + s[1..] == s;
    }
  }

  /** Any byte string, quoted and escaped, is read back. */
  lemma ReadsQuoted(src: Text, pos: nat, s: seq<int>)
    requires AreBytes(s) && At(src, pos, Quoted(s))
    ensures Peek(src, pos) == QUOTE && String(src, pos) == Read(s, pos + |Quoted(s)|)
  {
    PiecesOfBytes(s);
    ReadsStringText(src, pos, PiecesOf(s));
    hide At, String, Escaped, Spelling, Spelled;
  }

  function NumeralOf(i: int): Numeral {
    Numeral(i < 0, if i < 0 then -i else i, [], NoExponent)
  }

  /** An integer in the range of 64 bits is read back, under the name its sign and size give it. */
  lemma ReadsInteger(src: Text, pos: nat, i: int, tooBig: seq<int> -> bool)
    requires At(src, pos, Signed(i)) && EndsNumber(Peek(src, pos + |Signed(i)|))
    requires -INT64_MIN_MAGNITUDE <= i <= UINT64_MAX
    ensures NumberAt(src, pos, tooBig) == Read(ReadAs(i), pos + |Signed(i)|)
  {
    hide At, Decimal, NumberAt;
    NumeralOfInteger(i);
    ReadsNumeral(src, pos, NumeralOf(i), tooBig);
  }

  lemma NumeralOfInteger(i: int)
    requires -INT64_MIN_MAGNITUDE <= i <= UINT64_MAX
    ensures var m := NumeralOf(i);
            IsNumeral(m) && IsInteger(m) && NumeralText(m) == Signed(i) && NumeralValue(m) == ReadAs(i)
  {
    hide Decimal;
    var m := NumeralOf(i);
    assert Decimal(m.n) + (FractionText(m.fraction) + ExponentText(m.exponent)) == Decimal(m.n);
    assert [] + Decimal(m.n) == Decimal(m.n);
  }

  /** A value without anything between its tokens. */
  function Compact(v: Tree): Laid {
    match v
    case NullValue => LaidNull
    case BoolValue(b) => LaidBool(b)
    case Integer(i) => LaidNumber(NumeralOf(i))
    case Float(_) => LaidNull
    case StringValue(s) => LaidString(PiecesOf(s))
    case ArrayValue(elements) => LaidArray([], CompactElements(elements), false)
    case ObjectValue(members) => LaidObject([], CompactMembers(members), false)
  }

  function CompactElements(elements: seq<Tree>): (r: seq<Element>)
    ensures |r| == |elements|
  {
    if elements == [] then [] else [Element(Compact(elements[0]), [], [])] + CompactElements(elements[1..])
  }

  function CompactMembers(members: seq<Member>): (r: seq<Entry>)
    ensures |r| == |members|
  {
    if members == [] then []
    else [Entry(PiecesOf(members[0].name), [], [], Compact(members[0].value), [], [])] + CompactMembers(members[1..])
  }

  predicate AllExact(elements: seq<Tree>) {
    forall i | 0 <= i < |elements| :: IsExact(elements[i])
  }

  predicate MembersExact(members: seq<Member>) {
    forall i | 0 <= i < |members| :: AreBytes(members[i].name) && IsExact(members[i].value)
  }

  /** The printed text of a value is one of its layouts. */
  lemma {:induction false} PrintIsCompact(t: Job, v: Tree)
    requires IsExact(v)
    ensures IsLaid(t, Compact(v)) && LaidText(t, Compact(v)) == Print(v) && LaidEvents(Compact(v)) == Events(v, true)
    decreases v, 1
  {
    match v {
      case NullValue =>
        WordsWrittenOut();
      case BoolValue(b) =>
        WordsWrittenOut();
      case Integer(i) =>
        NumeralOfInteger(i);
        hide IsNumeral, IsInteger, NumeralText, NumeralValue, NumeralOf, Signed, ReadAs;
      case StringValue(s) =>
        PiecesOfBytes(s);
        hide Escaped, Spelling, Spelled, ArePieces, PiecesOf;
      case ArrayValue(elements) =>
        PrintElementsCompact(t, elements);
        hide *;
        CompactArray(t, elements);
      case ObjectValue(members) =>
        PrintMembersCompact(t, members);
        hide *;
        CompactObject(t, members);
    }
  }

  lemma CompactArray(t: Job, elements: seq<Tree>)
    requires AreElements(t, CompactElements(elements)) && ElementsEvents(CompactElements(elements)) == ElementEvents(elements, true)
    requires elements != [] ==> ElementsText(t, CompactElements(elements), false) == PrintElements(elements)
    requires elements == [] ==> CompactElements(elements) == [] && PrintElements(elements) == []
    ensures var v := ArrayValue(elements);
            IsLaid(t, Compact(v)) && LaidText(t, Compact(v)) == Print(v) && LaidEvents(Compact(v)) == Events(v, true)
  {
    hide PrintElements, ElementsText, CompactElements, ElementEvents, ElementsEvents, IsElement;
    NoText();
    NoGap(PrintElements(elements) + [RIGHT_BRACKET]);
  }

  lemma CompactObject(t: Job, members: seq<Member>)
    requires AreEntries(t, CompactMembers(members)) && EntriesEvents(CompactMembers(members)) == MemberEvents(members, true)
    requires members != [] ==> EntriesText(t, CompactMembers(members), false) == PrintMembers(members)
    requires members == [] ==> CompactMembers(members) == [] && PrintMembers(members) == []
    ensures var v := ObjectValue(members);
            IsLaid(t, Compact(v)) && LaidText(t, Compact(v)) == Print(v) && LaidEvents(Compact(v)) == Events(v, true)
  {
    hide PrintMembers, EntriesText, CompactMembers, MemberEvents, EntriesEvents, IsEntry;
    NoText();
    NoGap(PrintMembers(members) + [RIGHT_BRACE]);
  }

  lemma NoGap(s: seq<int>)
    ensures [] + s == s && s + [] == s
  {
  }

  lemma {:induction false} PrintElementsCompact(t: Job, elements: seq<Tree>)
    requires AllExact(elements)
    ensures AreElements(t, CompactElements(elements)) && ElementsEvents(CompactElements(elements)) == ElementEvents(elements, true)
    ensures elements != [] ==> ElementsText(t, CompactElements(elements), false) == PrintElements(elements)
    ensures elements == [] ==> CompactElements(elements) == [] && PrintElements(elements) == []
    decreases elements, 0
  {
    if elements != [] {
      assert IsExact(elements[0]);
      PrintIsCompact(t, elements[0]);
      PrintElementsCompact(t, elements[1..]);
      hide Print, LaidText, Events, LaidEvents, IsLaid, IsExact, Compact;
      var es := CompactElements(elements);
      var first := es[0];
      assert es[1..] == CompactElements(elements[1..]);
      assert IsElement(t, first) && GapText([]) == [];
      assert AreElements(t, es) by {
        forall i | 0 <= i < |es|
          ensures IsElement(t, es[i])
        {
          assert i > 0 ==> es[i] == es[1..][i - 1];
        }
      }
      NoGap(Print(elements[0]));
      NoGap(ElementsTail(t, es, false));
      if |elements| > 1 {
        NoGap(ElementsText(t, es[1..], false));
      }
    }
  }

  lemma {:induction false} PrintMembersCompact(t: Job, members: seq<Member>)
    requires MembersExact(members)
    ensures AreEntries(t, CompactMembers(members)) && EntriesEvents(CompactMembers(members)) == MemberEvents(members, true)
    ensures members != [] ==> EntriesText(t, CompactMembers(members), false) == PrintMembers(members)
    ensures members == [] ==> CompactMembers(members) == [] && PrintMembers(members) == []
    decreases members, 0
  {
    if members != [] {
      var m := members[0];
      assert AreBytes(m.name) && IsExact(m.value);
      PrintIsCompact(t, m.value);
      PiecesOfBytes(m.name);
      PrintMembersCompact(t, members[1..]);
      hide Print, LaidText, Events, LaidEvents, IsLaid, IsExact, Compact, Spelling, Spelled, PiecesOf, Escaped, ArePieces;
      var es := CompactMembers(members);
      assert es[1..] == CompactMembers(members[1..]);
      assert IsEntry(t, es[0]) && GapText([]) == [];
      assert AreEntries(t, es) by {
        forall i | 0 <= i < |es|
          ensures IsEntry(t, es[i])
        {
          assert i > 0 ==> es[i] == es[1..][i - 1];
        }
      }
      NoGap(Print(m.value));
      NoGap([COLON] + Print(m.value));
      NoGap(EntriesTail(t, es, false));
      NoGap(PrintMember(m));
      if |members| > 1 {
        NoGap(EntriesText(t, es[1..], false));
      }
    }
  }

  /** The text of a value, alone in its document, is read as the events of the value; both parsers do so. */
  lemma ReadsPrinted(t: Job, v: Tree)
    requires AcceptsAll(t) && IsExact(v) && t.src == Print(v)
    ensures Document(t) == Going(|t.src|, Events(v, true)) && IterativeDocument(t) == Document(t)
  {
    hide *;
    PrintIsCompact(t, v);
    NoGap(Print(v));
    NoText();
    var d := Layout([], Compact(v), [], [], []);
    OnlyTheValue(t, d);
    ReadsDocument(t, d);
  }

  lemma NoText()
    ensures GapText([]) == [] && [] + [] == GapText([]) && forall comments :: IsGap([], comments)
  {
  }

  lemma OnlyTheValue(t: Job, d: Layout)
    requires d == Layout([], d.value, [], [], []) && IsLaid(t, d.value)
    ensures IsLayout(t, d) && LayoutText(t, d) == LaidText(t, d.value) && StopsBefore(t, d, d.rest)
  {
    hide LaidText, IsLaid;
    NoText();
    NoGap(LaidText(t, d.value));
  }
}
