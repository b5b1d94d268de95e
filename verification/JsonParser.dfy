/** Recursive descent over a JSON text, as a function: the events a handler sees, and how the parse ends. */
module JsonParser {
  import opened Ascii
  import opened JsonLexer
  import opened Texts

  datatype Event =
    | Null
    | Bool(b: bool)
    | Num(n: Number)
    | Str(s: seq<int>)
    | Key(s: seq<int>)
    | StartObject
    | EndObject(members: nat)
    | StartArray
    | EndArray(elements: nat)

  /** A text, the parse flags, the handler and the conversion of numerals.  After every event the handler is asked
      whether to go on; `accepts` is its answer, for the events so far. */
  datatype Job = Job(
    src: Text,
    comments: bool,
    trailingCommas: bool,
    stopWhenDone: bool,
    accepts: seq<Event> -> bool,
    tooBig: seq<int> -> bool)

  /** A parse under way, and all the events so far; or its error. */
  datatype Parse = Going(pos: nat, events: seq<Event>) | Failed(code: ErrorCode, offset: nat, events: seq<Event>)

  // ----- what both parsers share

  /** Hands over an event, and goes on at `next`; `offset` is blamed when the handler refuses. */
  function Emit(t: Job, events: seq<Event>, e: Event, offset: nat, next: nat): (r: Parse)
    ensures r.Going? ==> r.pos == next
  {
    var all := events + [e];
    if t.accepts(all) then Going(next, all) else Failed(Termination, offset, all)
  }

  function SkipAt(t: Job, pos: nat, events: seq<Event>): (r: Parse)
    ensures r.Going? ==> pos <= r.pos
    ensures r.events == events && (r.Failed? ==> r.code == UnspecificSyntaxError)
  {
    match Skip(t.src, t.comments, pos)
    case Bad(code, offset) => Failed(code, offset, events)
    case Read(_, p) => Going(p, events)
  }

  function ThenSkip(t: Job, r: Parse): (r': Parse)
    ensures r'.Going? ==> r.Going? && r.pos <= r'.pos
    ensures r'.events == r.events
  {
    if r.Failed? then r else SkipAt(t, r.pos, r.events)
  }

  const NULL_REST: seq<int> := [LOWER_U, LOWER_L, LOWER_L]
  const TRUE_REST: seq<int> := [LOWER_R, LOWER_U, LOWER_E]
  const FALSE_REST: seq<int> := [LOWER_A, LOWER_L, LOWER_S, LOWER_E]

  function Literal(t: Job, pos: nat, events: seq<Event>, rest: seq<int>, e: Event): (r: Parse)
    ensures r.Going? ==> pos < r.pos
  {
    var (matched, p) := MatchWord(t.src, pos + 1, rest);
    if matched then Emit(t, events, e, p, p) else Failed(ValueInvalid, p, events)
  }

  function QuotedString(t: Job, pos: nat, events: seq<Event>, isKey: bool): (r: Parse)
    ensures r.Going? ==> pos < r.pos
  {
    match String(t.src, pos)
    case Bad(code, offset) => Failed(code, offset, events)
    case Read(s, next) => Emit(t, events, if isKey then Key(s) else Str(s), next, next)
  }

  function Numeral(t: Job, pos: nat, events: seq<Event>): (r: Parse)
    ensures r.Going? ==> pos < r.pos
  {
    match NumberAt(t.src, pos, t.tooBig)
    case Bad(code, offset) => Failed(code, offset, events)
    case Read(n, next) => Emit(t, events, Num(n), pos, next)
  }

  /** A value that holds no others: whatever is neither an object nor an array, and no literal or string, should
      be a number. */
  function Scalar(t: Job, pos: nat, events: seq<Event>): (r: Parse)
    ensures r.Going? ==> pos < r.pos
  {
    var c := Peek(t.src, pos);
    if c == LOWER_N then Literal(t, pos, events, NULL_REST, Null)
    else if c == LOWER_T then Literal(t, pos, events, TRUE_REST, Bool(true))
    else if c == LOWER_F then Literal(t, pos, events, FALSE_REST, Bool(false))
    else if c == QUOTE then QuotedString(t, pos, events, false)
    else Numeral(t, pos, events)
  }

  // ----- recursive descent

  function Value(t: Job, pos: nat, events: seq<Event>): (r: Parse)
    ensures r.Going? ==> pos < r.pos
    decreases |t.src| - pos, 2
  {
    var c := Peek(t.src, pos);
    if c == LEFT_BRACE then Object(t, pos, events)
    else if c == LEFT_BRACKET then Array(t, pos, events)
    else Scalar(t, pos, events)
  }

  function Object(t: Job, pos: nat, events: seq<Event>): (r: Parse)
    requires pos < |t.src|
    ensures r.Going? ==> pos < r.pos
    decreases |t.src| - pos, 1
  {
    var r := ThenSkip(t, Emit(t, events, StartObject, pos + 1, pos + 1));
    if r.Failed? then r
    else if Peek(t.src, r.pos) == RIGHT_BRACE then Emit(t, r.events, EndObject(0), r.pos + 1, r.pos + 1)
    else Members(t, r.pos, r.events, 0)
  }

  /** A member from its name on, and those that follow; `count` come before. */
  function Members(t: Job, pos: nat, events: seq<Event>, count: nat): (r: Parse)
    ensures r.Going? ==> pos < r.pos
    decreases |t.src| - pos, 0
  {
    if Peek(t.src, pos) != QUOTE then Failed(ObjectMissName, pos, events)
    else
      var r := ThenSkip(t, QuotedString(t, pos, events, true));
      if r.Failed? then r
      else if Peek(t.src, r.pos) != COLON then Failed(ObjectMissColon, r.pos, r.events)
      else
        var s := SkipAt(t, r.pos + 1, r.events);
        if s.Failed? then s
        else
          var v := ThenSkip(t, Value(t, s.pos, s.events));
          if v.Failed? then v else AfterMember(t, v.pos, v.events, count + 1)
  }

  /** After `count` members: a comma and more of them, or the end. */
  function AfterMember(t: Job, pos: nat, events: seq<Event>, count: nat): (r: Parse)
    ensures r.Going? ==> pos < r.pos
    decreases |t.src| - pos, 1
  {
    if Peek(t.src, pos) == COMMA then
      var r := SkipAt(t, pos + 1, events);
      if r.Failed? then r
      else if t.trailingCommas && Peek(t.src, r.pos) == RIGHT_BRACE then Emit(t, events, EndObject(count), r.pos, r.pos + 1)
      else Members(t, r.pos, events, count)
    else if Peek(t.src, pos) == RIGHT_BRACE then Emit(t, events, EndObject(count), pos + 1, pos + 1)
    else Failed(ObjectMissCommaOrCurlyBracket, pos, events)
  }

  function Array(t: Job, pos: nat, events: seq<Event>): (r: Parse)
    requires pos < |t.src|
    ensures r.Going? ==> pos < r.pos
    decreases |t.src| - pos, 1
  {
    var r := ThenSkip(t, Emit(t, events, StartArray, pos + 1, pos + 1));
    if r.Failed? then r
    else if Peek(t.src, r.pos) == RIGHT_BRACKET then Emit(t, r.events, EndArray(0), r.pos + 1, r.pos + 1)
    else Elements(t, r.pos, r.events, 0)
  }

  /** An element and those that follow; `count` come before. */
  function Elements(t: Job, pos: nat, events: seq<Event>, count: nat): (r: Parse)
    ensures r.Going? ==> pos < r.pos
    decreases |t.src| - pos, 3
  {
    var v := ThenSkip(t, Value(t, pos, events));
    if v.Failed? then v else AfterElement(t, v.pos, v.events, count + 1)
  }

  /** After `count` elements: a comma and more of them, or the end. */
  function AfterElement(t: Job, pos: nat, events: seq<Event>, count: nat): (r: Parse)
    ensures r.Going? ==> pos < r.pos
    decreases |t.src| - pos, 4
  {
    if Peek(t.src, pos) == COMMA then
      var r := SkipAt(t, pos + 1, events);
      if r.Failed? then r
      else if t.trailingCommas && Peek(t.src, r.pos) == RIGHT_BRACKET then Emit(t, events, EndArray(count), r.pos, r.pos + 1)
      else Elements(t, r.pos, events, count)
    else if Peek(t.src, pos) == RIGHT_BRACKET then Emit(t, events, EndArray(count), pos + 1, pos + 1)
    else Failed(ArrayMissCommaOrSquareBracket, pos, events)
  }

  /** After the root: nothing but space, unless the parse is to stop there. */
  function AfterRoot(t: Job, r: Parse): Parse {
    if r.Failed? || t.stopWhenDone then r
    else
      var s := ThenSkip(t, r);
      if s.Going? && Peek(t.src, s.pos) != 0 then Failed(DocumentRootNotSingular, s.pos, s.events) else s
  }

  /** `Parse` */
  function Document(t: Job): Parse {
    var r := SkipAt(t, 0, []);
    if r.Failed? then r
    else if Peek(t.src, r.pos) == 0 then Failed(DocumentEmpty, r.pos, r.events)
    else AfterRoot(t, Value(t, r.pos, r.events))
  }
}
