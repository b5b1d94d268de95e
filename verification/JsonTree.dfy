/** JSON values as trees: the events they are handed on as, and their compact text. */
module JsonTree {
  import opened Ascii
  import opened JsonLexer
  import opened JsonParser
  import opened Streams
  import opened Texts

  datatype Member = Member(name: seq<int>, value: Tree)

  /** A document object model value.  A floating-point number is known by its numeral. */
  datatype Tree =
    | NullValue
    | BoolValue(b: bool)
    | Integer(i: int)
    | Float(numeral: seq<int>)
    | StringValue(s: seq<int>)
    | ArrayValue(elements: seq<Tree>)
    | ObjectValue(members: seq<Member>)

  /** Integers that fit in 64 bits, signed or unsigned; byte strings; no floating-point numbers. */
  predicate IsExact(v: Tree) {
    match v
    case NullValue => true
    case BoolValue(_) => true
    case Integer(i) => -INT64_MIN_MAGNITUDE <= i <= UINT64_MAX
    case Float(_) => false
    case StringValue(s) => AreBytes(s)
    case ArrayValue(elements) => forall i | 0 <= i < |elements| :: IsExact(elements[i])
    case ObjectValue(members) => forall i | 0 <= i < |members| :: AreBytes(members[i].name) && IsExact(members[i].value)
  }

  // ----- events

  /** What `Accept` calls an integer: the first of `int`, `unsigned`, `int64_t` and `uint64_t` it fits. */
  function AcceptedAs(i: int): Number {
    if -INT32_MIN_MAGNITUDE <= i < INT32_MIN_MAGNITUDE then Int(i)
    else if 0 <= i <= UINT32_MAX then Uint(i)
    else if i < INT64_MIN_MAGNITUDE then Int64(i)
    else Uint64(i)
  }

  /** What the reader calls it: unsigned unless it has a minus sign. */
  function ReadAs(i: int): Number {
    if i < 0 then if -INT32_MIN_MAGNITUDE <= i then Int(i) else Int64(i)
    else if i <= UINT32_MAX then Uint(i)
    else Uint64(i)
  }

  /** The events of a value, with its integers called as `Accept` or as the reader calls them. */
  function Events(v: Tree, read: bool): seq<Event> {
    match v
    case NullValue => [Null]
    case BoolValue(b) => [Bool(b)]
    case Integer(i) => [Num(if read then ReadAs(i) else AcceptedAs(i))]
    case Float(numeral) => [Num(Double(numeral))]
    case StringValue(s) => [Str(s)]
    case ArrayValue(elements) => [StartArray] + (ElementEvents(elements, read) + [EndArray(|elements|)])
    case ObjectValue(members) => [StartObject] + (MemberEvents(members, read) + [EndObject(|members|)])
  }

  function ElementEvents(elements: seq<Tree>, read: bool): seq<Event> {
    if elements == [] then [] else Events(elements[0], read) + ElementEvents(elements[1..], read)
  }

  function MemberEvents(members: seq<Member>, read: bool): seq<Event> {
    if members == [] then []
    else [Key(members[0].name)] + (Events(members[0].value, read) + MemberEvents(members[1..], read))
  }

  // ----- text

  function HexDigitOf(d: nat): int
    requires d < 16
  {
    if d < 10 then DIGIT_0 + d else UPPER_A + (d - 10)
  }

  /** The letter after the backslash, where a byte is escaped; zero where it is not. */
  function EscapeLetter(c: int): int {
    if c == QUOTE then QUOTE
    else if c == BACKSLASH then BACKSLASH
    else if c == BACKSPACE then LOWER_B
    else if c == TAB then LOWER_T
    else if c == LINE_FEED then LOWER_N
    else if c == FORM_FEED then LOWER_F
    else if c == CARRIAGE_RETURN then LOWER_R
    else if 0 <= c < SPACE then LOWER_U
    else 0
  }

  function EscapedByte(c: int): (r: seq<int>)
    ensures 1 <= |r| <= 6
  {
    if EscapeLetter(c) == 0 then [c]
    else if EscapeLetter(c) != LOWER_U then [BACKSLASH, EscapeLetter(c)]
    else [BACKSLASH, LOWER_U, DIGIT_0, DIGIT_0, HexDigitOf(c / 16), HexDigitOf(c % 16)]
  }

  function Escaped(s: seq<int>): seq<int> {
    if s == [] then [] else EscapedByte(s[0]) + Escaped(s[1..])
  }

  function Quoted(s: seq<int>): seq<int> {
    [QUOTE] + (Escaped(s) + [QUOTE])
  }

  const NULL_TEXT: seq<int> := [LOWER_N] + NULL_REST
  const TRUE_TEXT: seq<int> := [LOWER_T] + TRUE_REST
  const FALSE_TEXT: seq<int> := [LOWER_F] + FALSE_REST

  /** The compact text of a value. */
  function Print(v: Tree): seq<int> {
    match v
    case NullValue => NULL_TEXT
    case BoolValue(b) => if b then TRUE_TEXT else FALSE_TEXT
    case Integer(i) => Signed(i)
    case Float(numeral) => numeral
    case StringValue(s) => Quoted(s)
    case ArrayValue(elements) => [LEFT_BRACKET] + (PrintElements(elements) + [RIGHT_BRACKET])
    case ObjectValue(members) => [LEFT_BRACE] + (PrintMembers(members) + [RIGHT_BRACE])
  }

  function PrintElements(elements: seq<Tree>): seq<int> {
    if elements == [] then []
    else if |elements| == 1 then Print(elements[0])
    else Print(elements[0]) + ([COMMA] + PrintElements(elements[1..]))
  }

  function PrintMember(m: Member): seq<int> {
    Quoted(m.name) + ([COLON] + Print(m.value))
  }

  function PrintMembers(members: seq<Member>): seq<int> {
    if members == [] then []
    else if |members| == 1 then PrintMember(members[0])
    else PrintMember(members[0]) + ([COMMA] + PrintMembers(members[1..]))
  }
}
