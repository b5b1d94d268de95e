/** `GenericDocument` as a handler: building values on a stack, and the round trip through text. */
module JsonDocument {
  import opened JsonLexer
  import opened JsonParser
  import opened JsonTree
  import opened JsonAutomaton
  import opened JsonNesting
  import opened JsonReader
  import opened JsonWriter
  import opened JsonRoundTrip
  import opened Streams
  import opened Wrappers

  // ----- numbers

  /** The type flags of a number. */
  datatype Flags = Flags(isInt: bool, isUint: bool, isInt64: bool, isUint64: bool)

  /** The flags the four constructors set; the tests of high bits are written as comparisons. */
  function FlagsOf(n: Number): Flags
    requires !n.Double?
  {
    match n
    case Int(i) => Flags(true, i >= 0, true, i >= 0)
    case Uint(u) => if u / 0x8000_0000 % 2 == 1 then Flags(false, true, true, true) else Flags(true, true, true, true)
    case Int64(i) =>
      if i >= 0 then Flags(i < 0x8000_0000, i < 0x1_0000_0000, true, true) else Flags(i >= -0x8000_0000, false, true, false)
    case Uint64(u) => Flags(u < 0x8000_0000, u < 0x1_0000_0000, u < 0x8000_0000_0000_0000, true)
  }

  /** The numbers each constructor can be given. */
  predicate InRange(n: Number) {
    match n
    case Int(i) => -INT32_MIN_MAGNITUDE <= i < INT32_MIN_MAGNITUDE
    case Uint(u) => 0 <= u <= UINT32_MAX
    case Int64(i) => -INT64_MIN_MAGNITUDE <= i < INT64_MIN_MAGNITUDE
    case Uint64(u) => 0 <= u <= UINT64_MAX
    case Double(_) => false
  }

  /** The flags say which types hold the value, whichever type it came in; so a number is its value. */
  lemma FlagsAreByValue(n: Number)
    requires InRange(n)
    ensures FlagsOf(n) == Flags(-INT32_MIN_MAGNITUDE <= n.i < INT32_MIN_MAGNITUDE, 0 <= n.i <= UINT32_MAX,
                                -INT64_MIN_MAGNITUDE <= n.i < INT64_MIN_MAGNITUDE, 0 <= n.i <= UINT64_MAX)
  {
  }

  /** `Accept` hands an integer on as the first type it answers to. */
  lemma AcceptedByFlags(n: Number)
    requires InRange(n)
    ensures var f := FlagsOf(n);
            AcceptedAs(n.i) == if f.isInt then Int(n.i) else if f.isUint then Uint(n.i) else if f.isInt64 then Int64(n.i) else Uint64(n.i)
  {
    FlagsAreByValue(n);
    hide FlagsOf;
  }

  function NumberTree(n: Number): Tree {
    if n.Double? then Float(n.numeral) else Integer(n.i)
  }

  // ----- building

  /** Names and values, two by two. */
  function Pairs(values: seq<Tree>): (members: seq<Member>)
    requires |values| % 2 == 0
    ensures |members| == |values| / 2
  {
    if values == [] then []
    else [Member(if values[0].StringValue? then values[0].s else [], values[1])] + Pairs(values[2..])
  }

  /** How many values an event takes off the stack, not counting the container it completes. */
  function Taken(e: Event): nat {
    match e
    case EndObject(members) => 2 * members
    case EndArray(elements) => elements
    case _ => 0
  }

  predicate Completes(e: Event) {
    e.EndObject? || e.EndArray?
  }

  predicate CanHandle(stack: seq<Tree>, e: Event) {
    Completes(e) ==> |stack| > Taken(e)
  }

  /** The stack after an event. */
  function Handled(stack: seq<Tree>, e: Event): seq<Tree>
    requires CanHandle(stack, e)
  {
    match e
    case Null => stack + [NullValue]
    case Bool(b) => stack + [BoolValue(b)]
    case Num(n) => stack + [NumberTree(n)]
    case Str(s) => stack + [StringValue(s)]
    case Key(s) => stack + [StringValue(s)]
    case StartObject => stack + [ObjectValue([])]
    case StartArray => stack + [ArrayValue([])]
    case EndObject(members) =>
      var at := |stack| - 2 * members;
      stack[..at - 1] + [ObjectValue(Pairs(stack[at..]))]
    case EndArray(elements) =>
      var at := |stack| - elements;
      stack[..at - 1] + [ArrayValue(stack[at..])]
  }

  /** The stack after all the events; none if one of them takes more than there is. */
  function Built(stack: seq<Tree>, events: seq<Event>): Option<seq<Tree>>
    decreases |events|
  {
    if events == [] then Some(stack)
    else if CanHandle(stack, events[0]) then Built(Handled(stack, events[0]), events[1..])
    else None
  }

  lemma {:induction false} BuiltCat(stack: seq<Tree>, a: seq<Event>, b: seq<Event>)
    ensures Built(stack, a + b) == if Built(stack, a).Some? then Built(Built(stack, a).value, b) else None
    decreases |a|
  {
    if a == [] {
      assert a + b == b;
    } else {
      assert (a + b)[1..] == a[1..] + b;
      if CanHandle(stack, a[0]) {
        BuiltCat(Handled(stack, a[0]), a[1..], b);
      }
      hide Handled, CanHandle;
    }
  }

  lemma BuiltOne(stack: seq<Tree>, e: Event)
    ensures Built(stack, [e]) == if CanHandle(stack, e) then Some(Handled(stack, e)) else None
  {
    hide CanHandle, Handled;
  }

  // ----- the events of a value build the value

  lemma {:induction false} BuildsValue(stack: seq<Tree>, v: Tree, read: bool)
    ensures Built(stack, Events(v, read)) == Some(stack + [v])
    decreases v, 1
  {
    if v.ArrayValue? {
      BuildsArray(stack, v.elements, read);
    } else if v.ObjectValue? {
      BuildsObject(stack, v.members, read);
    } else {
      BuiltOne(stack, Events(v, read)[0]);
    }
  }

  lemma {:induction false} BuildsArray(stack: seq<Tree>, elements: seq<Tree>, read: bool)
    ensures Built(stack, Events(ArrayValue(elements), read)) == Some(stack + [ArrayValue(elements)])
    decreases elements, 1
  {
    var begun, end := stack + [ArrayValue([])], EndArray(|elements|);
    BuiltOne(stack, StartArray);
    BuildsElements(begun, elements, read);
    BuiltOne(begun + elements, end);
    BuiltCat(stack, [StartArray], ElementEvents(elements, read) + [end]);
    BuiltCat(begun, ElementEvents(elements, read), [end]);
    assert (begun + elements)[|begun|..] == elements && (begun + elements)[..|begun| - 1] == stack;
    hide Built, ElementEvents;
  }

  lemma {:induction false} BuildsElements(stack: seq<Tree>, elements: seq<Tree>, read: bool)
    ensures Built(stack, ElementEvents(elements, read)) == Some(stack + elements)
    decreases elements, 0
  {
    if elements == [] {
      assert stack + elements == stack;
    } else {
      BuildsValue(stack, elements[0], read);
      BuildsElements(stack + [elements[0]], elements[1..], read);
      BuiltCat(stack, Events(elements[0], read), ElementEvents(elements[1..], read));
      assert stack + [elements[0]] + elements[1..] == stack + elements;
      hide Built, Events;
    }
  }

  function Unpaired(members: seq<Member>): seq<Tree> {
    if members == [] then [] else [StringValue(members[0].name), members[0].value] + Unpaired(members[1..])
  }

  lemma {:induction false} PairsOfUnpaired(members: seq<Member>)
    ensures |Unpaired(members)| == 2 * |members| && Pairs(Unpaired(members)) == members
    decreases |members|
  {
    if members != [] {
      PairsOfUnpaired(members[1..]);
      var u := Unpaired(members);
      assert u[2..] == Unpaired(members[1..]);
      assert members == [members[0]] + members[1..];
    }
  }

  lemma {:induction false} BuildsObject(stack: seq<Tree>, members: seq<Member>, read: bool)
    ensures Built(stack, Events(ObjectValue(members), read)) == Some(stack + [ObjectValue(members)])
    decreases members, 1
  {
    var begun, end, values := stack + [ObjectValue([])], EndObject(|members|), Unpaired(members);
    PairsOfUnpaired(members);
    BuiltOne(stack, StartObject);
    BuildsMembers(begun, members, read);
    BuiltOne(begun + values, end);
    BuiltCat(stack, [StartObject], MemberEvents(members, read) + [end]);
    BuiltCat(begun, MemberEvents(members, read), [end]);
    assert (begun + values)[|begun|..] == values && (begun + values)[..|begun| - 1] == stack;
    hide Built, MemberEvents, Unpaired, Pairs;
  }

  lemma UnpairedStep(stack: seq<Tree>, members: seq<Member>)
    requires members != []
    ensures stack + [StringValue(members[0].name)] + [members[0].value] + Unpaired(members[1..]) == stack + Unpaired(members)
  {
  }

  lemma {:induction false} BuildsMembers(stack: seq<Tree>, members: seq<Member>, read: bool)
    ensures Built(stack, MemberEvents(members, read)) == Some(stack + Unpaired(members))
    decreases members, 0
  {
    if members == [] {
      assert stack + Unpaired(members) == stack;
    } else {
      hide Built, Events;
      var m, rest := members[0], MemberEvents(members[1..], read);
      var named := stack + [StringValue(m.name)];
      BuiltOne(stack, Key(m.name));
      BuildsValue(named, m.value, read);
      BuildsMembers(named + [m.value], members[1..], read);
      BuiltCat(stack, [Key(m.name)], Events(m.value, read) + rest);
      BuiltCat(named, Events(m.value, read), rest);
      UnpairedStep(stack, members);
    }
  }

  // ----- the document

  class GenericDocument {
    var stack: seq<Tree>
    var root: Tree

    constructor ()
      ensures stack == [] && root == NullValue
    {
      stack, root := [], NullValue;
    }

    /** The values on top of the stack, taken off. */
    method Pop(count: nat) returns (values: seq<Tree>)
      requires count <= |stack|
      modifies this`stack
      ensures stack + values == old(stack) && |values| == count
    {
      values := stack[|stack| - count..];
      stack := stack[..|stack| - count];
    }

    method EndObject(memberCount: nat)
      requires CanHandle(stack, Event.EndObject(memberCount))
      modifies this`stack
      ensures stack == Handled(old(stack), Event.EndObject(memberCount))
    {
      var values := Pop(2 * memberCount);
      var top := |stack| - 1;
      assert old(stack)[|stack|..] == values && old(stack)[..top] == stack[..top];
      stack := stack[top := ObjectValue(Pairs(values))];
    }

    method EndArray(elementCount: nat)
      requires CanHandle(stack, Event.EndArray(elementCount))
      modifies this`stack
      ensures stack == Handled(old(stack), Event.EndArray(elementCount))
    {
      var elements := Pop(elementCount);
      var top := |stack| - 1;
      assert old(stack)[|stack|..] == elements && old(stack)[..top] == stack[..top];
      stack := stack[top := ArrayValue(elements)];
    }

    /** One handler call. */
    method Handle(e: Event)
      requires CanHandle(stack, e)
      modifies this`stack
      ensures stack == Handled(old(stack), e)
    {
      match e
      case Null => stack := stack + [NullValue];
      case Bool(b) => stack := stack + [BoolValue(b)];
      case Num(n) => stack := stack + [NumberTree(n)];
      case Str(s) => stack := stack + [StringValue(s)];
      case Key(s) => stack := stack + [StringValue(s)];
      case StartObject => stack := stack + [ObjectValue([])];
      case StartArray => stack := stack + [ArrayValue([])];
      case EndObject(members) => EndObject(members);
      case EndArray(elements) => EndArray(elements);
    }

    /** Takes the events of a whole document, and then its only value off the stack. */
    method Populate(events: seq<Event>, ghost v: Tree)
      requires stack == [] && Built([], events) == Some([v])
      modifies this
      ensures root == v && stack == []
    {
      var i := 0;
      while i < |events|
        invariant 0 <= i <= |events| && Built(stack, events[i..]) == Some([v])
      {
        assert events[i..][0] == events[i] && events[i..][1..] == events[i + 1..];
        Handle(events[i]);
        i := i + 1;
      }
      assert events[i..] == [] && stack == [v];
      var values := Pop(1);
      assert (stack + values)[0] == v;
      root := values[0];
    }
  }

  /** Printing a value and parsing the text gives the value back, by either parser, under all the flags; the
      document's stack holds exactly that one value at the end. */
  method PrintAndParse(v: Tree, addresses: seq<int> -> nat, comments: bool, trailingCommas: bool, stopWhenDone: bool,
      tooBig: seq<int> -> bool, iterative: bool) returns (text: seq<int>, result: Tree)
    requires IsExact(v) && StringsFit(v)
    ensures text == Print(v) && result == v
  {
    var output := new OutputStream();
    var writer := new Writer(output);
    writer.Accept(v, addresses);
    text := output.out;
    var t := Job(text, comments, trailingCommas, stopWhenDone, (_: seq<Event>) => true, tooBig);
    ReadsPrinted(t, v);
    BuildsValue([], v, true);
    assert [] + [v] == [v];
    hide Print, Built, IsExact, Document, IterativeDocument, Events;
    var reader := new GenericReader(t);
    if iterative {
      reader.IterativeParse();
    } else {
      reader.Parse();
    }
    var document := new GenericDocument();
    document.Populate(reader.events, v);
    result := document.root;
  }
}
