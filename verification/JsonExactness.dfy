/** The parser accepts nothing but the layouts of values: for whatever it reads, there is a value with a spelling of
    its strings and numbers and with gaps between its tokens, whose text is what was read. */
module JsonExactness {
  import opened Ascii
  import opened JsonAutomaton
  import opened JsonLexer
  import opened JsonParser
  import opened JsonRoundTrip
  import opened JsonSpelled
  import opened JsonSpelling
  import opened Streams
  import opened Texts
  import opened Utf8
  import opened Wrappers

  // ----- values that hold no others

  lemma {:induction false} WordFrom(src: Text, pos: nat, word: seq<int>)
    requires MatchWord(src, pos, word).0 && 0 !in word && pos <= |src|
    ensures Spans(src, pos, word, MatchWord(src, pos, word).1)
    decreases |word|
  {
    if word == [] {
      Nothing(src, pos);
    } else {
      assert word[0] in word;
      One(src, pos);
      WordFrom(src, pos + 1, word[1..]);
      Join(src, pos, [word[0]], pos + 1, word[1..], MatchWord(src, pos, word).1);
      assert [word[0]] + word[1..] == word;
      hide Spans;
    }
  }

  lemma LiteralFrom(t: Job, pos: nat, events: seq<Event>, first: int, rest: seq<int>, e: Event)
    requires Peek(t.src, pos) == first != 0 && 0 !in rest && Literal(t, pos, events, rest, e).Going?
    ensures Spans(t.src, pos, [first] + rest, Literal(t, pos, events, rest, e).pos)
    ensures Literal(t, pos, events, rest, e).events == events + [e]
  {
    hide Spans, MatchWord;
    One(t.src, pos);
    WordFrom(t.src, pos + 1, rest);
    Join(t.src, pos, [first], pos + 1, rest, MatchWord(t.src, pos + 1, rest).1);
  }

  lemma QuotedFrom(t: Job, pos: nat, events: seq<Event>, isKey: bool) returns (s: seq<Piece>)
    requires AreBytes(t.src) && Peek(t.src, pos) == QUOTE && QuotedString(t, pos, events, isKey).Going?
    ensures ArePieces(s) && Spans(t.src, pos, StringText(s), QuotedString(t, pos, events, isKey).pos)
    ensures QuotedString(t, pos, events, isKey).events == events + [if isKey then Key(Spelled(s)) else Str(Spelled(s))]
  {
    hide Spans, String, StringText, Spelled;
    s := StringFrom(t.src, pos);
  }

  lemma LeafFrom(t: Job, pos: nat, events: seq<Event>) returns (v: Laid)
    requires AreBytes(t.src) && Scalar(t, pos, events).Going?
    ensures IsLaid(t, v) && IsLeaf(v) && Spans(t.src, pos, LaidText(t, v), Scalar(t, pos, events).pos)
    ensures Scalar(t, pos, events).events == events + LaidEvents(v)
  {
    hide Spans, Literal, QuotedString, NumberAt, StringText, NumeralText, NumeralValue, IsNumeral, IsInteger, ArePieces, Codes, Spelled;
    WordsWrittenOut();
    var c := Peek(t.src, pos);
    if c == LOWER_N {
      v := LaidNull;
      LiteralFrom(t, pos, events, LOWER_N, NULL_REST, Null);
    } else if c == LOWER_T {
      v := LaidBool(true);
      LiteralFrom(t, pos, events, LOWER_T, TRUE_REST, Bool(true));
    } else if c == LOWER_F {
      v := LaidBool(false);
      LiteralFrom(t, pos, events, LOWER_F, FALSE_REST, Bool(false));
    } else if c == QUOTE {
      var s := QuotedFrom(t, pos, events, false);
      v := LaidString(s);
    } else {
      var m := NumberFrom(t.src, pos, t.tooBig);
      v := LaidNumber(m);
    }
  }

  // ----- between the parts of a value

  /** A gap before a byte that does not end the text. */
  lemma GapInside(t: Job, pos: nat, events: seq<Event>, next: nat) returns (g: Gap)
    requires pos <= |t.src| && SkipAt(t, pos, events) == Going(next, events) && Peek(t.src, next) != 0
    ensures IsGap(g, t.comments) && Spans(t.src, pos, GapText(g), next)
  {
    hide Spans, Skip, IsLastComment;
    var tail;
    g, tail := GapFrom(t.src, t.comments, pos);
    assert GapText(g) + [] == GapText(g);
  }

  lemma ValueIsNotAtEnd(t: Job, pos: nat, events: seq<Event>)
    requires Value(t, pos, events).Going?
    ensures Peek(t.src, pos) != 0
  {
  }

  // ----- arrays

  /** How an array begins and goes on, when it is read to its end. */
  lemma ArrayBegins(t: Job, pos: nat, events: seq<Event>) returns (begun: seq<Event>, p: nat)
    requires Value(t, pos, events).Going? && Peek(t.src, pos) == LEFT_BRACKET
    ensures begun == events + [StartArray] && SkipAt(t, pos + 1, begun) == Going(p, begun) && pos + 1 <= p
    ensures if Peek(t.src, p) == RIGHT_BRACKET then Value(t, pos, events) == Going(p + 1, begun + [EndArray(0)])
            else Value(t, pos, events) == Elements(t, p, begun, 0)
  {
    hide SkipAt, Elements;
    begun := events + [StartArray];
    p := SkipAt(t, pos + 1, begun).pos;
  }

  lemma {:induction false} ArrayFrom(t: Job, pos: nat, events: seq<Event>) returns (v: Laid)
    requires AreBytes(t.src) && Value(t, pos, events).Going? && Peek(t.src, pos) == LEFT_BRACKET
    ensures IsLaid(t, v) && Spans(t.src, pos, LaidText(t, v), Value(t, pos, events).pos)
    ensures Value(t, pos, events).events == events + LaidEvents(v)
    decreases |t.src| - pos, 0
  {
    hide *;
    var end := Value(t, pos, events).pos;
    ValueIsNotAtEnd(t, pos, events);
    One(t.src, pos);
    SpansInside(t.src, pos, [LEFT_BRACKET], pos + 1);
    var begun, p := ArrayBegins(t, pos, events);
    if Peek(t.src, p) == RIGHT_BRACKET {
      Brackets();
      var space := GapInside(t, pos + 1, begun, p);
      One(t.src, p);
      v := LaidArray(space, [], false);
      EmptyArray(t, v, events);
      Container(t.src, pos, LEFT_BRACKET, GapText(space), p, [RIGHT_BRACKET], end);
    } else {
      ElementsAreNotAtEnd(t, p, begun, 0);
      var space := GapInside(t, pos + 1, begun, p);
      var elements, comma := ElementsFrom(t, p, begun, 0);
      v := LaidArray(space, elements, comma);
      FilledArray(t, v, events);
      Container(t.src, pos, LEFT_BRACKET, GapText(space), p, ElementsText(t, elements, comma) + [RIGHT_BRACKET], end);
    }
  }

  lemma Brackets()
    ensures RIGHT_BRACKET != 0 && RIGHT_BRACE != 0 && COMMA != 0 && COLON != 0 && QUOTE != 0
    ensures LEFT_BRACKET != 0 && LEFT_BRACE != 0 && COMMA != RIGHT_BRACKET && COMMA != RIGHT_BRACE
  {
  }

  lemma Container(src: Text, pos: nat, open: int, space: seq<int>, p: nat, content: seq<int>, end: nat)
    requires Spans(src, pos, [open], pos + 1) && Spans(src, pos + 1, space, p) && Spans(src, p, content, end)
    ensures Spans(src, pos, [open] + (space + content), end)
  {
    hide Spans;
    Join(src, pos + 1, space, p, content, end);
    Join(src, pos, [open], pos + 1, space + content, end);
  }

  lemma EmptyArray(t: Job, v: Laid, events: seq<Event>)
    requires v.LaidArray? && v.elements == [] && !v.comma && IsGap(v.space, t.comments)
    ensures IsLaid(t, v) && LaidText(t, v) == [LEFT_BRACKET] + (GapText(v.space) + [RIGHT_BRACKET])
    ensures (events + [StartArray]) + [EndArray(0)] == events + LaidEvents(v)
  {
    hide GapText;
    assert [] + [RIGHT_BRACKET] == [RIGHT_BRACKET];
  }

  lemma FilledArray(t: Job, v: Laid, events: seq<Event>)
    requires v.LaidArray? && IsGap(v.space, t.comments) && v.elements != [] && AreElements(t, v.elements)
    requires v.comma ==> t.trailingCommas
    ensures IsLaid(t, v)
    ensures LaidText(t, v) == [LEFT_BRACKET] + (GapText(v.space) + (ElementsText(t, v.elements, v.comma) + [RIGHT_BRACKET]))
    ensures Onto(events + [StartArray], ElementsEvents(v.elements), EndArray(|v.elements|)) == events + LaidEvents(v)
  {
    hide GapText, ElementsText;
  }

  lemma ElementsAreNotAtEnd(t: Job, pos: nat, events: seq<Event>, count: nat)
    requires Elements(t, pos, events, count).Going?
    ensures Peek(t.src, pos) != 0
  {
    hide Skip, AfterElement;
    ValueIsNotAtEnd(t, pos, events);
  }

  /** What comes after an element, when the array is read to its end. */
  lemma ElementEnds(t: Job, pos: nat, events: seq<Event>, count: nat) returns (v: Parse, q: nat)
    requires Elements(t, pos, events, count).Going?
    ensures Value(t, pos, events) == v && v.Going? && SkipAt(t, v.pos, v.events) == Going(q, v.events) && pos < v.pos <= q
    ensures Elements(t, pos, events, count) == AfterElement(t, q, v.events, count + 1)
    ensures Peek(t.src, q) != 0
  {
    hide SkipAt, Value;
    v := Value(t, pos, events);
    q := SkipAt(t, v.pos, v.events).pos;
  }

  /** After an element: the end of the array, or a comma and maybe more elements. */
  lemma ArrayGoesOnOrEnds(t: Job, q: nat, events: seq<Event>, count: nat) returns (z: nat)
    requires AfterElement(t, q, events, count).Going?
    ensures Peek(t.src, q) == RIGHT_BRACKET || Peek(t.src, q) == COMMA
    ensures Peek(t.src, q) == RIGHT_BRACKET ==> AfterElement(t, q, events, count) == Going(q + 1, events + [EndArray(count)])
    ensures Peek(t.src, q) == COMMA ==>
              && SkipAt(t, q + 1, events) == Going(z, events) && q < z && Peek(t.src, z) != 0
              && if t.trailingCommas && Peek(t.src, z) == RIGHT_BRACKET
                 then AfterElement(t, q, events, count) == Going(z + 1, events + [EndArray(count)])
                 else AfterElement(t, q, events, count) == Elements(t, z, events, count)
  {
    hide SkipAt, Elements;
    z := if Peek(t.src, q) == COMMA then SkipAt(t, q + 1, events).pos else 0;
    if Peek(t.src, q) == COMMA && !(t.trailingCommas && Peek(t.src, z) == RIGHT_BRACKET) {
      ElementsAreNotAtEnd(t, z, events, count);
    }
  }

  lemma {:induction false} ElementsFrom(t: Job, pos: nat, events: seq<Event>, count: nat) returns (elements: seq<Element>, comma: bool)
    requires AreBytes(t.src) && Elements(t, pos, events, count).Going?
    ensures AreElements(t, elements) && elements != [] && (comma ==> t.trailingCommas)
    ensures Spans(t.src, pos, ElementsText(t, elements, comma) + [RIGHT_BRACKET], Elements(t, pos, events, count).pos)
    ensures Elements(t, pos, events, count).events == Onto(events, ElementsEvents(elements), EndArray(count + |elements|))
    decreases |t.src| - pos, 2
  {
    hide *;
    Brackets();
    NoText();
    var end := Elements(t, pos, events, count).pos;
    ElementsAreNotAtEnd(t, pos, events, count);
    One(t.src, pos);
    SpansInside(t.src, pos, [Peek(t.src, pos)], pos + 1);
    var r, q := ElementEnds(t, pos, events, count);
    var v := ValueFrom(t, pos, events);
    SpansInside(t.src, pos, LaidText(t, v), r.pos);
    var after := GapInside(t, r.pos, r.events, q);
    One(t.src, q);
    var z := ArrayGoesOnOrEnds(t, q, r.events, count + 1);
    if Peek(t.src, q) == RIGHT_BRACKET {
      var e := Element(v, after, []);
      elements, comma := [e], false;
      LastElement(t, e, comma, events, count);
      LastPart(t.src, pos, LaidText(t, v), r.pos, GapText(after), q, [RIGHT_BRACKET], end);
    } else {
      SpansInside(t.src, q, [COMMA], q + 1);
      var next := GapInside(t, q + 1, r.events, z);
      var e := Element(v, after, next);
      if t.trailingCommas && Peek(t.src, z) == RIGHT_BRACKET {
        elements, comma := [e], true;
        One(t.src, z);
        LastElement(t, e, comma, events, count);
        Container(t.src, q, COMMA, GapText(next), z, [RIGHT_BRACKET], end);
        LastPart(t.src, pos, LaidText(t, v), r.pos, GapText(after), q, [COMMA] + (GapText(next) + [RIGHT_BRACKET]), end);
      } else {
        var rest;
        rest, comma := ElementsFrom(t, z, r.events, count + 1);
        elements := [e] + rest;
        MoreElements(t, e, rest, comma, events, count);
        Container(t.src, q, COMMA, GapText(next), z, ElementsText(t, rest, comma) + [RIGHT_BRACKET], end);
        LastPart(t.src, pos, LaidText(t, v), r.pos, GapText(after), q,
                 [COMMA] + (GapText(next) + (ElementsText(t, rest, comma) + [RIGHT_BRACKET])), end);
      }
    }
  }

  lemma LastPart(src: Text, pos: nat, s: seq<int>, p: nat, g: seq<int>, q: nat, rest: seq<int>, end: nat)
    requires Spans(src, pos, s, p) && Spans(src, p, g, q) && Spans(src, q, rest, end)
    ensures Spans(src, pos, s + (g + rest), end)
  {
    hide Spans;
    Join(src, p, g, q, rest, end);
    Join(src, pos, s, p, g + rest, end);
  }

  /** The last element of an array, with or without a comma after it. */
  lemma LastElement(t: Job, e: Element, comma: bool, events: seq<Event>, count: nat)
    requires IsGap(e.after, t.comments) && IsGap(e.next, t.comments) && IsLaid(t, e.value)
    ensures AreElements(t, [e])
    ensures ElementsText(t, [e], comma) + [RIGHT_BRACKET]
         == LaidText(t, e.value) + (GapText(e.after) + if comma then [COMMA] + (GapText(e.next) + [RIGHT_BRACKET]) else [RIGHT_BRACKET])
    ensures (events + LaidEvents(e.value)) + [EndArray(count + 1)] == Onto(events, ElementsEvents([e]), EndArray(count + 1))
  {
    hide LaidText, GapText, LaidEvents, IsLaid;
    assert IsElement(t, e);
    assert ElementsEvents([e][1..]) == [];
    var s, g, n, close := LaidText(t, e.value), GapText(e.after), GapText(e.next), [RIGHT_BRACKET];
    assert ElementsTail(t, [e], comma) == if comma then [COMMA] + n else [];
    if comma {
      Flattened(s, g, [COMMA], n, [], close);
    } else {
      assert (s + (g + [])) + close == s + (g + close);
    }
  }

  /** Closing what is nested to the right. */
  lemma Flattened(s: seq<int>, g: seq<int>, c: seq<int>, n: seq<int>, r: seq<int>, close: seq<int>)
    ensures (s + (g + (c + (n + r)))) + close == s + (g + (c + (n + (r + close))))
    ensures (s + (g + (c + n))) + close == s + (g + (c + (n + close)))
  {
    assert (c + (n + r)) + close == c + (n + (r + close));
    assert (g + (c + (n + r))) + close == g + (c + (n + (r + close)));
    assert (c + n) + close == c + (n + close);
    assert (g + (c + n)) + close == g + (c + (n + close));
  }

  /** An element, and others after it. */
  lemma MoreElements(t: Job, e: Element, rest: seq<Element>, comma: bool, events: seq<Event>, count: nat)
    requires IsGap(e.after, t.comments) && IsGap(e.next, t.comments) && IsLaid(t, e.value) && AreElements(t, rest) && rest != []
    ensures AreElements(t, [e] + rest)
    ensures ElementsText(t, [e] + rest, comma) + [RIGHT_BRACKET]
         == LaidText(t, e.value)
          + (GapText(e.after) + ([COMMA] + (GapText(e.next) + (ElementsText(t, rest, comma) + [RIGHT_BRACKET]))))
    ensures Onto(events + LaidEvents(e.value), ElementsEvents(rest), EndArray(count + 1 + |rest|))
         == Onto(events, ElementsEvents([e] + rest), EndArray(count + |[e] + rest|))
  {
    hide LaidText, GapText, LaidEvents, IsLaid;
    var es := [e] + rest;
    assert IsElement(t, e) && es[1..] == rest && es[0] == e;
    assert AreElements(t, es) by {
      forall i | 0 <= i < |es|
        ensures IsElement(t, es[i])
      {
        assert i > 0 ==> es[i] == rest[i - 1];
      }
    }
    ElementsJoin(events, es, EndArray(count + |es|));
    var n, r := GapText(e.next), ElementsText(t, rest, comma);
    assert ElementsTail(t, es, comma) == [COMMA] + (n + r);
    Flattened(LaidText(t, e.value), GapText(e.after), [COMMA], n, r, [RIGHT_BRACKET]);
  }

  lemma {:induction false} ValueFrom(t: Job, pos: nat, events: seq<Event>) returns (v: Laid)
    requires AreBytes(t.src) && Value(t, pos, events).Going?
    ensures IsLaid(t, v) && Spans(t.src, pos, LaidText(t, v), Value(t, pos, events).pos)
    ensures Value(t, pos, events).events == events + LaidEvents(v)
    decreases |t.src| - pos, 1
  {
    hide Spans, LaidText, LaidEvents, IsLaid, Object, Array, Scalar;
    if Peek(t.src, pos) == LEFT_BRACKET {
      v := ArrayFrom(t, pos, events);
    } else if Peek(t.src, pos) == LEFT_BRACE {
      v := ObjectFrom(t, pos, events);
    } else {
      v := LeafFrom(t, pos, events);
    }
  }

  // ----- objects

  lemma ObjectBegins(t: Job, pos: nat, events: seq<Event>) returns (begun: seq<Event>, p: nat)
    requires Value(t, pos, events).Going? && Peek(t.src, pos) == LEFT_BRACE
    ensures begun == events + [StartObject] && SkipAt(t, pos + 1, begun) == Going(p, begun) && pos + 1 <= p
    ensures if Peek(t.src, p) == RIGHT_BRACE then Value(t, pos, events) == Going(p + 1, begun + [EndObject(0)])
            else Value(t, pos, events) == Members(t, p, begun, 0)
  {
    hide SkipAt, Members;
    begun := events + [StartObject];
    p := SkipAt(t, pos + 1, begun).pos;
  }

  lemma {:induction false} ObjectFrom(t: Job, pos: nat, events: seq<Event>) returns (v: Laid)
    requires AreBytes(t.src) && Value(t, pos, events).Going? && Peek(t.src, pos) == LEFT_BRACE
    ensures IsLaid(t, v) && Spans(t.src, pos, LaidText(t, v), Value(t, pos, events).pos)
    ensures Value(t, pos, events).events == events + LaidEvents(v)
    decreases |t.src| - pos, 0
  {
    hide *;
    var end := Value(t, pos, events).pos;
    ValueIsNotAtEnd(t, pos, events);
    One(t.src, pos);
    SpansInside(t.src, pos, [LEFT_BRACE], pos + 1);
    Brackets();
    var begun, p := ObjectBegins(t, pos, events);
    if Peek(t.src, p) == RIGHT_BRACE {
      var space := GapInside(t, pos + 1, begun, p);
      One(t.src, p);
      v := LaidObject(space, [], false);
      EmptyObject(t, v, events);
      Container(t.src, pos, LEFT_BRACE, GapText(space), p, [RIGHT_BRACE], end);
    } else {
      MembersBeginWithName(t, p, begun, 0);
      var space := GapInside(t, pos + 1, begun, p);
      var members, comma := EntriesFrom(t, p, begun, 0);
      v := LaidObject(space, members, comma);
      FilledObject(t, v, events);
      Container(t.src, pos, LEFT_BRACE, GapText(space), p, EntriesText(t, members, comma) + [RIGHT_BRACE], end);
    }
  }

  lemma MembersBeginWithName(t: Job, pos: nat, events: seq<Event>, count: nat)
    requires Members(t, pos, events, count).Going?
    ensures Peek(t.src, pos) == QUOTE
  {
  }

  lemma EmptyObject(t: Job, v: Laid, events: seq<Event>)
    requires v.LaidObject? && v.members == [] && !v.comma && IsGap(v.space, t.comments)
    ensures IsLaid(t, v) && LaidText(t, v) == [LEFT_BRACE] + (GapText(v.space) + [RIGHT_BRACE])
    ensures (events + [StartObject]) + [EndObject(0)] == events + LaidEvents(v)
  {
    hide GapText;
    assert [] + [RIGHT_BRACE] == [RIGHT_BRACE];
  }

  lemma FilledObject(t: Job, v: Laid, events: seq<Event>)
    requires v.LaidObject? && IsGap(v.space, t.comments) && v.members != [] && AreEntries(t, v.members)
    requires v.comma ==> t.trailingCommas
    ensures IsLaid(t, v)
    ensures LaidText(t, v) == [LEFT_BRACE] + (GapText(v.space) + (EntriesText(t, v.members, v.comma) + [RIGHT_BRACE]))
    ensures Onto(events + [StartObject], EntriesEvents(v.members), EndObject(|v.members|)) == events + LaidEvents(v)
  {
    hide GapText, EntriesText;
  }

  /** The parts of a member, when its object is read to its end. */
  lemma MemberEnds(t: Job, pos: nat, events: seq<Event>, count: nat) returns (k: Parse, c: nat, b: nat, v: Parse, q: nat)
    requires Members(t, pos, events, count).Going?
    ensures QuotedString(t, pos, events, true) == k && k.Going? && pos < k.pos
    ensures SkipAt(t, k.pos, k.events) == Going(c, k.events) && k.pos <= c && Peek(t.src, c) == COLON
    ensures SkipAt(t, c + 1, k.events) == Going(b, k.events) && c < b
    ensures Value(t, b, k.events) == v && v.Going? && b < v.pos
    ensures SkipAt(t, v.pos, v.events) == Going(q, v.events) && v.pos <= q && Peek(t.src, q) != 0
    ensures Members(t, pos, events, count) == AfterMember(t, q, v.events, count + 1)
  {
    hide SkipAt, Value, QuotedString;
    k := QuotedString(t, pos, events, true);
    c := SkipAt(t, k.pos, k.events).pos;
    b := SkipAt(t, c + 1, k.events).pos;
    v := Value(t, b, k.events);
    q := SkipAt(t, v.pos, v.events).pos;
  }

  /** After a member: the end of the object, or a comma and maybe more members. */
  lemma ObjectGoesOnOrEnds(t: Job, q: nat, events: seq<Event>, count: nat) returns (z: nat)
    requires AfterMember(t, q, events, count).Going?
    ensures Peek(t.src, q) == RIGHT_BRACE || Peek(t.src, q) == COMMA
    ensures Peek(t.src, q) == RIGHT_BRACE ==> AfterMember(t, q, events, count) == Going(q + 1, events + [EndObject(count)])
    ensures Peek(t.src, q) == COMMA ==>
              && SkipAt(t, q + 1, events) == Going(z, events) && q < z && Peek(t.src, z) != 0
              && if t.trailingCommas && Peek(t.src, z) == RIGHT_BRACE
                 then AfterMember(t, q, events, count) == Going(z + 1, events + [EndObject(count)])
                 else AfterMember(t, q, events, count) == Members(t, z, events, count)
  {
    hide SkipAt, Members;
    z := if Peek(t.src, q) == COMMA then SkipAt(t, q + 1, events).pos else 0;
    if Peek(t.src, q) == COMMA && !(t.trailingCommas && Peek(t.src, z) == RIGHT_BRACE) {
      MembersBeginWithName(t, z, events, count);
    }
  }

  /** A name, a colon and a value, with the gaps between them. */
  lemma {:induction false} EntryFrom(t: Job, pos: nat, events: seq<Event>, k: Parse, c: nat, b: nat, v: Parse)
    returns (m: Entry)
    requires AreBytes(t.src) && Peek(t.src, pos) == QUOTE && QuotedString(t, pos, events, true) == k && k.Going? && pos < k.pos
    requires SkipAt(t, k.pos, k.events) == Going(c, k.events) && k.pos <= c && Peek(t.src, c) == COLON
    requires SkipAt(t, c + 1, k.events) == Going(b, k.events) && c < b
    requires Value(t, b, k.events) == v && v.Going?
    ensures ArePieces(m.name) && IsGap(m.before, t.comments) && IsGap(m.colon, t.comments) && IsLaid(t, m.value)
    ensures m.after == [] && m.next == []
    ensures Spans(t.src, pos, StringText(m.name) + (GapText(m.before) + ([COLON] + (GapText(m.colon) + LaidText(t, m.value)))), v.pos)
    ensures v.events == (events + [Key(NameOf(m))]) + LaidEvents(m.value)
    decreases |t.src| - pos, 2
  {
    hide *;
    Brackets();
    var name := QuotedFrom(t, pos, events, true);
    SpansInside(t.src, pos, StringText(name), k.pos);
    var before := GapInside(t, k.pos, k.events, c);
    One(t.src, c);
    SpansInside(t.src, c, [COLON], c + 1);
    ValueIsNotAtEnd(t, b, k.events);
    var colon := GapInside(t, c + 1, k.events, b);
    var value := ValueFrom(t, b, k.events);
    m := Entry(name, before, colon, value, [], []);
    NameIs(m);
    Container(t.src, c, COLON, GapText(colon), b, LaidText(t, value), v.pos);
    LastPart(t.src, pos, StringText(name), k.pos, GapText(before), c, [COLON] + (GapText(colon) + LaidText(t, value)), v.pos);
  }

  lemma {:induction false} EntriesFrom(t: Job, pos: nat, events: seq<Event>, count: nat) returns (members: seq<Entry>, comma: bool)
    requires AreBytes(t.src) && Members(t, pos, events, count).Going?
    ensures AreEntries(t, members) && members != [] && (comma ==> t.trailingCommas)
    ensures Spans(t.src, pos, EntriesText(t, members, comma) + [RIGHT_BRACE], Members(t, pos, events, count).pos)
    ensures Members(t, pos, events, count).events == Onto(events, EntriesEvents(members), EndObject(count + |members|))
    decreases |t.src| - pos, 3
  {
    hide *;
    Brackets();
    NoText();
    var end := Members(t, pos, events, count).pos;
    MembersBeginWithName(t, pos, events, count);
    var k, c, b, r, q := MemberEnds(t, pos, events, count);
    One(t.src, pos);
    SpansInside(t.src, pos, [QUOTE], pos + 1);
    var m := EntryFrom(t, pos, events, k, c, b, r);
    NameIs(m);
    var text := StringText(m.name) + (GapText(m.before) + ([COLON] + (GapText(m.colon) + LaidText(t, m.value))));
    SpansInside(t.src, pos, text, r.pos);
    var after := GapInside(t, r.pos, r.events, q);
    One(t.src, q);
    var z := ObjectGoesOnOrEnds(t, q, r.events, count + 1);
    if Peek(t.src, q) == RIGHT_BRACE {
      m := m.(after := after);
      NameIs(m);
      members, comma := [m], false;
      LastEntry(t, m, comma, events, count);
      LastPart(t.src, pos, EntryText(t, m), r.pos, GapText(after), q, [RIGHT_BRACE], end);
    } else {
      SpansInside(t.src, q, [COMMA], q + 1);
      var next := GapInside(t, q + 1, r.events, z);
      m := m.(after := after, next := next);
      NameIs(m);
      if t.trailingCommas && Peek(t.src, z) == RIGHT_BRACE {
        members, comma := [m], true;
        One(t.src, z);
        LastEntry(t, m, comma, events, count);
        Container(t.src, q, COMMA, GapText(next), z, [RIGHT_BRACE], end);
        LastPart(t.src, pos, EntryText(t, m), r.pos, GapText(after), q, [COMMA] + (GapText(next) + [RIGHT_BRACE]), end);
      } else {
        var rest;
        rest, comma := EntriesFrom(t, z, r.events, count + 1);
        members := [m] + rest;
        MoreEntries(t, m, rest, comma, events, count);
        Container(t.src, q, COMMA, GapText(next), z, EntriesText(t, rest, comma) + [RIGHT_BRACE], end);
        LastPart(t.src, pos, EntryText(t, m), r.pos, GapText(after), q,
                 [COMMA] + (GapText(next) + (EntriesText(t, rest, comma) + [RIGHT_BRACE])), end);
      }
    }
  }

  lemma LastEntry(t: Job, m: Entry, comma: bool, events: seq<Event>, count: nat)
    requires ArePieces(m.name) && IsGap(m.before, t.comments) && IsGap(m.colon, t.comments) && IsLaid(t, m.value)
    requires IsGap(m.after, t.comments) && IsGap(m.next, t.comments)
    ensures AreEntries(t, [m]) && IsEntry(t, m)
    ensures EntryText(t, m) == StringText(m.name) + (GapText(m.before) + ([COLON] + (GapText(m.colon) + LaidText(t, m.value))))
    ensures EntriesText(t, [m], comma) + [RIGHT_BRACE]
         == EntryText(t, m) + (GapText(m.after) + if comma then [COMMA] + (GapText(m.next) + [RIGHT_BRACE]) else [RIGHT_BRACE])
    ensures ((events + [Key(NameOf(m))]) + LaidEvents(m.value)) + [EndObject(count + 1)]
         == Onto(events, EntriesEvents([m]), EndObject(count + 1))
  {
    hide LaidText, GapText, LaidEvents, IsLaid, StringText, NameOf;
    assert IsEntry(t, m);
    assert EntriesEvents([m][1..]) == [];
    EntriesJoin(events, [m], EndObject(count + 1));
    NoEntries((events + [Key(NameOf(m))]) + LaidEvents(m.value), [m][1..], EndObject(count + 1));
    var s, g, n, close := EntryText(t, m), GapText(m.after), GapText(m.next), [RIGHT_BRACE];
    assert EntriesTail(t, [m], comma) == if comma then [COMMA] + n else [];
    if comma {
      Flattened(s, g, [COMMA], n, [], close);
    } else {
      assert (s + (g + [])) + close == s + (g + close);
    }
  }

  lemma MoreEntries(t: Job, m: Entry, rest: seq<Entry>, comma: bool, events: seq<Event>, count: nat)
    requires ArePieces(m.name) && IsGap(m.before, t.comments) && IsGap(m.colon, t.comments) && IsLaid(t, m.value)
    requires IsGap(m.after, t.comments) && IsGap(m.next, t.comments) && AreEntries(t, rest) && rest != []
    ensures AreEntries(t, [m] + rest) && IsEntry(t, m)
    ensures EntryText(t, m) == StringText(m.name) + (GapText(m.before) + ([COLON] + (GapText(m.colon) + LaidText(t, m.value))))
    ensures EntriesText(t, [m] + rest, comma) + [RIGHT_BRACE]
         == EntryText(t, m) + (GapText(m.after) + ([COMMA] + (GapText(m.next) + (EntriesText(t, rest, comma) + [RIGHT_BRACE]))))
    ensures Onto((events + [Key(NameOf(m))]) + LaidEvents(m.value), EntriesEvents(rest), EndObject(count + 1 + |rest|))
         == Onto(events, EntriesEvents([m] + rest), EndObject(count + |[m] + rest|))
  {
    hide LaidText, GapText, LaidEvents, IsLaid, StringText, NameOf;
    var ms := [m] + rest;
    assert IsEntry(t, m) && ms[1..] == rest && ms[0] == m;
    assert AreEntries(t, ms) by {
      forall i | 0 <= i < |ms|
        ensures IsEntry(t, ms[i])
      {
        assert i > 0 ==> ms[i] == rest[i - 1];
      }
    }
    EntriesJoin(events, ms, EndObject(count + |ms|));
    var n, r := GapText(m.next), EntriesText(t, rest, comma);
    assert EntriesTail(t, ms, comma) == [COMMA] + (n + r);
    Flattened(EntryText(t, m), GapText(m.after), [COMMA], n, r, [RIGHT_BRACE]);
  }

  // ----- documents

  lemma AtEndOf(src: Text, pos: nat, s: seq<int>, next: nat)
    requires Spans(src, 0, s, next)
    ensures src == s + src[next..]
  {
    assert src[0..next] == s;
  }

  lemma Parts(a: seq<int>, b: seq<int>, c: seq<int>, d: seq<int>, e: seq<int>)
    ensures (a + (b + (c + d))) + e == a + (b + (c + (d + e)))
  {
  }

  /** What has been read when a document is accepted. */
  lemma DocumentEnds(t: Job) returns (p: nat, v: Parse)
    requires Document(t).Going?
    ensures SkipAt(t, 0, []) == Going(p, []) && Peek(t.src, p) != 0 && Value(t, p, []) == v && v.Going?
    ensures if t.stopWhenDone then Document(t) == v
            else SkipAt(t, v.pos, v.events) == Document(t) && Peek(t.src, Document(t).pos) == 0
  {
    hide Skip, Value;
    p := SkipAt(t, 0, []).pos;
    v := Value(t, p, []);
  }

  /** Nothing but the layouts is accepted: whatever text is, is a value in some layout, with nothing before and after it
      but what may stand between tokens; its events are those of the value. */
  lemma AcceptedIsLaid(t: Job) returns (d: Layout)
    requires AreBytes(t.src) && Document(t).Going?
    ensures IsLayout(t, d) && t.src == LayoutText(t, d)
    ensures Document(t) == Going(|t.src| - |d.rest|, LaidEvents(d.value))
    ensures if t.stopWhenDone then d.after == [] && d.tail == [] else d.rest == [] || d.rest[0] == 0
  {
    hide *;
    var p, r := DocumentEnds(t);
    Nothing(t.src, 0);
    SpansInside(t.src, 0, [], 0);
    var before := GapInside(t, 0, [], p);
    SpansInside(t.src, 0, GapText(before), p);
    var v := ValueFrom(t, p, []);
    NothingBefore(LaidEvents(v));
    SpansInside(t.src, p, LaidText(t, v), r.pos);
    var after, tail := [], [];
    if t.stopWhenDone {
      NoText();
      NoTail();
      Nothing(t.src, r.pos);
      NoGap([]);
    } else {
      SkipOf(t, r.pos, r.events);
      after, tail := GapFrom(t.src, t.comments, r.pos);
    }
    var end := Document(t).pos;
    LastPart(t.src, 0, GapText(before), p, LaidText(t, v), r.pos, GapText(after) + tail, end);
    SpansInside(t.src, 0, GapText(before) + (LaidText(t, v) + (GapText(after) + tail)), end);
    d := Layout(before, v, after, tail, t.src[end..]);
    IsTheLayout(t, d, end);
  }

  lemma SkipOf(t: Job, pos: nat, events: seq<Event>)
    requires SkipAt(t, pos, events).Going?
    ensures Skip(t.src, t.comments, pos).Read? && SkipAt(t, pos, events) == Going(Skip(t.src, t.comments, pos).next, events)
  {
  }

  lemma IsTheLayout(t: Job, d: Layout, end: nat)
    requires IsGap(d.before, t.comments) && IsLaid(t, d.value) && IsGap(d.after, t.comments) && IsLastComment(d.tail, t.comments)
    requires Spans(t.src, 0, GapText(d.before) + (LaidText(t, d.value) + (GapText(d.after) + d.tail)), end)
    requires end <= |t.src| && d.rest == t.src[end..]
    ensures IsLayout(t, d) && t.src == LayoutText(t, d) && end == |t.src| - |d.rest|
    ensures Peek(t.src, end) == 0 ==> d.rest == [] || d.rest[0] == 0
  {
    hide GapText, LaidText, IsLaid;
    var s := GapText(d.before) + (LaidText(t, d.value) + (GapText(d.after) + d.tail));
    AtEndOf(t.src, 0, s, end);
    Parts(GapText(d.before), LaidText(t, d.value), GapText(d.after), d.tail, d.rest);
  }

  /** Which texts are documents, and what they are read as: exactly the layouts of values, whoever parses. */
  lemma AcceptsExactlyTheLayouts(t: Job)
    requires AreBytes(t.src) && AcceptsAll(t) && !t.stopWhenDone
    ensures Document(t).Going? <==> exists d: Layout :: IsLayout(t, d) && t.src == LayoutText(t, d) && StopsBefore(t, d, d.rest)
    ensures IterativeDocument(t).Going? <==> Document(t).Going?
    ensures forall d: Layout | IsLayout(t, d) && t.src == LayoutText(t, d) && StopsBefore(t, d, d.rest) ::
              Document(t) == IterativeDocument(t) == Going(|t.src| - |d.rest|, LaidEvents(d.value))
  {
    hide LayoutText, LaidEvents, IsLayout, IterativeDocument, Document, AcceptsAll;
    forall d: Layout | IsLayout(t, d) && t.src == LayoutText(t, d) && StopsBefore(t, d, d.rest)
      ensures Document(t) == IterativeDocument(t) == Going(|t.src| - |d.rest|, LaidEvents(d.value))
    {
      ReadsDocument(t, d);
    }
    if Document(t).Going? {
      var d := AcceptedIsLaid(t);
      assert StopsBefore(t, d, d.rest);
    }
    IterativeRefinesRecursive(t);
    PunctuationIsRefused(t);
  }

  lemma PunctuationIsRefused(t: Job)
    ensures RootIsPunctuation(t) ==> IterativeDocument(t).Failed?
  {
    IterativeRefinesRecursive(t);
  }

  // ----- control characters

  /** Of the control characters, only the four that may stand between tokens. */
  predicate NoControl(s: seq<int>) {
    forall i | 0 <= i < |s| :: s[i] >= 0x20 || s[i] in Codes(" \n\r\t")
  }

  lemma {:induction false} GapHasNoControl(g: Gap)
    requires IsGap(g, false)
    ensures NoControl(GapText(g))
    decreases |g|
  {
    if g != [] {
      assert IsFiller(g[0], false);
      GapHasNoControl(g[1..]);
    }
  }

  lemma {:induction false} SpellingHasNoControl(s: seq<Piece>)
    requires ArePieces(s)
    ensures NoControl(Spelling(s))
    decreases |s|
  {
    if s != [] {
      PieceHasNoControl(s[0]);
      SpellingHasNoControl(s[1..]);
      hide PieceText, IsPiece;
    }
  }

  lemma HexCharIsPlain(d: nat, upper: bool)
    requires d < 16
    ensures HexChar(d, upper) >= 0x30
  {
    var c := HexChar(d, upper);
    assert c == if d < 10 then '0' as int + d else if upper then 'A' as int + (d - 10) else 'a' as int + (d - 10);
  }

  lemma UnitHasNoControl(u: nat, upper: seq<bool>)
    requires u < 0x10000 && |upper| == 4
    ensures NoControl(UnitText(u, upper))
  {
    hide HexChar;
    HexCharIsPlain(u / 0x1000, upper[0]);
    HexCharIsPlain(u / 0x100 % 16, upper[1]);
    HexCharIsPlain(u / 0x10 % 16, upper[2]);
    HexCharIsPlain(u % 16, upper[3]);
    assert Codes("\\u") == ['\\' as int, 'u' as int];
  }

  lemma PieceHasNoControl(p: Piece)
    requires IsPiece(p)
    ensures NoControl(PieceText(p))
  {
    match p
    case Plain(_) =>
    case Letter(e) =>
      assert Codes("\"\\/bfnrt") == ['"' as int, '\\' as int, '/' as int, 'b' as int, 'f' as int, 'n' as int, 'r' as int, 't' as int];
    case Unicode(c, upper) =>
      hide UnitText, NoControl;
      if c < 0x10000 {
        UnitHasNoControl(c, upper[..4]);
      } else {
        UnitHasNoControl(0xD800 + (c - 0x10000) / 0x400, upper[..4]);
        UnitHasNoControl(0xDC00 + (c - 0x10000) % 0x400, upper[4..]);
        NoControlJoin(UnitText(0xD800 + (c - 0x10000) / 0x400, upper[..4]), UnitText(0xDC00 + (c - 0x10000) % 0x400, upper[4..]));
      }
  }

  lemma NumeralHasNoControl(m: Numeral)
    requires IsNumeral(m)
    ensures NoControl(NumeralText(m))
  {
    DecimalDigits(m.n);
    hide Decimal;
  }

  lemma NoControlJoin(s: seq<int>, u: seq<int>)
    requires NoControl(s) && NoControl(u)
    ensures NoControl(s + u)
  {
  }

  lemma NoControlAround(a: seq<int>, b: seq<int>, c: seq<int>)
    requires NoControl(a) && NoControl(b) && NoControl(c)
    ensures NoControl(a + (b + c))
  {
    hide NoControl;
    NoControlJoin(b, c);
    NoControlJoin(a, b + c);
  }

  lemma NoControlMarks()
    ensures NoControl([]) && NoControl(['"' as int]) && NoControl([',' as int]) && NoControl([':' as int])
    ensures NoControl(['[' as int]) && NoControl([']' as int]) && NoControl(['{' as int]) && NoControl(['}' as int])
    ensures NoControl(Codes("null")) && NoControl(Codes("true")) && NoControl(Codes("false"))
  {
  }

  lemma StringHasNoControl(pieces: seq<Piece>)
    requires ArePieces(pieces)
    ensures NoControl(StringText(pieces))
  {
    hide NoControl, Spelling;
    NoControlMarks();
    SpellingHasNoControl(pieces);
    NoControlAround(['"' as int], Spelling(pieces), ['"' as int]);
  }

  lemma {:induction false} LaidHasNoControl(t: Job, v: Laid)
    requires IsLaid(t, v) && !t.comments
    ensures NoControl(LaidText(t, v))
    decreases v, 2
  {
    hide NoControl, NumeralText, StringText, ElementsText, EntriesText, GapText, Codes;
    NoControlMarks();
    match v
    case LaidNull =>
    case LaidBool(_) =>
    case LaidString(pieces) =>
      StringHasNoControl(pieces);
    case LaidNumber(m) =>
      NumeralHasNoControl(m);
    case LaidArray(space, elements, comma) =>
      GapHasNoControl(space);
      var content := if elements == [] then [] else ElementsText(t, elements, comma);
      if elements != [] {
        ElementsHaveNoControl(t, elements, comma);
      }
      NoControlJoin(content, [']' as int]);
      NoControlAround(['[' as int], GapText(space), content + [']' as int]);
    case LaidObject(space, members, comma) =>
      GapHasNoControl(space);
      var content := if members == [] then [] else EntriesText(t, members, comma);
      if members != [] {
        EntriesHaveNoControl(t, members, comma);
      }
      NoControlJoin(content, ['}' as int]);
      NoControlAround(['{' as int], GapText(space), content + ['}' as int]);
  }

  lemma {:induction false} ElementsHaveNoControl(t: Job, elements: seq<Element>, comma: bool)
    requires AreElements(t, elements) && elements != [] && !t.comments
    ensures NoControl(ElementsText(t, elements, comma))
    decreases elements, 1
  {
    hide NoControl, LaidText, GapText, IsLaid;
    NoControlMarks();
    var e := elements[0];
    assert IsElement(t, e);
    LaidHasNoControl(t, e.value);
    GapHasNoControl(e.after);
    GapHasNoControl(e.next);
    if |elements| > 1 {
      ElementsHaveNoControl(t, elements[1..], comma);
      NoControlAround([',' as int], GapText(e.next), ElementsText(t, elements[1..], comma));
    } else {
      NoControlJoin([',' as int], GapText(e.next));
    }
    NoControlAround(LaidText(t, e.value), GapText(e.after), ElementsTail(t, elements, comma));
  }

  lemma {:induction false} EntryHasNoControl(t: Job, m: Entry)
    requires IsEntry(t, m) && !t.comments
    ensures NoControl(EntryText(t, m))
    decreases m, 2
  {
    hide NoControl, LaidText, GapText, IsLaid, StringText;
    NoControlMarks();
    StringHasNoControl(m.name);
    LaidHasNoControl(t, m.value);
    GapHasNoControl(m.before);
    GapHasNoControl(m.colon);
    NoControlAround([':' as int], GapText(m.colon), LaidText(t, m.value));
    NoControlAround(StringText(m.name), GapText(m.before), [':' as int] + (GapText(m.colon) + LaidText(t, m.value)));
  }

  lemma {:induction false} EntriesHaveNoControl(t: Job, members: seq<Entry>, comma: bool)
    requires AreEntries(t, members) && members != [] && !t.comments
    ensures NoControl(EntriesText(t, members, comma))
    decreases members, 1
  {
    hide NoControl, EntryText, GapText, IsLaid;
    NoControlMarks();
    var m := members[0];
    assert IsEntry(t, m);
    EntryHasNoControl(t, m);
    GapHasNoControl(m.after);
    GapHasNoControl(m.next);
    if |members| > 1 {
      EntriesHaveNoControl(t, members[1..], comma);
      NoControlAround([',' as int], GapText(m.next), EntriesText(t, members[1..], comma));
    } else {
      NoControlJoin([',' as int], GapText(m.next));
    }
    NoControlAround(EntryText(t, m), GapText(m.after), EntriesTail(t, members, comma));
  }

  lemma LayoutHasNoControl(t: Job, d: Layout)
    requires IsLayout(t, d) && !t.comments
    ensures var s := LayoutText(t, d); forall i | 0 <= i < |s| - |d.rest| :: s[i] >= 0x20 || s[i] in Codes(" \n\r\t")
  {
    hide LaidText, GapText, IsLaid, NoControl;
    GapHasNoControl(d.before);
    LaidHasNoControl(t, d.value);
    GapHasNoControl(d.after);
    var b, v, a := GapText(d.before), LaidText(t, d.value), GapText(d.after);
    NoControlAround(b, v, a);
    Parts(b, v, a, d.tail, d.rest);
    assert a + d.tail == a;
    var read := b + (v + (a + d.tail));
    assert LayoutText(t, d) == read + d.rest;
    BeforeRest(read, d.rest);
  }

  lemma BeforeRest(read: seq<int>, rest: seq<int>)
    requires NoControl(read)
    ensures forall i | 0 <= i < |read| :: (read + rest)[i] >= 0x20 || (read + rest)[i] in Codes(" \n\r\t")
  {
  }

  /** Without comments, any control character but the four blanks is refused wherever it stands. */
  lemma ControlIsRefused(t: Job, i: nat)
    requires AreBytes(t.src) && !t.comments && i < |t.src| && t.src[i] < 0x20 && t.src[i] !in Codes(" \n\r\t")
    ensures Document(t).Going? ==> Document(t).pos <= i
    ensures IterativeDocument(t).Going? ==> IterativeDocument(t).pos <= i
  {
    hide Document, IterativeDocument, LayoutText, LaidEvents, IsLayout, AreBytes, Codes;
    IterativeRefinesRecursive(t);
    PunctuationIsRefused(t);
    if Document(t).Going? {
      var d := AcceptedIsLaid(t);
      LayoutHasNoControl(t, d);
    }
  }

  // ----- errors around values

  lemma {:induction false} MatchesUpTo(src: Text, pos: nat, word: seq<int>, k: nat)
    requires k < |word| && At(src, pos, word[..k]) && Peek(src, pos + k) != word[k]
    ensures MatchWord(src, pos, word) == (false, pos + k)
    decreases |word|
  {
    if k > 0 {
      AtFirst(src, pos, word[..k]);
      assert word[..k][1..] == word[1..][..k - 1];
      MatchesUpTo(src, pos + 1, word[1..], k - 1);
    }
  }

  lemma WrongLiteral(t: Job, pos: nat, events: seq<Event>, first: int, rest: seq<int>, e: Event, k: nat)
    requires k < |rest| && At(t.src, pos, [first] + rest[..k]) && Peek(t.src, pos + 1 + k) != rest[k]
    ensures Peek(t.src, pos) == first && Literal(t, pos, events, rest, e) == Failed(ValueInvalid, pos + 1 + k, events)
  {
    hide At, MatchWord;
    AtFirst(t.src, pos, [first] + rest[..k]);
    assert ([first] + rest[..k])[1..] == rest[..k];
    MatchesUpTo(t.src, pos + 1, rest, k);
  }

  /** A literal that goes wrong is refused at the first character that is wrong. */
  lemma WrongWord(t: Job, pos: nat, events: seq<Event>, word: string, k: nat)
    requires word in {"null", "true", "false"} && 0 < k < |word|
    requires At(t.src, pos, Codes(word)[..k]) && Peek(t.src, pos + k) != Codes(word)[k]
    ensures Value(t, pos, events) == Failed(ValueInvalid, pos + k, events)
  {
    hide At, Peek, Literal, QuotedString, NumberAt;
    WordsWrittenOut();
    if word == "null" {
      assert Codes(word)[..k] == [LOWER_N] + NULL_REST[..k - 1];
      WrongLiteral(t, pos, events, LOWER_N, NULL_REST, Null, k - 1);
    } else if word == "true" {
      assert Codes(word)[..k] == [LOWER_T] + TRUE_REST[..k - 1];
      WrongLiteral(t, pos, events, LOWER_T, TRUE_REST, Bool(true), k - 1);
    } else {
      assert Codes(word)[..k] == [LOWER_F] + FALSE_REST[..k - 1];
      WrongLiteral(t, pos, events, LOWER_F, FALSE_REST, Bool(false), k - 1);
    }
  }

  /** A text of nothing but white space and comments is empty, and both parsers say so at its end. */
  lemma EmptyDocument(t: Job, g: Gap, tail: seq<int>, rest: seq<int>)
    requires IsGap(g, t.comments) && IsLastComment(tail, t.comments) && t.src == GapText(g) + (tail + rest)
    requires rest == [] || rest[0] == 0
    ensures Document(t) == IterativeDocument(t) == Failed(DocumentEmpty, |t.src| - |rest|, [])
  {
    hide At, GapText, IsGap, IsLastComment, Peek, Skip;
    AtWhole(t.src);
    AtSplit(t.src, 0, GapText(g), tail + rest);
    AtSplit(t.src, |GapText(g)|, tail, rest);
    var p := |GapText(g)| + |tail|;
    PeekRest(t.src, p, rest);
    SkipsToEnd(t.src, t.comments, 0, g, tail);
  }

  /** Anything but white space and comments after the root is refused where it begins, unless the parse is to stop
      before it. */
  lemma RootIsNotSingular(t: Job, d: Layout)
    requires AcceptsAll(t) && IsLayout(t, d) && t.src == LayoutText(t, d) && !t.stopWhenDone && d.tail == []
    requires d.rest != [] && d.rest[0] != 0 && NotSkipped(d.rest[0]) && EndsNumber(d.rest[0])
    ensures Document(t) == IterativeDocument(t) == Failed(DocumentRootNotSingular, |t.src| - |d.rest|, LaidEvents(d.value))
  {
    hide *;
    LayoutParts(t, d);
    var p := |GapText(d.before)|;
    var q := p + |LaidText(t, d.value)|;
    var end := q + |GapText(d.after)|;
    PeekRest(t.src, end, d.rest);
    Separators();
    HeadAt(t, p, d.value);
    SkipsAt(t, 0, [], d.before);
    AfterGap(t.src, q, d.after, t.comments);
    ReadsLaid(t, p, [], d.value);
    NothingBefore(LaidEvents(d.value));
    SkipsAt(t, q, LaidEvents(d.value), d.after);
    DocumentGoesWrong(t, p, Going(q, LaidEvents(d.value)), end);
    IterativeRefinesRecursive(t);
    FailsInTheSamePlace(t);
  }

  lemma DocumentGoesWrong(t: Job, p: nat, v: Parse, end: nat)
    requires SkipAt(t, 0, []) == Going(p, []) && Peek(t.src, p) != 0 && Value(t, p, []) == v && v.Going? && !t.stopWhenDone
    requires SkipAt(t, v.pos, v.events) == Going(end, v.events) && Peek(t.src, end) != 0
    ensures Document(t) == Failed(DocumentRootNotSingular, end, v.events)
  {
    hide SkipAt, Value;
  }

  lemma FailsInTheSamePlace(t: Job)
    ensures Document(t).Failed? && Document(t).code != Termination && Document(t).code != ValueInvalid ==>
              IterativeDocument(t) == Document(t)
  {
    IterativeRefinesRecursive(t);
  }
}
