/** What a document keeps of a text: for every accepted text, the one value on its stack has exactly the events that
    were parsed. */
module JsonFidelity {
  import opened JsonLexer
  import opened JsonParser
  import opened JsonAutomaton
  import opened JsonTree
  import opened JsonNesting
  import opened JsonDocument
  import opened Wrappers

  /** An event with its integer called as `Accept` calls it. */
  function Normal(e: Event): Event {
    if e.Num? && !e.n.Double? then Num(AcceptedAs(e.n.i)) else e
  }

  function NormalAll(events: seq<Event>): seq<Event> {
    seq(|events|, i requires 0 <= i < |events| => Normal(events[i]))
  }

  // ----- what is on the stack

  /** How many values of a container are on the stack above it; `inside` when another container is open in it. */
  function Items(s: Scope, inside: bool): int {
    if s.isObject then if inside || s.awaiting then 2 * s.children - 1 else 2 * s.children
    else if inside then s.children - 1
    else s.children
  }

  function NameOf(v: Tree): seq<int> {
    if v.StringValue? then v.s else []
  }

  /** The events of names and values, in turns. */
  function PairEvents(items: seq<Tree>): seq<Event> {
    if items == [] then []
    else if |items| == 1 then [Key(NameOf(items[0]))]
    else [Key(NameOf(items[0]))] + (Events(items[1], false) + PairEvents(items[2..]))
  }

  function Content(isObject: bool, items: seq<Tree>): seq<Event> {
    if isObject then PairEvents(items) else ElementEvents(items, false)
  }

  /** The stack has the values of every open container, each above the container's own place. */
  predicate Holds(stack: seq<Tree>, scopes: seq<Scope>, inside: bool)
    decreases |scopes|
  {
    if scopes == [] then if inside then stack == [] else |stack| <= 1
    else
      var s := scopes[|scopes| - 1];
      var n := Items(s, inside);
      0 <= n < |stack| && (inside && s.isObject ==> !s.awaiting) && Holds(stack[..|stack| - n - 1], scopes[..|scopes| - 1], true)
  }

  function Start(isObject: bool): Event {
    if isObject then StartObject else StartArray
  }

  /** The events that put these values there. */
  function Replay(stack: seq<Tree>, scopes: seq<Scope>, inside: bool): seq<Event>
    requires Holds(stack, scopes, inside)
    decreases |scopes|
  {
    if scopes == [] then ElementEvents(stack, false)
    else
      var s := scopes[|scopes| - 1];
      var at := |stack| - Items(s, inside);
      Replay(stack[..at - 1], scopes[..|scopes| - 1], true) + ([Start(s.isObject)] + Content(s.isObject, stack[at..]))
  }

  // ----- one value more

  lemma {:induction false} ElementEventsMore(items: seq<Tree>, v: Tree)
    ensures ElementEvents(items + [v], false) == ElementEvents(items, false) + Events(v, false)
    decreases |items|
  {
    if items == [] {
      assert items + [v] == [v] && [v][1..] == [];
      assert ElementEvents([], false) == [];
    } else {
      assert (items + [v])[1..] == items[1..] + [v];
      ElementEventsMore(items[1..], v);
    }
    hide Events;
  }

  lemma {:induction false} PairEventsMore(items: seq<Tree>, v: Tree)
    ensures PairEvents(items + [v]) == PairEvents(items) + if |items| % 2 == 0 then [Key(NameOf(v))] else Events(v, false)
    decreases |items|
  {
    hide Events, NameOf;
    if items == [] {
      assert items + [v] == [v];
    } else if |items| == 1 {
      assert items + [v] == [items[0], v] && (items + [v])[2..] == [];
      assert PairEvents([]) == [];
    } else {
      assert (items + [v])[2..] == items[2..] + [v];
      PairEventsMore(items[2..], v);
    }
  }

  lemma {:induction false} PairEventsAreMemberEvents(items: seq<Tree>)
    requires |items| % 2 == 0
    ensures MemberEvents(Pairs(items), false) == PairEvents(items)
    decreases |items|
  {
    hide Events;
    if items != [] {
      PairEventsAreMemberEvents(items[2..]);
      assert Pairs(items)[1..] == Pairs(items[2..]);
    }
  }

  /** A container's content and end are the container's events. */
  lemma ContainerEvents(isObject: bool, items: seq<Tree>, count: nat)
    requires |items| == if isObject then 2 * count else count
    ensures var v := if isObject then ObjectValue(Pairs(items)) else ArrayValue(items);
            Events(v, false) == [Start(isObject)] + (Content(isObject, items) + [if isObject then EndObject(count) else EndArray(count)])
  {
    if isObject {
      PairEventsAreMemberEvents(items);
    }
    hide PairEvents, MemberEvents, ElementEvents, Pairs;
  }

  lemma {:induction false} ContentMore(isObject: bool, items: seq<Tree>, v: Tree)
    requires isObject ==> |items| % 2 == 1
    ensures Content(isObject, items + [v]) == Content(isObject, items) + Events(v, false)
  {
    if isObject {
      PairEventsMore(items, v);
    } else {
      ElementEventsMore(items, v);
    }
    hide PairEvents, ElementEvents, Events;
  }

  /** Entering a value changes neither the stack nor its events. */
  lemma EnterHolds(stack: seq<Tree>, n: Nest)
    requires Holds(stack, n.scopes, false) && Enter(n).Some? && (n.scopes == [] ==> stack == [])
    ensures var scopes := Enter(n).value.scopes;
            Holds(stack, scopes, true) && Replay(stack, scopes, true) == Replay(stack, n.scopes, false)
  {
    if n.scopes != [] {
      var top := |n.scopes| - 1;
      var scopes := Enter(n).value.scopes;
      assert scopes[..top] == n.scopes[..top];
      var at := |stack| - Items(n.scopes[top], false);
      assert Items(scopes[top], true) == Items(n.scopes[top], false) && scopes[top].isObject == n.scopes[top].isObject;
      assert Replay(stack, scopes, true)
          == Replay(stack[..at - 1], n.scopes[..top], true) + ([Start(scopes[top].isObject)] + Content(scopes[top].isObject, stack[at..]));
      hide Content;
    }
  }

  /** A value put where one is due. */
  lemma PutHolds(stack: seq<Tree>, scopes: seq<Scope>, v: Tree)
    requires Holds(stack, scopes, true)
    ensures Holds(stack + [v], scopes, false)
    ensures Replay(stack + [v], scopes, false) == Replay(stack, scopes, true) + Events(v, false)
  {
    hide Content, Events, ElementEvents;
    if scopes == [] {
      ElementEventsMore(stack, v);
    } else {
      var s := scopes[|scopes| - 1];
      var at := |stack| - Items(s, true);
      var init := scopes[..|scopes| - 1];
      assert (stack + [v])[..at - 1] == stack[..at - 1] && (stack + [v])[at..] == stack[at..] + [v];
      ContentMore(s.isObject, stack[at..], v);
      var r := Replay(stack[..at - 1], init, true);
      Regroup(r, [Start(s.isObject)], Content(s.isObject, stack[at..]), Events(v, false));
    }
  }

  lemma Regroup(a: seq<Event>, b: seq<Event>, c: seq<Event>, d: seq<Event>)
    ensures a + (b + c) + d == a + (b + (c + d))
  {
  }

  /** A container opened. */
  lemma OpenHolds(stack: seq<Tree>, n: Nest, isObject: bool, v: Tree)
    requires Holds(stack, n.scopes, false) && Enter(n).Some? && (n.scopes == [] ==> stack == [])
    ensures var scopes := Begin(n, isObject).value.scopes;
            && Holds(stack + [v], scopes, false)
            && Replay(stack + [v], scopes, false) == Replay(stack, n.scopes, false) + [Start(isObject)]
  {
    EnterHolds(stack, n);
    NewScope(stack, Enter(n).value.scopes, isObject, v);
    hide Enter, Holds, Replay;
  }

  lemma NewScope(stack: seq<Tree>, outer: seq<Scope>, isObject: bool, v: Tree)
    requires Holds(stack, outer, true)
    ensures var scopes := outer + [Scope(isObject, 0, false)];
            && Holds(stack + [v], scopes, false)
            && Replay(stack + [v], scopes, false) == Replay(stack, outer, true) + [Start(isObject)]
  {
    var scopes := outer + [Scope(isObject, 0, false)];
    assert scopes[..|outer|] == outer;
    assert (stack + [v])[..|stack|] == stack && (stack + [v])[|stack| + 1..] == [];
    assert Content(isObject, []) == [];
    hide Content;
  }

  /** A container closed. */
  lemma CloseHolds(stack: seq<Tree>, n: Nest, isObject: bool, count: nat)
    requires Holds(stack, n.scopes, false) && End(n, isObject, count).Some?
    ensures var e := if isObject then EndObject(count) else EndArray(count);
            var scopes := End(n, isObject, count).value.scopes;
            && CanHandle(stack, e) && Holds(Handled(stack, e), scopes, false) && Handled(stack, e) != []
            && Replay(Handled(stack, e), scopes, false) == Replay(stack, n.scopes, false) + [e]
  {
    hide Content, Events, Pairs;
    var e := if isObject then EndObject(count) else EndArray(count);
    var k := if isObject then 2 * count else count;
    var at, init := |stack| - k, n.scopes[..|n.scopes| - 1];
    var items := stack[at..];
    var v := if isObject then ObjectValue(Pairs(items)) else ArrayValue(items);
    assert n.scopes[|n.scopes| - 1] == Scope(isObject, count, false);
    assert Handled(stack, e) == stack[..at - 1] + [v];
    PutHolds(stack[..at - 1], init, v);
    ContainerEvents(isObject, items, count);
    Regroup(Replay(stack[..at - 1], init, true), [Start(isObject)], Content(isObject, items), [e]);
  }

  /** A name. */
  lemma NameHolds(stack: seq<Tree>, n: Nest, s: seq<int>)
    requires Holds(stack, n.scopes, false) && Name(n).Some?
    ensures var scopes := Name(n).value.scopes;
            && Holds(stack + [StringValue(s)], scopes, false)
            && Replay(stack + [StringValue(s)], scopes, false) == Replay(stack, n.scopes, false) + [Key(s)]
  {
    hide PairEvents;
    var v, top := StringValue(s), |n.scopes| - 1;
    var scopes := Name(n).value.scopes;
    var at := |stack| - 2 * n.scopes[top].children;
    assert scopes[..top] == n.scopes[..top] && Items(scopes[top], false) == Items(n.scopes[top], false) + 1;
    assert (stack + [v])[..at - 1] == stack[..at - 1] && (stack + [v])[at..] == stack[at..] + [v];
    PairEventsMore(stack[at..], v);
    Regroup(Replay(stack[..at - 1], n.scopes[..top], true), [StartObject], PairEvents(stack[at..]), [Key(s)]);
  }

  // ----- runs

  /** The document's stack after the events of a parse under way. */
  predicate Follows(stack: seq<Tree>, n: Nest, events: seq<Event>) {
    && Holds(stack, n.scopes, false) && Replay(stack, n.scopes, false) == NormalAll(events)
    && (if n.scopes == [] then stack == [] <==> !n.rooted else n.rooted)
  }

  lemma NormalMore(events: seq<Event>, e: Event)
    ensures NormalAll(events + [e]) == NormalAll(events) + [Normal(e)]
  {
  }

  lemma HandlesNext(stack: seq<Tree>, n: Nest, events: seq<Event>, e: Event)
    requires Follows(stack, n, events) && NestAfter(n, e).Some?
    ensures CanHandle(stack, e) && Follows(Handled(stack, e), NestAfter(n, e).value, events + [e])
  {
    NormalMore(events, e);
    hide NormalAll, Holds, Replay;
    match e
    case Key(s) =>
      NameHolds(stack, n, s);
    case StartObject =>
      OpenHolds(stack, n, true, ObjectValue([]));
    case StartArray =>
      OpenHolds(stack, n, false, ArrayValue([]));
    case EndObject(count) =>
      CloseHolds(stack, n, true, count);
    case EndArray(count) =>
      CloseHolds(stack, n, false, count);
    case _ =>
      var v := Handled([], e)[0];
      EnterHolds(stack, n);
      PutHolds(stack, Enter(n).value.scopes, v);
      assert Handled(stack, e) == stack + [v] && Events(v, false) == [Normal(e)];
  }

  /** Whatever nests can be handled: no handler call takes more from the stack than there is. */
  lemma {:induction false} NestedEventsBuild(events: seq<Event>)
    requires Nests(events)
    ensures Built([], events).Some? && Follows(Built([], events).value, NestOf(events).value, events)
    decreases |events|
  {
    if events == [] {
      assert NormalAll([]) == [];
    } else {
      var init, e := events[..|events| - 1], events[|events| - 1];
      assert events == init + [e];
      NestedEventsBuild(init);
      NestOneMore(init, e);
      HandlesNext(Built([], init).value, NestOf(init).value, init, e);
      BuiltCat([], init, [e]);
      BuiltOne(Built([], init).value, e);
      hide Built, NestOf, Follows, Handled, CanHandle, NestAfter;
    }
  }

  /** For every text that either parser accepts, under any flags and for any handler: the document's stack ends up
      with one value, and `Accept` on it gives the events of the parse. */
  lemma DocumentHasTheEvents(t: Job)
    requires Document(t).Going?
    ensures var built := Built([], Document(t).events);
            built.Some? && |built.value| == 1 && Events(built.value[0], false) == NormalAll(Document(t).events)
    ensures IterativeDocument(t).events == Document(t).events
  {
    hide Document, IterativeDocument, Built, NestOf, NormalAll, Events;
    EventsNest(t);
    IterativeRefinesRecursive(t);
    var events := Document(t).events;
    NestedEventsBuild(events);
    OneValue(Built([], events).value);
  }

  lemma OneValue(stack: seq<Tree>)
    ensures |stack| == 1 ==> ElementEvents(stack, false) == Events(stack[0], false)
  {
    if |stack| == 1 {
      assert stack == [] + [stack[0]];
      ElementEventsMore([], stack[0]);
    }
    hide Events;
  }
}
