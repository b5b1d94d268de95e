/** How events nest, and what the stack of the table-driven parser has to do with it. */
module JsonNesting {
  import opened Ascii
  import opened JsonAutomaton
  import opened JsonLexer
  import opened JsonParser
  import opened Texts
  import opened Utf8
  import opened Wrappers

  // ----- well-nested event sequences

  /** An open container: how many children it has, and whether its last name still awaits its value. */
  datatype Scope = Scope(isObject: bool, children: nat, awaiting: bool)

  /** The open containers, outermost first, and whether the root has been seen. */
  datatype Nest = Nest(scopes: seq<Scope>, rooted: bool)

  /** A value begins here: it is the root, the next element, or what a name awaits. */
  function Enter(n: Nest): Option<Nest> {
    if n.scopes == [] then if n.rooted then None else Some(n.(rooted := true))
    else
      var top := |n.scopes| - 1;
      var s := n.scopes[top];
      if !s.isObject then Some(n.(scopes := n.scopes[top := s.(children := s.children + 1)]))
      else if s.awaiting then Some(n.(scopes := n.scopes[top := s.(awaiting := false)]))
      else None
  }

  function Begin(n: Nest, isObject: bool): Option<Nest> {
    match Enter(n)
    case None => None
    case Some(n') => Some(n'.(scopes := n'.scopes + [Scope(isObject, 0, false)]))
  }

  /** A container ends: it is the innermost one, no name awaits a value, and it has as many children as announced. */
  function End(n: Nest, isObject: bool, count: nat): Option<Nest> {
    if n.scopes != [] && n.scopes[|n.scopes| - 1] == Scope(isObject, count, false) then Some(n.(scopes := n.scopes[..|n.scopes| - 1]))
    else None
  }

  function Name(n: Nest): Option<Nest> {
    if n.scopes == [] then None
    else
      var top := |n.scopes| - 1;
      var s := n.scopes[top];
      if s.isObject && !s.awaiting then Some(n.(scopes := n.scopes[top := Scope(true, s.children + 1, true)])) else None
  }

  function NestAfter(n: Nest, e: Event): Option<Nest> {
    match e
    case Key(_) => Name(n)
    case StartObject => Begin(n, true)
    case StartArray => Begin(n, false)
    case EndObject(count) => End(n, true, count)
    case EndArray(count) => End(n, false, count)
    case _ => Enter(n)
  }

  /** What is open after the events, if they nest. */
  function NestOf(events: seq<Event>): Option<Nest> {
    if events == [] then Some(Nest([], false))
    else
      match NestOf(events[..|events| - 1])
      case None => None
      case Some(n) => NestAfter(n, events[|events| - 1])
  }

  predicate Nests(events: seq<Event>) {
    NestOf(events).Some?
  }

  /** The events of one value, from the first to the last. */
  predicate IsComplete(events: seq<Event>) {
    NestOf(events) == Some(Nest([], true))
  }

  lemma NestOneMore(events: seq<Event>, e: Event)
    requires Nests(events)
    ensures NestOf(events + [e]) == NestAfter(NestOf(events).value, e)
  {
    assert (events + [e])[..|events|] == events;
  }

  // ----- the stack of the automaton

  /** The innermost container, its frame and the state. */
  predicate TopMatches(state: State, f: Frame, s: Scope) {
    match state
    case ObjectInitialState => s == Scope(true, 0, false) && f.count == 0
    case MemberDelimiterState => s == Scope(true, f.count, false)
    case MemberKeyState => s == Scope(true, f.count + 1, true)
    case KeyValueDelimiterState => s == Scope(true, f.count + 1, true)
    case MemberValueState => s == Scope(true, f.count + 1, false)
    case ArrayInitialState => s == Scope(false, 0, false) && f.count == 0
    case ElementDelimiterState => s == Scope(false, f.count, false)
    case ElementState => s == Scope(false, f.count + 1, false)
    case _ => false
  }

  /** The state the parser returns to when the container inside `scopes[i]` ends. */
  function ResumeIn(scopes: seq<Scope>, i: nat): State
    requires i <= |scopes|
  {
    if i == 0 then StartState else if scopes[i - 1].isObject then MemberValueState else ElementState
  }

  /** A container with another one open inside. */
  predicate OuterMatches(f: Frame, s: Scope) {
    s.children == f.count + 1 && !s.awaiting
  }

  predicate ResumesMatch(frames: seq<Frame>, scopes: seq<Scope>) {
    |frames| == |scopes| && forall i | 0 <= i < |frames| :: frames[i].resume == ResumeIn(scopes, i)
  }

  predicate OutersMatch(frames: seq<Frame>, scopes: seq<Scope>) {
    |frames| == |scopes| && forall i | 0 <= i < |frames| - 1 :: OuterMatches(frames[i], scopes[i])
  }

  predicate StackMatches(state: State, frames: seq<Frame>, n: Nest) {
    && |frames| == |n.scopes| && ResumesMatch(frames, n.scopes) && OutersMatch(frames, n.scopes)
    && (n.rooted <==> state != StartState)
    && (if frames == [] then state == StartState || state == FinishState else TopMatches(state, frames[|frames| - 1], n.scopes[|frames| - 1]))
  }

  /** The stack is the list of the open containers. */
  predicate Matches(m: Machine) {
    Nests(m.events) && StackMatches(m.state, m.frames, NestOf(m.events).value)
  }

  lemma MatchesOk(m: Machine)
    requires Matches(m)
    ensures MachineOk(m)
  {
    var n := NestOf(m.events).value;
    assert forall i | 0 <= i < |m.frames| :: m.frames[i].resume == ResumeIn(n.scopes, i);
  }

  /** Changing the top of both stacks, but not what kind of container it is. */
  lemma TopChanged(frames: seq<Frame>, scopes: seq<Scope>, f: Frame, s: Scope)
    requires frames != [] && ResumesMatch(frames, scopes) && OutersMatch(frames, scopes)
    requires f.resume == frames[|frames| - 1].resume && s.isObject == scopes[|frames| - 1].isObject
    ensures var frames', scopes' := frames[|frames| - 1 := f], scopes[|frames| - 1 := s];
            ResumesMatch(frames', scopes') && OutersMatch(frames', scopes')
  {
    hide OuterMatches;
    var frames', scopes' := frames[|frames| - 1 := f], scopes[|frames| - 1 := s];
    forall i | 0 <= i < |frames'|
      ensures frames'[i].resume == ResumeIn(scopes', i)
    {
      SameKindSameResume(scopes, s, i);
      hide ResumeIn, OutersMatch;
      assert frames'[i].resume == frames[i].resume;
    }
    hide ResumeIn;
    forall i | 0 <= i < |frames'| - 1
      ensures OuterMatches(frames'[i], scopes'[i])
    {
      assert frames'[i] == frames[i] && scopes'[i] == scopes[i];
    }
  }

  lemma SameKindSameResume(scopes: seq<Scope>, s: Scope, i: nat)
    requires scopes != [] && i <= |scopes| && s.isObject == scopes[|scopes| - 1].isObject
    ensures ResumeIn(scopes[|scopes| - 1 := s], i) == ResumeIn(scopes, i)
  {
  }

  lemma TopPushed(frames: seq<Frame>, scopes: seq<Scope>, f: Frame, s: Scope)
    requires ResumesMatch(frames, scopes) && OutersMatch(frames, scopes)
    requires frames != [] ==> OuterMatches(frames[|frames| - 1], scopes[|frames| - 1])
    requires f.resume == ResumeIn(scopes, |scopes|)
    ensures ResumesMatch(frames + [f], scopes + [s]) && OutersMatch(frames + [f], scopes + [s])
  {
    hide *;
    PushedResumes(frames, scopes, f, s);
    PushedOuters(frames, scopes, f, s);
  }

  lemma PushedResumes(frames: seq<Frame>, scopes: seq<Scope>, f: Frame, s: Scope)
    requires ResumesMatch(frames, scopes) && f.resume == ResumeIn(scopes, |scopes|)
    ensures ResumesMatch(frames + [f], scopes + [s])
  {
    var frames', scopes' := frames + [f], scopes + [s];
    forall i | 0 <= i < |frames'|
      ensures frames'[i].resume == ResumeIn(scopes', i)
    {
      SameResume(scopes, s, i);
      hide ResumeIn;
      assert i < |frames| ==> frames'[i] == frames[i];
    }
  }

  lemma SameResume(scopes: seq<Scope>, s: Scope, i: nat)
    requires i <= |scopes|
    ensures ResumeIn(scopes + [s], i) == ResumeIn(scopes, i)
  {
  }

  lemma PushedOuters(frames: seq<Frame>, scopes: seq<Scope>, f: Frame, s: Scope)
    requires OutersMatch(frames, scopes)
    requires frames != [] ==> OuterMatches(frames[|frames| - 1], scopes[|frames| - 1])
    ensures OutersMatch(frames + [f], scopes + [s])
  {
    hide OuterMatches;
    var frames', scopes' := frames + [f], scopes + [s];
    forall i | 0 <= i < |frames'| - 1
      ensures OuterMatches(frames'[i], scopes'[i])
    {
      assert frames'[i] == frames[i] && scopes'[i] == scopes[i];
    }
  }

  lemma TopPopped(frames: seq<Frame>, scopes: seq<Scope>)
    requires frames != [] && ResumesMatch(frames, scopes) && OutersMatch(frames, scopes)
    ensures ResumesMatch(Popped(frames), PoppedScopes(scopes)) && OutersMatch(Popped(frames), PoppedScopes(scopes))
    ensures frames[|frames| - 1].resume == ResumeIn(scopes, |frames| - 1)
    ensures |frames| > 1 ==> OuterMatches(frames[|frames| - 2], scopes[|frames| - 2])
  {
    var frames', scopes' := Popped(frames), PoppedScopes(scopes);
    forall i | 0 <= i < |frames'|
      ensures frames'[i].resume == ResumeIn(scopes', i)
    {
      assert frames[i].resume == ResumeIn(scopes, i);
    }
  }

  function PoppedScopes(scopes: seq<Scope>): seq<Scope>
    requires scopes != []
  {
    scopes[..|scopes| - 1]
  }

  lemma ScalarKeeps(state: State, frames: seq<Frame>, n: Nest)
    requires StackMatches(state, frames, n) && AwaitsValue(state)
    ensures Enter(n).Some? && StackMatches(AfterValue(state), frames, Enter(n).value)
  {
    hide ResumesMatch, OutersMatch;
    if frames != [] {
      var top := |frames| - 1;
      TopChanged(frames, n.scopes, frames[top], Enter(n).value.scopes[top]);
      assert frames[top := frames[top]] == frames;
    }
  }

  lemma OpenKeeps(state: State, frames: seq<Frame>, n: Nest, isObject: bool)
    requires StackMatches(state, frames, n) && AwaitsValue(state)
    ensures var n' := Begin(n, isObject);
            n'.Some? && StackMatches(if isObject then ObjectInitialState else ArrayInitialState, Pushed(state, frames), n'.value)
  {
    hide ResumesMatch, OutersMatch;
    ScalarKeeps(state, frames, n);
    TopPushed(frames, Enter(n).value.scopes, Frame(Resume(state), 0), Scope(isObject, 0, false));
  }

  lemma CloseKeeps(state: State, frames: seq<Frame>, n: Nest, isObject: bool, count: nat)
    requires StackMatches(state, frames, n) && frames != []
    requires isObject ==> state == ObjectInitialState || state == MemberValueState || state == MemberDelimiterState
    requires !isObject ==> state == ArrayInitialState || state == ElementState || state == ElementDelimiterState
    requires count == frames[|frames| - 1].count + if state == MemberValueState || state == ElementState then 1 else 0
    ensures var n' := End(n, isObject, count);
            n'.Some? && StackMatches(Restored(frames), Popped(frames), n'.value)
  {
    hide ResumesMatch, OutersMatch;
    TopPopped(frames, n.scopes);
  }

  lemma KeyKeeps(state: State, frames: seq<Frame>, n: Nest)
    requires StackMatches(state, frames, n) && (state == ObjectInitialState || state == MemberDelimiterState)
    ensures Name(n).Some? && StackMatches(MemberKeyState, frames, Name(n).value)
  {
    hide ResumesMatch, OutersMatch;
    var top := |frames| - 1;
    TopChanged(frames, n.scopes, frames[top], Name(n).value.scopes[top]);
    assert frames[top := frames[top]] == frames;
  }

  lemma CommaKeeps(state: State, frames: seq<Frame>, n: Nest)
    requires StackMatches(state, frames, n) && (state == MemberValueState || state == ElementState)
    ensures StackMatches(if state == MemberValueState then MemberDelimiterState else ElementDelimiterState, Counted(frames), n)
  {
    hide ResumesMatch, OutersMatch;
    var top := |frames| - 1;
    TopChanged(frames, n.scopes, Counted(frames)[top], n.scopes[top]);
    assert n.scopes[top := n.scopes[top]] == n.scopes;
  }

  /** The events of a move, and the nest after them. */
  predicate MoveMatches(r: Move) {
    match r
    case To(m) => Matches(m)
    case Stuck(_, _, events) => Nests(events)
  }

  /** Handing over an event that keeps the stack matched. */
  lemma EmitKeeps(t: Job, events: seq<Event>, e: Event, offset: nat, next: nat, state: State, frames: seq<Frame>)
    requires Nests(events)
    requires NestAfter(NestOf(events).value, e).Some? && StackMatches(state, frames, NestAfter(NestOf(events).value, e).value)
    ensures MoveMatches(Moved(Emit(t, events, e, offset, next), state, frames))
  {
    NestOneMore(events, e);
    hide StackMatches, NestAfter, NestOf;
  }

  lemma ScalarMoves(t: Job, m: Machine)
    requires Matches(m) && AwaitsValue(m.state)
    ensures MoveMatches(Moved(Scalar(t, m.pos, m.events), AfterValue(m.state), m.frames))
  {
    ScalarKeeps(m.state, m.frames, NestOf(m.events).value);
    ScalarIsOneEvent(t, m.pos, m.events);
    hide Scalar, StackMatches, NestOf, Enter;
    var r := Scalar(t, m.pos, m.events);
    if r.events != m.events {
      var e := r.events[|m.events|];
      assert r.events == m.events + [e];
      NestOneMore(m.events, e);
    }
  }

  predicate IsScalarEvent(e: Event) {
    e.Null? || e.Bool? || e.Num? || e.Str?
  }

  /** Reading a scalar hands over one event, or fails before it does. */
  lemma ScalarIsOneEvent(t: Job, pos: nat, events: seq<Event>)
    ensures var r := Scalar(t, pos, events);
            || (r.Failed? && r.events == events)
            || (|r.events| == |events| + 1 && r.events[..|events|] == events && IsScalarEvent(r.events[|events|]))
  {
    hide MatchWord, String, NumberAt;
  }

  lemma OpenMoves(t: Job, m: Machine, isObject: bool)
    requires Matches(m) && AwaitsValue(m.state)
    ensures var e := if isObject then StartObject else StartArray;
            var dst := if isObject then ObjectInitialState else ArrayInitialState;
            MoveMatches(Open(t, m, dst, e))
  {
    OpenKeeps(m.state, m.frames, NestOf(m.events).value, isObject);
    hide StackMatches, NestOf, Emit, Begin, MoveMatches;
    if isObject {
      EmitKeeps(t, m.events, StartObject, m.pos, m.pos + 1, ObjectInitialState, Pushed(m.state, m.frames));
    } else {
      EmitKeeps(t, m.events, StartArray, m.pos, m.pos + 1, ArrayInitialState, Pushed(m.state, m.frames));
    }
  }

  lemma KeyMoves(t: Job, m: Machine)
    requires Matches(m) && (m.state == ObjectInitialState || m.state == MemberDelimiterState)
    ensures MoveMatches(Moved(QuotedString(t, m.pos, m.events, true), MemberKeyState, m.frames))
  {
    KeyKeeps(m.state, m.frames, NestOf(m.events).value);
    hide StackMatches, NestOf, String, Emit, Name;
    match String(t.src, m.pos)
    case Bad(_, _) =>
    case Read(s, next) =>
      hide MoveMatches;
      EmitKeeps(t, m.events, Key(s), next, next, MemberKeyState, m.frames);
  }

  lemma ColonMoves(m: Machine, pos: nat)
    requires Matches(m) && m.state == MemberKeyState
    ensures MoveMatches(To(m.(state := KeyValueDelimiterState, pos := pos)))
  {
    hide NestOf, ResumesMatch, OutersMatch;
  }

  lemma CommaMoves(m: Machine, pos: nat)
    requires Matches(m) && (m.state == MemberValueState || m.state == ElementState)
    ensures MoveMatches(To(m.(state := if m.state == MemberValueState then MemberDelimiterState else ElementDelimiterState,
                              pos := pos, frames := Counted(m.frames))))
  {
    CommaKeeps(m.state, m.frames, NestOf(m.events).value);
    hide NestOf, StackMatches;
  }

  lemma CloseObjectMoves(t: Job, m: Machine)
    requires Matches(m) && m.frames != []
    requires m.state == ObjectInitialState || m.state == MemberValueState || m.state == MemberDelimiterState
    ensures MoveMatches(Close(t, m, MemberValueState, true))
  {
    hide StackMatches, NestOf, Emit, End, MoveMatches;
    var count := m.frames[|m.frames| - 1].count + if m.state == MemberValueState then 1 else 0;
    CloseKeeps(m.state, m.frames, NestOf(m.events).value, true, count);
    EmitKeeps(t, m.events, EndObject(count), m.pos, m.pos + 1, Restored(m.frames), Popped(m.frames));
  }

  lemma CloseArrayMoves(t: Job, m: Machine)
    requires Matches(m) && m.frames != []
    requires m.state == ArrayInitialState || m.state == ElementState || m.state == ElementDelimiterState
    ensures MoveMatches(Close(t, m, ElementState, false))
  {
    hide StackMatches, NestOf, Emit, End, MoveMatches;
    var count := m.frames[|m.frames| - 1].count + if m.state == ElementState then 1 else 0;
    CloseKeeps(m.state, m.frames, NestOf(m.events).value, false, count);
    EmitKeeps(t, m.events, EndArray(count), m.pos, m.pos + 1, Restored(m.frames), Popped(m.frames));
  }

  lemma StuckMoves(m: Machine, code: ErrorCode, offset: nat)
    requires Matches(m)
    ensures MoveMatches(Stuck(code, offset, m.events))
  {
  }

  /** Every transition keeps the stack matched with the open containers, and whatever was handed over nests. */
  lemma TransitMatches(t: Job, m: Machine)
    requires Matches(m) && MachineOk(m)
    ensures MoveMatches(Transit(t, m))
  {
    hide Scalar, QuotedString, Emit, NestOf, MoveMatches, StackMatches, Open, Close, Counted, Matches, FramesOk;
    var dst := Predict(m.state, Tokenize(Peek(t.src, m.pos)));
    StuckMoves(m, ErrorOf(m.state), m.pos);
    match dst
    case ErrorState =>
    case ObjectInitialState =>
      OpenMoves(t, m, true);
    case ArrayInitialState =>
      OpenMoves(t, m, false);
    case MemberKeyState =>
      KeyMoves(t, m);
    case KeyValueDelimiterState =>
      ColonMoves(m, m.pos + 1);
    case MemberValueState =>
      ScalarMoves(t, m);
    case ElementState =>
      ScalarMoves(t, m);
    case MemberDelimiterState =>
      CommaMoves(m, m.pos + 1);
    case ElementDelimiterState =>
      CommaMoves(m, m.pos + 1);
    case ObjectFinishState =>
      CloseObjectMoves(t, m);
      StuckMoves(m, ObjectMissName, m.pos);
    case ArrayFinishState =>
      CloseArrayMoves(t, m);
      StuckMoves(m, ValueInvalid, m.pos);
    case _ =>
      ScalarMoves(t, m);
  }

  // ----- runs

  /** The machine at the head of the loop after `k` turns. */
  ghost predicate ReachedIn(t: Job, m: Machine, k: nat)
    decreases k
  {
    if k == 0 then
      var r := SkipAt(t, 0, []);
      r.Going? && m == Machine(StartState, [], r.pos, [])
    else
      exists before: Machine :: ReachedIn(t, before, k - 1) && Turns(t, before, m)
  }

  /** One turn of the loop leads from `m` to `m'`. */
  predicate Turns(t: Job, m: Machine, m': Machine) {
    && MachineOk(m) && Peek(t.src, m.pos) != 0
    && match Transit(t, m)
       case Stuck(_, _, _) => false
       case To(n) =>
         var r := SkipAt(t, n.pos, n.events);
         !(t.stopWhenDone && n.state == FinishState) && r.Going? && m' == n.(pos := r.pos)
  }

  lemma TurnMatches(t: Job, m: Machine, m': Machine)
    requires Turns(t, m, m') && MoveMatches(Transit(t, m))
    ensures Matches(m')
  {
    hide Transit, NestOf, StackMatches, Skip;
  }

  lemma StartMatches(pos: nat)
    ensures Matches(Machine(StartState, [], pos, []))
  {
  }

  /** In every reachable state the stack lists the open containers, with the number of commas each has had, and the
      state the parser is in is one for the innermost of them. */
  lemma {:induction false} ReachedMatches(t: Job, m: Machine, k: nat)
    requires ReachedIn(t, m, k)
    ensures Matches(m) && MachineOk(m)
    decreases k
  {
    hide Transit, NestOf, StackMatches, Turns, MoveMatches, Matches, Skip;
    if k == 0 {
      StartMatches(m.pos);
    } else {
      var before: Machine :| ReachedIn(t, before, k - 1) && Turns(t, before, m);
      ReachedMatches(t, before, k - 1);
      TransitMatches(t, before);
      TurnMatches(t, before, m);
    }
    MatchesOk(m);
  }

  predicate ParseNests(r: Parse) {
    match r
    case Going(_, events) => IsComplete(events)
    case Failed(_, _, events) => Nests(events)
  }

  lemma {:induction false} LoopNests(t: Job, m: Machine)
    requires Matches(m) && MachineOk(m)
    ensures ParseNests(Loop(t, m))
    decreases |t.src| - m.pos, 0
  {
    if Peek(t.src, m.pos) == 0 {
      hide NestOf;
    } else {
      TransitMatches(t, m);
      var r := Transit(t, m);
      hide Transit, Matches, NestOf, MachineOk;
      if r.To? {
        AfterNests(t, r.m);
      }
    }
  }

  lemma {:induction false} AfterNests(t: Job, m: Machine)
    requires Matches(m) && MachineOk(m)
    ensures ParseNests(After(t, m))
    decreases |t.src| - m.pos, 1
  {
    if t.stopWhenDone && m.state == FinishState {
    } else {
      hide NestOf;
      var r := SkipAt(t, m.pos, m.events);
      if r.Going? {
        LoopNests(t, m.(pos := r.pos));
      }
    }
  }

  /** Whatever either parser hands over nests; and if it accepts the text, that is the events of exactly one value,
      with each end announcing as many children as there were. */
  lemma EventsNest(t: Job)
    ensures ParseNests(IterativeDocument(t)) && ParseNests(Document(t))
  {
    var r := SkipAt(t, 0, []);
    if r.Going? {
      LoopNests(t, Machine(StartState, [], r.pos, []));
    }
    hide Loop, Value, AfterRoot;
    IterativeRefinesRecursive(t);
  }

  // ----- the handler

  /** The handler has said to go on after each of the events. */
  predicate Agreed(t: Job, events: seq<Event>) {
    forall k | 0 < k <= |events| :: t.accepts(events[..k])
  }

  /** A parse ends as terminated exactly when the last event was the first after which the handler said not to go on. */
  predicate EndsObeying(t: Job, code: ErrorCode, events: seq<Event>) {
    if code == Termination then events != [] && Agreed(t, events[..|events| - 1]) && !t.accepts(events) else Agreed(t, events)
  }

  predicate ParseObeys(t: Job, r: Parse) {
    match r
    case Going(_, events) => Agreed(t, events)
    case Failed(code, _, events) => EndsObeying(t, code, events)
  }

  predicate MoveObeys(t: Job, r: Move) {
    match r
    case To(m) => Agreed(t, m.events)
    case Stuck(code, _, events) => EndsObeying(t, code, events)
  }

  lemma EmitObeys(t: Job, events: seq<Event>, e: Event, offset: nat, next: nat)
    requires Agreed(t, events)
    ensures ParseObeys(t, Emit(t, events, e, offset, next))
  {
    var all := events + [e];
    assert all[..|events|] == events && all[..|all|] == all;
    forall k | 0 < k <= |events|
      ensures t.accepts(all[..k])
    {
      assert all[..k] == events[..k];
    }
  }

  lemma {:induction false} StringCodes(src: Text, pos: nat, out: seq<int>)
    ensures StringBody(src, pos, out).Bad? ==> StringBody(src, pos, out).code != Termination
    decreases |src| - pos
  {
    hide Hex4, Encode, SimpleEscape;
    var c := Peek(src, pos);
    if c == BACKSLASH && Escape(src, pos).Read? {
      StringCodes(src, Escape(src, pos).next, out + Escape(src, pos).value);
    } else if c != BACKSLASH && c != QUOTE && c != 0 && !(0 <= c < SPACE) {
      StringCodes(src, pos + 1, out + [c]);
    }
  }

  lemma NumberCodes(src: Text, pos: nat, tooBig: seq<int> -> bool)
    ensures NumberAt(src, pos, tooBig).Bad? ==> NumberAt(src, pos, tooBig).code != Termination
  {
    hide DigitsEnd, DigitsValue;
  }

  lemma QuotedObeys(t: Job, pos: nat, events: seq<Event>, isKey: bool)
    requires Agreed(t, events)
    ensures ParseObeys(t, QuotedString(t, pos, events, isKey))
  {
    hide StringBody, Agreed, Emit;
    StringCodes(t.src, pos + 1, []);
    match String(t.src, pos)
    case Bad(_, _) =>
    case Read(s, next) =>
      EmitObeys(t, events, if isKey then Key(s) else Str(s), next, next);
  }

  lemma ScalarObeys(t: Job, pos: nat, events: seq<Event>)
    requires Agreed(t, events)
    ensures ParseObeys(t, Scalar(t, pos, events))
  {
    hide Agreed, Emit, NumberAt, MatchWord, QuotedString;
    QuotedObeys(t, pos, events, false);
    NumberCodes(t.src, pos, t.tooBig);
    forall e, offset, next
      ensures ParseObeys(t, Emit(t, events, e, offset, next))
    {
      EmitObeys(t, events, e, offset, next);
    }
  }

  lemma TransitObeys(t: Job, m: Machine)
    requires Agreed(t, m.events) && MachineOk(m)
    ensures MoveObeys(t, Transit(t, m))
  {
    hide Agreed, Emit, Scalar, QuotedString, Counted;
    ScalarObeys(t, m.pos, m.events);
    QuotedObeys(t, m.pos, m.events, true);
    forall e, offset, next
      ensures ParseObeys(t, Emit(t, m.events, e, offset, next))
    {
      EmitObeys(t, m.events, e, offset, next);
    }
  }

  lemma {:induction false} LoopObeys(t: Job, m: Machine)
    requires Agreed(t, m.events) && MachineOk(m)
    ensures ParseObeys(t, Loop(t, m))
    decreases |t.src| - m.pos, 0
  {
    hide Agreed;
    if Peek(t.src, m.pos) != 0 {
      TransitObeys(t, m);
      var r := Transit(t, m);
      hide Transit, MachineOk;
      if r.To? {
        AfterObeys(t, r.m);
      }
    }
  }

  lemma {:induction false} AfterObeys(t: Job, m: Machine)
    requires Agreed(t, m.events) && MachineOk(m)
    ensures ParseObeys(t, After(t, m))
    decreases |t.src| - m.pos, 1
  {
    hide Agreed;
    if !(t.stopWhenDone && m.state == FinishState) {
      var r := SkipAt(t, m.pos, m.events);
      if r.Going? {
        LoopObeys(t, m.(pos := r.pos));
      }
    }
  }

  /** Either parser hands over events as long as the handler says to go on, none after it says not to, and reports just
      that as termination. */
  lemma HandlerIsObeyed(t: Job)
    ensures ParseObeys(t, IterativeDocument(t)) && ParseObeys(t, Document(t))
  {
    var r := SkipAt(t, 0, []);
    if r.Going? {
      LoopObeys(t, Machine(StartState, [], r.pos, []));
    }
    hide Loop, Value, AfterRoot;
    IterativeRefinesRecursive(t);
  }
}
