/** The table-driven parser as a function, and the theorem that it refines recursive descent. */
module JsonAutomaton {
  import opened Ascii
  import opened JsonLexer
  import opened JsonParser
  import opened Texts

  datatype State =
    | FinishState
    | ErrorState
    | StartState
    | ObjectInitialState
    | MemberKeyState
    | MemberValueState
    | ObjectFinishState
    | ArrayInitialState
    | ElementState
    | ArrayFinishState
    | ValueState
    | ElementDelimiterState
    | MemberDelimiterState
    | KeyValueDelimiterState

  datatype Token =
    | LeftBracketToken
    | RightBracketToken
    | LeftCurlyBracketToken
    | RightCurlyBracketToken
    | CommaToken
    | ColonToken
    | StringToken
    | FalseToken
    | TrueToken
    | NullToken
    | NumberToken

  function Tokenize(c: int): Token {
    if c == QUOTE then StringToken
    else if c == COMMA then CommaToken
    else if c == COLON then ColonToken
    else if c == LEFT_BRACKET then LeftBracketToken
    else if c == RIGHT_BRACKET then RightBracketToken
    else if c == LOWER_F then FalseToken
    else if c == LOWER_N then NullToken
    else if c == LOWER_T then TrueToken
    else if c == LEFT_BRACE then LeftCurlyBracketToken
    else if c == RIGHT_BRACE then RightCurlyBracketToken
    else NumberToken
  }

  /** A row of the table for a state where a value is due; `scalar` is the state after a scalar. */
  function ValueRow(token: Token, rightBracket: State, scalar: State): State {
    match token
    case LeftBracketToken => ArrayInitialState
    case RightBracketToken => rightBracket
    case LeftCurlyBracketToken => ObjectInitialState
    case RightCurlyBracketToken => ErrorState
    case CommaToken => ErrorState
    case ColonToken => ErrorState
    case _ => scalar
  }

  /** The table `G`: the state to go to, by the state and the next token. */
  function Predict(state: State, token: Token): State {
    match state
    case StartState => ValueRow(token, ErrorState, ValueState)
    case ArrayInitialState => ValueRow(token, ArrayFinishState, ElementState)
    case ElementDelimiterState => ValueRow(token, ArrayFinishState, ElementState)
    case KeyValueDelimiterState => ValueRow(token, ErrorState, MemberValueState)
    case ElementState =>
      if token == RightBracketToken then ArrayFinishState else if token == CommaToken then ElementDelimiterState else ErrorState
    case ObjectInitialState =>
      if token == RightCurlyBracketToken then ObjectFinishState else if token == StringToken then MemberKeyState else ErrorState
    case MemberDelimiterState =>
      if token == RightCurlyBracketToken then ObjectFinishState else if token == StringToken then MemberKeyState else ErrorState
    case MemberKeyState =>
      if token == ColonToken then KeyValueDelimiterState else ErrorState
    case MemberValueState =>
      if token == RightCurlyBracketToken then ObjectFinishState else if token == CommaToken then MemberDelimiterState else ErrorState
    case _ => ErrorState
  }

  /** `HandleError`: the error of a state in which the next token has no place. */
  function ErrorOf(state: State): ErrorCode {
    match state
    case StartState => DocumentEmpty
    case FinishState => DocumentRootNotSingular
    case ObjectInitialState => ObjectMissName
    case MemberDelimiterState => ObjectMissName
    case MemberKeyState => ObjectMissColon
    case MemberValueState => ObjectMissCommaOrCurlyBracket
    case KeyValueDelimiterState => ValueInvalid
    case ArrayInitialState => ValueInvalid
    case ElementDelimiterState => ValueInvalid
    case _ => ArrayMissCommaOrSquareBracket
  }

  /** The states in which a token is looked at. */
  predicate LooksAhead(state: State) {
    !(state.ErrorState? || state.ValueState? || state.ObjectFinishState? || state.ArrayFinishState?)
  }

  predicate StartsValue(token: Token) {
    !(token.RightBracketToken? || token.RightCurlyBracketToken? || token.CommaToken? || token.ColonToken?)
  }

  /** What an error says was missing. */
  predicate IsMissed(code: ErrorCode, token: Token) {
    match code
    case DocumentEmpty => StartsValue(token)
    case ValueInvalid => StartsValue(token)
    case ObjectMissName => token == StringToken
    case ObjectMissColon => token == ColonToken
    case ObjectMissCommaOrCurlyBracket => token == CommaToken || token == RightCurlyBracketToken
    case ArrayMissCommaOrSquareBracket => token == CommaToken || token == RightBracketToken
    case _ => false
  }

  /** The token ends a container that is empty, or that had a comma last. */
  predicate EndsEarly(state: State, token: Token) {
    match state
    case ObjectInitialState => token == RightCurlyBracketToken
    case MemberDelimiterState => token == RightCurlyBracketToken
    case ArrayInitialState => token == RightBracketToken
    case ElementDelimiterState => token == RightBracketToken
    case _ => false
  }

  /** The error a state stands for is about the tokens the table has a place for in it: what it calls missing can come
      next, and besides that only an early end of the container. */
  lemma ErrorNamesWhatIsMissing(state: State, token: Token)
    requires LooksAhead(state)
    ensures Predict(state, token) != ErrorState <==> IsMissed(ErrorOf(state), token) || EndsEarly(state, token)
  {
  }

  /** An open container: the state to return to, and how many commas it has had. */
  datatype Frame = Frame(resume: State, count: nat)

  datatype Machine = Machine(state: State, frames: seq<Frame>, pos: nat, events: seq<Event>)

  datatype Move = To(m: Machine) | Stuck(code: ErrorCode, offset: nat, events: seq<Event>)

  /** The state to come back to after a value that starts in `state`. */
  function Resume(state: State): State {
    match state
    case ArrayInitialState => ElementState
    case ElementDelimiterState => ElementState
    case KeyValueDelimiterState => MemberValueState
    case _ => state
  }

  function Moved(r: Parse, state: State, frames: seq<Frame>): Move {
    if r.Failed? then Stuck(r.code, r.offset, r.events) else To(Machine(state, frames, r.pos, r.events))
  }

  function Open(t: Job, m: Machine, dst: State, e: Event): Move {
    Moved(Emit(t, m.events, e, m.pos, m.pos + 1), dst, m.frames + [Frame(Resume(m.state), 0)])
  }

  /** Leaves the innermost container, which `m.state` says had a member since its last comma or not. */
  function Close(t: Job, m: Machine, last: State, isObject: bool): Move
    requires m.frames != []
  {
    var top := m.frames[|m.frames| - 1];
    var count := if m.state == last then top.count + 1 else top.count;
    var state := if top.resume == StartState then FinishState else top.resume;
    var e := if isObject then EndObject(count) else EndArray(count);
    Moved(Emit(t, m.events, e, m.pos, m.pos + 1), state, m.frames[..|m.frames| - 1])
  }

  /** Every frame but the bottom one lies in a container, whose kind its state to return to tells. */
  predicate FramesOk(frames: seq<Frame>) {
    forall i | 0 <= i < |frames| ::
      if i == 0 then frames[i].resume == StartState else frames[i].resume == ElementState || frames[i].resume == MemberValueState
  }

  /** At the start and at the finish, and only there, no container is open. */
  predicate MachineOk(m: Machine) {
    FramesOk(m.frames) && ((m.state == StartState || m.state == FinishState) <==> m.frames == [])
  }

  /** One more comma in the innermost container. */
  function Counted(frames: seq<Frame>): (r: seq<Frame>)
    requires frames != []
  {
    var top := |frames| - 1;
    frames[top := frames[top].(count := frames[top].count + 1)]
  }

  /** `Transit`, and `HandleError` when it fails. */
  function Transit(t: Job, m: Machine): (r: Move)
    requires MachineOk(m)
    ensures r.To? ==> MachineOk(r.m) && m.pos < r.m.pos
  {
    var dst := Predict(m.state, Tokenize(Peek(t.src, m.pos)));
    match dst
    case ErrorState => Stuck(ErrorOf(m.state), m.pos, m.events)
    case ObjectInitialState => Open(t, m, dst, StartObject)
    case ArrayInitialState => Open(t, m, dst, StartArray)
    case MemberKeyState => Moved(QuotedString(t, m.pos, m.events, true), dst, m.frames)
    case KeyValueDelimiterState => To(m.(state := dst, pos := m.pos + 1))
    case MemberValueState => Moved(Scalar(t, m.pos, m.events), dst, m.frames)
    case ElementState => Moved(Scalar(t, m.pos, m.events), dst, m.frames)
    case MemberDelimiterState => To(m.(state := dst, pos := m.pos + 1, frames := Counted(m.frames)))
    case ElementDelimiterState => To(m.(state := dst, pos := m.pos + 1, frames := Counted(m.frames)))
    case ObjectFinishState =>
      if !t.trailingCommas && m.state == MemberDelimiterState then Stuck(ObjectMissName, m.pos, m.events)
      else Close(t, m, MemberValueState, true)
    case ArrayFinishState =>
      if !t.trailingCommas && m.state == ElementDelimiterState then Stuck(ValueInvalid, m.pos, m.events)
      else Close(t, m, ElementState, false)
    case _ => Moved(Scalar(t, m.pos, m.events), FinishState, m.frames)
  }

  /** The loop of `IterativeParse`, from its head, where blanks have been skipped. */
  function Loop(t: Job, m: Machine): Parse
    requires MachineOk(m)
    decreases |t.src| - m.pos, 0
  {
    if Peek(t.src, m.pos) == 0 then
      if m.state == FinishState then Going(m.pos, m.events) else Failed(ErrorOf(m.state), m.pos, m.events)
    else
      match Transit(t, m)
      case Stuck(code, offset, events) => Failed(code, offset, events)
      case To(m') => After(t, m')
  }

  /** The rest of a turn of the loop, after a transition. */
  function After(t: Job, m: Machine): Parse
    requires MachineOk(m)
    decreases |t.src| - m.pos, 1
  {
    if t.stopWhenDone && m.state == FinishState then Going(m.pos, m.events)
    else
      match SkipAt(t, m.pos, m.events)
      case Failed(code, offset, events) => Failed(code, offset, events)
      case Going(p, events) => Loop(t, m.(pos := p))
  }

  /** `IterativeParse` */
  function IterativeDocument(t: Job): Parse {
    var r := SkipAt(t, 0, []);
    if r.Failed? then r else Loop(t, Machine(StartState, [], r.pos, []))
  }

  // ----- refinement

  /** The same error, after the same events; and found at the same place, unless the handler refused an event. */
  predicate FailsLike(a: Parse, r: Parse) {
    r.Failed? && a.Failed? && a.code == r.code && a.events == r.events && (r.code != Termination ==> a.offset == r.offset)
  }

  /** From `m` the automaton does what `r` says, and if that succeeds it is then in this state. */
  predicate Follows(t: Job, m: Machine, r: Parse, state: State, frames: seq<Frame>) {
    && MachineOk(m) && MachineOk(Machine(state, frames, 0, []))
    && match r
       case Going(p, events) => Loop(t, m) == After(t, Machine(state, frames, p, events))
       case Failed(_, _, _) => FailsLike(Loop(t, m), r)
  }

  /** The same, up to the head of the loop. */
  predicate Reaches(t: Job, m: Machine, r: Parse, state: State, frames: seq<Frame>) {
    && MachineOk(m) && MachineOk(Machine(state, frames, 0, []))
    && match r
       case Going(p, events) => Loop(t, m) == Loop(t, Machine(state, frames, p, events))
       case Failed(_, _, _) => FailsLike(Loop(t, m), r)
  }

  /** After a transition that does not finish, blanks are skipped and the loop goes on. */
  lemma SkipReaches(t: Job, m: Machine, r: Parse, state: State, frames: seq<Frame>)
    requires Follows(t, m, r, state, frames) && state != FinishState
    ensures Reaches(t, m, ThenSkip(t, r), state, frames)
  {
    hide Loop, Skip;
  }

  lemma ReachesFollows(t: Job, m: Machine, r: Parse, state: State, frames: seq<Frame>, r': Parse, state': State,
      frames': seq<Frame>)
    requires Reaches(t, m, r, state, frames) && r.Going?
    requires Follows(t, Machine(state, frames, r.pos, r.events), r', state', frames')
    ensures Follows(t, m, r', state', frames')
  {
    hide Loop, After;
  }

  lemma ReachesReaches(t: Job, m: Machine, r: Parse, state: State, frames: seq<Frame>, r': Parse, state': State,
      frames': seq<Frame>)
    requires Reaches(t, m, r, state, frames) && r.Going?
    requires Reaches(t, Machine(state, frames, r.pos, r.events), r', state', frames')
    ensures Reaches(t, m, r', state', frames')
  {
    hide Loop, After;
  }

  lemma FailureStops(t: Job, m: Machine, r: Parse, state: State, frames: seq<Frame>, state': State, frames': seq<Frame>)
    requires Reaches(t, m, r, state, frames) && r.Failed? && MachineOk(Machine(state', frames', 0, []))
    ensures Follows(t, m, r, state', frames')
  {
    hide Loop, After;
  }

  // ----- single transitions

  /** The state after a value that starts in `state`. */
  function AfterValue(state: State): State {
    if state == StartState then FinishState else Resume(state)
  }

  predicate AwaitsValue(state: State) {
    state == StartState || state == ArrayInitialState || state == ElementDelimiterState || state == KeyValueDelimiterState
  }

  predicate IsPunctuation(c: int) {
    c == COMMA || c == COLON || c == RIGHT_BRACKET || c == RIGHT_BRACE
  }

  /** A value is due, and what comes is not the end of an array. */
  predicate AtValue(t: Job, m: Machine) {
    && MachineOk(m) && AwaitsValue(m.state)
    && (m.state == ArrayInitialState || (m.state == ElementDelimiterState && t.trailingCommas) ==> Peek(t.src, m.pos) != RIGHT_BRACKET)
    && (m.state == StartState ==> Peek(t.src, m.pos) != 0 && !IsPunctuation(Peek(t.src, m.pos)))
  }

  function Popped(frames: seq<Frame>): seq<Frame>
    requires frames != []
  {
    frames[..|frames| - 1]
  }

  function Restored(frames: seq<Frame>): State
    requires frames != []
  {
    if frames[|frames| - 1].resume == StartState then FinishState else frames[|frames| - 1].resume
  }

  function Pushed(state: State, frames: seq<Frame>): (r: seq<Frame>)
    ensures r != [] && r[|r| - 1].count == 0
  {
    frames + [Frame(Resume(state), 0)]
  }

  lemma PushedPopped(m: Machine)
    requires AwaitsValue(m.state) && MachineOk(m)
    ensures var frames := Pushed(m.state, m.frames);
            && FramesOk(frames) && Popped(frames) == m.frames && Restored(frames) == AfterValue(m.state)
            && MachineOk(m.(state := AfterValue(m.state)))
  {
  }

  lemma CountedPopped(frames: seq<Frame>)
    requires frames != [] && FramesOk(frames)
    ensures var r := Counted(frames);
            && r != [] && FramesOk(r) && Popped(r) == Popped(frames) && Restored(r) == Restored(frames)
            && r[|r| - 1].count == frames[|frames| - 1].count + 1
  {
  }

  lemma PoppedOk(frames: seq<Frame>)
    requires frames != [] && FramesOk(frames)
    ensures MachineOk(Machine(Restored(frames), Popped(frames), 0, []))
  {
  }

  lemma StepOpen(t: Job, m: Machine, isObject: bool)
    requires AtValue(t, m) && Peek(t.src, m.pos) == if isObject then LEFT_BRACE else LEFT_BRACKET
    ensures var e := if isObject then StartObject else StartArray;
            Follows(t, m, Emit(t, m.events, e, m.pos + 1, m.pos + 1),
                    if isObject then ObjectInitialState else ArrayInitialState, Pushed(m.state, m.frames))
  {
    PushedPopped(m);
    hide After;
  }

  lemma StepScalar(t: Job, m: Machine)
    requires AtValue(t, m) && Peek(t.src, m.pos) != LEFT_BRACE && Peek(t.src, m.pos) != LEFT_BRACKET
    ensures Follows(t, m, Scalar(t, m.pos, m.events), AfterValue(m.state), m.frames)
  {
    var c := Peek(t.src, m.pos);
    PushedPopped(m);
    if IsPunctuation(c) || c == 0 {
      assert Scalar(t, m.pos, m.events) == Failed(ValueInvalid, m.pos, m.events);
    } else {
      hide Scalar;
    }
    hide After;
  }

  lemma StepKey(t: Job, m: Machine)
    requires MachineOk(m) && (m.state == ObjectInitialState || m.state == MemberDelimiterState) && Peek(t.src, m.pos) == QUOTE
    ensures Follows(t, m, QuotedString(t, m.pos, m.events, true), MemberKeyState, m.frames)
  {
    hide After, QuotedString;
  }

  lemma StepNoKey(t: Job, m: Machine, state: State, frames: seq<Frame>)
    requires MachineOk(m) && (m.state == ObjectInitialState || m.state == MemberDelimiterState) && Peek(t.src, m.pos) != QUOTE
    requires m.state == ObjectInitialState || t.trailingCommas ==> Peek(t.src, m.pos) != RIGHT_BRACE
    requires MachineOk(Machine(state, frames, 0, []))
    ensures Follows(t, m, Failed(ObjectMissName, m.pos, m.events), state, frames)
  {
    hide After;
  }

  lemma StepColon(t: Job, m: Machine)
    requires MachineOk(m) && m.state == MemberKeyState && Peek(t.src, m.pos) == COLON
    ensures Reaches(t, m, SkipAt(t, m.pos + 1, m.events), KeyValueDelimiterState, m.frames)
  {
    var r := Going(m.pos + 1, m.events);
    assert Follows(t, m, r, KeyValueDelimiterState, m.frames) by {
      hide After;
    }
    SkipReaches(t, m, r, KeyValueDelimiterState, m.frames);
    hide Loop;
  }

  lemma StepComma(t: Job, m: Machine)
    requires MachineOk(m) && (m.state == MemberValueState || m.state == ElementState) && Peek(t.src, m.pos) == COMMA
    ensures Reaches(t, m, SkipAt(t, m.pos + 1, m.events),
                    if m.state == MemberValueState then MemberDelimiterState else ElementDelimiterState, Counted(m.frames))
  {
    var state := if m.state == MemberValueState then MemberDelimiterState else ElementDelimiterState;
    var r := Going(m.pos + 1, m.events);
    CountedPopped(m.frames);
    assert Follows(t, m, r, state, Counted(m.frames)) by {
      hide After;
    }
    SkipReaches(t, m, r, state, Counted(m.frames));
    hide Loop;
  }

  /** Closing an object: after a member, at once, or after a trailing comma.  The offset blamed does not matter. */
  lemma StepCloseObject(t: Job, m: Machine, count: nat, offset: nat)
    requires MachineOk(m) && m.frames != [] && Peek(t.src, m.pos) == RIGHT_BRACE
    requires m.state == ObjectInitialState || m.state == MemberValueState || (m.state == MemberDelimiterState && t.trailingCommas)
    requires count == m.frames[|m.frames| - 1].count + if m.state == MemberValueState then 1 else 0
    ensures Follows(t, m, Emit(t, m.events, EndObject(count), offset, m.pos + 1), Restored(m.frames), Popped(m.frames))
  {
    PoppedOk(m.frames);
    hide After;
  }

  lemma StepCloseArray(t: Job, m: Machine, count: nat, offset: nat)
    requires MachineOk(m) && m.frames != [] && Peek(t.src, m.pos) == RIGHT_BRACKET
    requires m.state == ArrayInitialState || m.state == ElementState || (m.state == ElementDelimiterState && t.trailingCommas)
    requires count == m.frames[|m.frames| - 1].count + if m.state == ElementState then 1 else 0
    ensures Follows(t, m, Emit(t, m.events, EndArray(count), offset, m.pos + 1), Restored(m.frames), Popped(m.frames))
  {
    PoppedOk(m.frames);
    hide After;
  }

  lemma StepStuck(t: Job, m: Machine, state: State, frames: seq<Frame>)
    requires MachineOk(m) && MachineOk(Machine(state, frames, 0, [])) && m.state != FinishState
    requires Predict(m.state, Tokenize(Peek(t.src, m.pos))) == ErrorState
    ensures Follows(t, m, Failed(ErrorOf(m.state), m.pos, m.events), state, frames)
  {
    hide After;
  }

  // ----- whole values

  lemma NoValueAtEnd(t: Job, pos: nat, events: seq<Event>)
    requires Value(t, pos, events).Going?
    ensures pos < |t.src|
  {
  }

  lemma {:induction false} FollowsValue(t: Job, m: Machine)
    requires AtValue(t, m)
    ensures Follows(t, m, Value(t, m.pos, m.events), AfterValue(m.state), m.frames)
    decreases |t.src| - m.pos, 2
  {
    hide Follows;
    var c := Peek(t.src, m.pos);
    if c == LEFT_BRACE {
      FollowsObject(t, m);
    } else if c == LEFT_BRACKET {
      FollowsArray(t, m);
    } else {
      StepScalar(t, m);
    }
  }

  lemma {:induction false} FollowsObject(t: Job, m: Machine)
    requires AtValue(t, m) && Peek(t.src, m.pos) == LEFT_BRACE
    ensures Follows(t, m, Object(t, m.pos, m.events), AfterValue(m.state), m.frames)
    decreases |t.src| - m.pos, 1
  {
    hide Skip, SkipAt, FramesOk, Scalar, Loop, After, Transit, Follows, Reaches, Value, Array, Members, AfterMember,
         Elements, AfterElement, Popped, Restored, Pushed, Counted, QuotedString, Emit, AfterValue;
    PushedPopped(m);
    StepOpen(t, m, true);
    var e, frames := Emit(t, m.events, StartObject, m.pos + 1, m.pos + 1), Pushed(m.state, m.frames);
    SkipReaches(t, m, e, ObjectInitialState, frames);
    var r := ThenSkip(t, e);
    if r.Failed? {
      FailureStops(t, m, r, ObjectInitialState, frames, AfterValue(m.state), m.frames);
    } else {
      var inner := Machine(ObjectInitialState, frames, r.pos, r.events);
      if Peek(t.src, r.pos) == RIGHT_BRACE {
        StepCloseObject(t, inner, 0, r.pos + 1);
      } else {
        FollowsMembers(t, inner);
      }
      ReachesFollows(t, m, r, ObjectInitialState, frames, Object(t, m.pos, m.events), AfterValue(m.state), m.frames);
    }
  }

  lemma {:induction false} FollowsMembers(t: Job, m: Machine)
    requires MachineOk(m)
    requires m.state == ObjectInitialState || m.state == MemberDelimiterState
    requires m.state == ObjectInitialState || t.trailingCommas ==> Peek(t.src, m.pos) != RIGHT_BRACE
    ensures Follows(t, m, Members(t, m.pos, m.events, m.frames[|m.frames| - 1].count), Restored(m.frames), Popped(m.frames))
    decreases |t.src| - m.pos, 0
  {
    hide Skip, SkipAt, FramesOk, Scalar, Loop, After, Transit, Follows, Reaches, Value, Object, Array, AfterMember,
         Elements, AfterElement, Popped, Restored, Pushed, Counted, QuotedString, Emit, AfterValue;
    var state, frames := Restored(m.frames), Popped(m.frames);
    PoppedOk(m.frames);
    if Peek(t.src, m.pos) != QUOTE {
      StepNoKey(t, m, state, frames);
    } else {
      StepKey(t, m);
      var k := QuotedString(t, m.pos, m.events, true);
      SkipReaches(t, m, k, MemberKeyState, m.frames);
      var r := ThenSkip(t, k);
      if r.Failed? {
        FailureStops(t, m, r, MemberKeyState, m.frames, state, frames);
      } else {
        var m1 := m.(state := MemberKeyState, pos := r.pos, events := r.events);
        FollowsColon(t, m1);
        ReachesFollows(t, m, r, MemberKeyState, m.frames, Members(t, m.pos, m.events, m.frames[|m.frames| - 1].count), state, frames);
      }
    }
  }

  /** What `Members` does after a name. */
  function AfterName(t: Job, pos: nat, events: seq<Event>, count: nat): Parse {
    if Peek(t.src, pos) != COLON then Failed(ObjectMissColon, pos, events)
    else
      var s := SkipAt(t, pos + 1, events);
      if s.Failed? then s
      else
        var v := ThenSkip(t, Value(t, s.pos, s.events));
        if v.Failed? then v else AfterMember(t, v.pos, v.events, count + 1)
  }

  lemma {:induction false} FollowsColon(t: Job, m: Machine)
    requires MachineOk(m) && m.state == MemberKeyState
    ensures Follows(t, m, AfterName(t, m.pos, m.events, m.frames[|m.frames| - 1].count), Restored(m.frames), Popped(m.frames))
    decreases |t.src| - m.pos, 3
  {
    hide Skip, SkipAt, FramesOk, Scalar, Loop, After, Transit, Follows, Reaches, Value, Object, Array, Members,
         AfterMember, Elements, AfterElement, Popped, Restored, Pushed, Counted, QuotedString, Emit;
    var state, frames := Restored(m.frames), Popped(m.frames);
    PoppedOk(m.frames);
    if Peek(t.src, m.pos) != COLON {
      StepStuck(t, m, state, frames);
    } else {
      StepColon(t, m);
      var s := SkipAt(t, m.pos + 1, m.events);
      if s.Failed? {
        FailureStops(t, m, s, KeyValueDelimiterState, m.frames, state, frames);
      } else {
        var m1 := m.(state := KeyValueDelimiterState, pos := s.pos, events := s.events);
        FollowsValue(t, m1);
        SkipReaches(t, m1, Value(t, s.pos, s.events), MemberValueState, m.frames);
        var v := ThenSkip(t, Value(t, s.pos, s.events));
        ReachesReaches(t, m, s, KeyValueDelimiterState, m.frames, v, MemberValueState, m.frames);
        if v.Failed? {
          FailureStops(t, m, v, MemberValueState, m.frames, state, frames);
        } else {
          FollowsAfterMember(t, m.(state := MemberValueState, pos := v.pos, events := v.events));
          ReachesFollows(t, m, v, MemberValueState, m.frames, AfterName(t, m.pos, m.events, m.frames[|m.frames| - 1].count), state, frames);
        }
      }
    }
  }

  lemma {:induction false} FollowsAfterMember(t: Job, m: Machine)
    requires MachineOk(m) && m.state == MemberValueState
    ensures Follows(t, m, AfterMember(t, m.pos, m.events, m.frames[|m.frames| - 1].count + 1), Restored(m.frames), Popped(m.frames))
    decreases |t.src| - m.pos, 1
  {
    hide Skip, SkipAt, FramesOk, Scalar, Loop, After, Transit, Follows, Reaches, Value, Object, Array, Members,
         Elements, AfterElement, Popped, Restored, Pushed, Counted, QuotedString, Emit, AfterValue;
    var state, frames := Restored(m.frames), Popped(m.frames);
    var count := m.frames[|m.frames| - 1].count + 1;
    PoppedOk(m.frames);
    if Peek(t.src, m.pos) == COMMA {
      StepComma(t, m);
      CountedPopped(m.frames);
      var r, f1 := SkipAt(t, m.pos + 1, m.events), Counted(m.frames);
      if r.Failed? {
        FailureStops(t, m, r, MemberDelimiterState, f1, state, frames);
      } else {
        var m1 := Machine(MemberDelimiterState, f1, r.pos, r.events);
        if t.trailingCommas && Peek(t.src, r.pos) == RIGHT_BRACE {
          StepCloseObject(t, m1, count, r.pos);
        } else {
          FollowsMembers(t, m1);
        }
        ReachesFollows(t, m, r, MemberDelimiterState, f1, AfterMember(t, m.pos, m.events, count), state, frames);
      }
    } else if Peek(t.src, m.pos) == RIGHT_BRACE {
      StepCloseObject(t, m, count, m.pos + 1);
    } else {
      StepStuck(t, m, state, frames);
    }
  }

  lemma {:induction false} FollowsArray(t: Job, m: Machine)
    requires AtValue(t, m) && Peek(t.src, m.pos) == LEFT_BRACKET
    ensures Follows(t, m, Array(t, m.pos, m.events), AfterValue(m.state), m.frames)
    decreases |t.src| - m.pos, 1
  {
    hide Skip, SkipAt, FramesOk, Scalar, Loop, After, Transit, Follows, Reaches, Value, Object, Members, AfterMember,
         Elements, AfterElement, Popped, Restored, Pushed, Counted, QuotedString, Emit, AfterValue;
    PushedPopped(m);
    StepOpen(t, m, false);
    var e, frames := Emit(t, m.events, StartArray, m.pos + 1, m.pos + 1), Pushed(m.state, m.frames);
    SkipReaches(t, m, e, ArrayInitialState, frames);
    var r := ThenSkip(t, e);
    if r.Failed? {
      FailureStops(t, m, r, ArrayInitialState, frames, AfterValue(m.state), m.frames);
    } else {
      var inner := Machine(ArrayInitialState, frames, r.pos, r.events);
      if Peek(t.src, r.pos) == RIGHT_BRACKET {
        StepCloseArray(t, inner, 0, r.pos + 1);
      } else {
        FollowsElements(t, inner);
      }
      ReachesFollows(t, m, r, ArrayInitialState, frames, Array(t, m.pos, m.events), AfterValue(m.state), m.frames);
    }
  }

  lemma {:induction false} FollowsElements(t: Job, m: Machine)
    requires AtValue(t, m) && (m.state == ArrayInitialState || m.state == ElementDelimiterState)
    ensures Follows(t, m, Elements(t, m.pos, m.events, m.frames[|m.frames| - 1].count), Restored(m.frames), Popped(m.frames))
    decreases |t.src| - m.pos, 3
  {
    hide Skip, SkipAt, FramesOk, Scalar, Loop, After, Transit, Follows, Reaches, Value, Object, Array, Members,
         AfterMember, AfterElement, Popped, Restored, Pushed, Counted, QuotedString, Emit;
    var state, frames := Restored(m.frames), Popped(m.frames);
    PoppedOk(m.frames);
    FollowsValue(t, m);
    SkipReaches(t, m, Value(t, m.pos, m.events), ElementState, m.frames);
    var v := ThenSkip(t, Value(t, m.pos, m.events));
    if v.Failed? {
      FailureStops(t, m, v, ElementState, m.frames, state, frames);
    } else {
      NoValueAtEnd(t, m.pos, m.events);
      FollowsAfterElement(t, m.(state := ElementState, pos := v.pos, events := v.events));
      ReachesFollows(t, m, v, ElementState, m.frames, Elements(t, m.pos, m.events, m.frames[|m.frames| - 1].count), state, frames);
    }
  }

  lemma {:induction false} FollowsAfterElement(t: Job, m: Machine)
    requires MachineOk(m) && m.state == ElementState
    ensures Follows(t, m, AfterElement(t, m.pos, m.events, m.frames[|m.frames| - 1].count + 1), Restored(m.frames), Popped(m.frames))
    decreases |t.src| - m.pos, 4
  {
    hide Skip, SkipAt, FramesOk, Scalar, Loop, After, Transit, Follows, Reaches, Value, Object, Array, Members,
         AfterMember, Elements, Popped, Restored, Pushed, Counted, QuotedString, Emit, AfterValue;
    var state, frames := Restored(m.frames), Popped(m.frames);
    var count := m.frames[|m.frames| - 1].count + 1;
    PoppedOk(m.frames);
    if Peek(t.src, m.pos) == COMMA {
      StepComma(t, m);
      CountedPopped(m.frames);
      var r, f1 := SkipAt(t, m.pos + 1, m.events), Counted(m.frames);
      if r.Failed? {
        FailureStops(t, m, r, ElementDelimiterState, f1, state, frames);
      } else {
        var m1 := Machine(ElementDelimiterState, f1, r.pos, r.events);
        if t.trailingCommas && Peek(t.src, r.pos) == RIGHT_BRACKET {
          StepCloseArray(t, m1, count, r.pos);
        } else {
          FollowsElements(t, m1);
        }
        ReachesFollows(t, m, r, ElementDelimiterState, f1, AfterElement(t, m.pos, m.events, count), state, frames);
      }
    } else if Peek(t.src, m.pos) == RIGHT_BRACKET {
      StepCloseArray(t, m, count, m.pos + 1);
    } else {
      StepStuck(t, m, state, frames);
    }
  }

  // ----- whole documents

  /** The root is one of the four bytes for which the two parsers report different errors. */
  predicate RootIsPunctuation(t: Job) {
    var r := SkipAt(t, 0, []);
    r.Going? && IsPunctuation(Peek(t.src, r.pos))
  }

  /** `IterativeParse` and `Parse`, for every text, all flags and every handler: the same verdict; when both accept,
      the same events and the same rest of the text; when both reject, the same events up to there and the same
      error, except that a stray `,`, `:`, `]` or `}` where the root should be is an empty document to the one and
      an invalid value to the other. */
  lemma IterativeRefinesRecursive(t: Job)
    ensures var a, r := IterativeDocument(t), Document(t);
            && (r.Going? ==> a == r)
            && (r.Failed? && !RootIsPunctuation(t) ==> FailsLike(a, r))
            && (RootIsPunctuation(t) ==> && r.Failed? && r.code == ValueInvalid
                                         && a == Failed(DocumentEmpty, r.offset, []) && r.events == [])
  {
    var s := SkipAt(t, 0, []);
    if s.Going? {
      var m, c := Machine(StartState, [], s.pos, []), Peek(t.src, s.pos);
      if IsPunctuation(c) {
        assert Value(t, s.pos, []) == Failed(ValueInvalid, s.pos, []);
        hide After;
      } else if c == 0 {
      } else {
        FollowsValue(t, m);
        var v := Value(t, s.pos, []);
        hide Loop, Value;
        if v.Going? {
          RootFollowed(t, Machine(FinishState, [], v.pos, v.events));
        }
      }
    }
  }

  /** The text `]`. */
  lemma LoneBracket(t: Job)
    requires t.src == [RIGHT_BRACKET]
    ensures IterativeDocument(t) == Failed(DocumentEmpty, 0, []) && Document(t) == Failed(ValueInvalid, 0, [])
  {
    assert SkipBlanks(t.src, 0) == 0 && SkipComments(t.src, 0) == Read((), 0);
    assert SkipAt(t, 0, []) == Going(0, []);
    assert Value(t, 0, []) == Failed(ValueInvalid, 0, []);
    hide Loop, Value;
    IterativeRefinesRecursive(t);
  }

  lemma RootFollowed(t: Job, m: Machine)
    requires m.state == FinishState && m.frames == []
    ensures var a, r := After(t, m), AfterRoot(t, Going(m.pos, m.events));
            if r.Going? then a == r else FailsLike(a, r)
  {
    if !t.stopWhenDone {
      var s := SkipAt(t, m.pos, m.events);
    }
  }
}
