/** The pattern parser as a machine over regular expressions: the operand, operator and atom-count stacks of
    `GenericRegex::Parse`, with a regular expression where the program keeps a fragment of the automaton. */
module RegexSyntax {
  import opened Ascii
  import opened RegexLanguage
  import opened Texts
  import opened Wrappers

  const INFINITY_QUANTIFIER := 0xFFFFFFFF
  const UNSIGNED_MODULUS := 0x1_0000_0000

  /** In the order of the program's enumeration. */
  datatype Operator = ZeroOrOne | ZeroOrMore | OneOrMore | Concatenation | Alternation | LeftParenthesis {
    predicate BelowAlternation() {
      !Alternation? && !LeftParenthesis?
    }
  }

  // ----- scanning the source

  /** The loop of `ParseUnsigned`, with the 32-bit wrap-around its overflow test lets through. */
  function ScanDigits(src: Source, pos: nat, r: nat): (res: Option<(nat, nat)>)
    requires r < UNSIGNED_MODULUS
    ensures res.Some? ==> (pos <= res.value.1 <= |src| || pos == res.value.1) && res.value.0 < UNSIGNED_MODULUS
    decreases |src| - pos
  {
    if !IsDigit(Peek(src, pos)) then Some((r, pos))
    else if r >= 429496729 && Peek(src, pos) > DIGIT_5 then None
    else ScanDigits(src, pos + 1, (r * 10 + (src[pos] - DIGIT_0)) % UNSIGNED_MODULUS)
  }

  function ScanUnsigned(src: Source, pos: nat): (res: Option<(nat, nat)>)
    ensures res.Some? ==> pos < res.value.1 <= |src| && res.value.0 < UNSIGNED_MODULUS
  {
    if !IsDigit(Peek(src, pos)) then None else ScanDigits(src, pos, 0)
  }

  function EscapeValue(e: int): Option<int> {
    if e == CARET || e == DOLLAR || e == BAR || e == LEFT_PARENTHESIS || e == RIGHT_PARENTHESIS || e == QUESTION
       || e == ASTERISK || e == PLUS || e == DOT || e == LEFT_BRACKET || e == RIGHT_BRACKET || e == LEFT_BRACE
       || e == RIGHT_BRACE || e == BACKSLASH then Some(e)
    else if e == LOWER_F then Some(FORM_FEED)
    else if e == LOWER_N then Some(LINE_FEED)
    else if e == LOWER_R then Some(CARRIAGE_RETURN)
    else if e == LOWER_T then Some(TAB)
    else if e == LOWER_V then Some(VERTICAL_TAB)
    else None
  }

  /** Inside brackets `\b` is a backspace. */
  function ClassEscapeValue(e: int): Option<int> {
    if e == LOWER_B then Some(BACKSPACE) else EscapeValue(e)
  }

  datatype Brackets = Brackets(negated: bool, ranges: seq<(int, int)>)

  /** What `ParseRange` keeps between characters; `step` is 0 before an item, 1 after its first character, 2 after its dash. */
  datatype Scan = Scan(begin: bool, brackets: Brackets, step: int)

  function Item(s: Scan, c: int): Scan {
    var r := s.brackets.ranges;
    if s.step == 1 && c == DASH then s.(step := 2)
    else if s.step == 2 && r != [] then s.(brackets := s.brackets.(ranges := r[|r| - 1 := (r[|r| - 1].0, c)]), step := 0)
    else s.(brackets := s.brackets.(ranges := r + [(c, c)]), step := 1)
  }

  function ScanBrackets(src: Source, pos: nat, s: Scan): (res: Option<(Brackets, nat)>)
    ensures res.Some? ==> pos < res.value.1 <= |src|
    ensures res.Some? ==> res.value.0.ranges != []
    decreases |src| - pos
  {
    if pos >= |src| then None
    else
      var c := src[pos];
      var t := s.(begin := false);
      if s.begin && c == CARET then ScanBrackets(src, pos + 1, t.(brackets := t.brackets.(negated := true)))
      else if c == RIGHT_BRACKET then
        if s.brackets.ranges == [] then None
        else if s.step == 2 then Some((s.brackets.(ranges := s.brackets.ranges + [(DASH, DASH)]), pos + 1))
        else Some((s.brackets, pos + 1))
      else if c == BACKSLASH then
        match ClassEscapeValue(Peek(src, pos + 1))
        case None => None
        case Some(v) => ScanBrackets(src, pos + 2, Item(t, v))
      else ScanBrackets(src, pos + 1, Item(t, c))
  }

  const FRESH_SCAN := Scan(true, Brackets(false, []), 0)

  // ----- the stacks

  /** `Rejected` is an early return with an invalid root; `Asserted` a failed `RAPIDJSON_ASSERT`. */
  datatype Outcome<T> = Done(value: T) | Rejected | Asserted

  function Apply(op: Operator, operands: seq<Re>): Outcome<seq<Re>> {
    var n := |operands|;
    match op
    case Concatenation =>
      if n < 2 then Asserted else Done(operands[..n - 2] + [Cat(operands[n - 2], operands[n - 1])])
    case Alternation =>
      if n < 2 then Rejected else Done(operands[..n - 2] + [Alt(operands[n - 2], operands[n - 1])])
    case ZeroOrOne => if n < 1 then Rejected else Done(operands[..n - 1] + [Optional(operands[n - 1])])
    case ZeroOrMore => if n < 1 then Rejected else Done(operands[..n - 1] + [Rep(operands[n - 1], 0, Unbounded)])
    case OneOrMore => if n < 1 then Rejected else Done(operands[..n - 1] + [Rep(operands[n - 1], 1, Unbounded)])
    case LeftParenthesis => Rejected
  }

  function BoundOf(m: nat): Bound {
    if m == INFINITY_QUANTIFIER then Unbounded else AtMost(m)
  }

  function ApplyQuantifier(operands: seq<Re>, least: nat, m: nat): Outcome<seq<Re>> {
    if operands == [] then Asserted
    else if least == 0 && m == 0 then Rejected
    else Done(operands[..|operands| - 1] + [Rep(operands[|operands| - 1], least, BoundOf(m))])
  }

  /** How far a reduction goes down the operator stack. */
  datatype Until = UntilAlternation | UntilParenthesis | UntilEmpty {
    predicate Stops(op: Operator) {
      match this
      case UntilAlternation => !op.BelowAlternation()
      case UntilParenthesis => op.LeftParenthesis?
      case UntilEmpty => false
    }
  }

  function Reduce(until: Until, operands: seq<Re>, operators: seq<Operator>): (res: Outcome<(seq<Re>, seq<Operator>)>)
    decreases |operators|
  {
    if operators == [] || until.Stops(operators[|operators| - 1]) then Done((operands, operators))
    else
      match Apply(operators[|operators| - 1], operands)
      case Done(rest) => Reduce(until, rest, operators[..|operators| - 1])
      case Rejected => Rejected
      case Asserted => Asserted
  }

  datatype Config = Config(pos: nat, operands: seq<Re>, operators: seq<Operator>, atoms: seq<nat>, anchorBegin: bool, anchorEnd: bool)

  datatype Pattern = Pattern(re: Re, anchorBegin: bool, anchorEnd: bool)

  /** `ImplicitConcatenation`. */
  function CountAtom(c: Config): Outcome<Config> {
    if c.atoms == [] then Asserted
    else
      var top := |c.atoms| - 1;
      Done(c.(operators := if c.atoms[top] > 0 then c.operators + [Concatenation] else c.operators,
              atoms := c.atoms[top := c.atoms[top] + 1]))
  }

  function PushAtom(c: Config, next: nat, r: Re): Outcome<Config> {
    CountAtom(c.(pos := next, operands := c.operands + [r]))
  }

  function OnBar(c: Config): Outcome<Config> {
    match Reduce(UntilAlternation, c.operands, c.operators)
    case Rejected => Rejected
    case Asserted => Asserted
    case Done((operands, operators)) =>
      if c.atoms == [] then Asserted
      else Done(c.(pos := c.pos + 1, operands := operands, operators := operators + [Alternation], atoms := c.atoms[|c.atoms| - 1 := 0]))
  }

  function OnClose(c: Config): Outcome<Config> {
    match Reduce(UntilParenthesis, c.operands, c.operators)
    case Rejected => Rejected
    case Asserted => Asserted
    case Done((operands, operators)) =>
      if operators == [] then Rejected
      else if c.atoms == [] then Asserted
      else CountAtom(c.(pos := c.pos + 1, operands := operands, operators := operators[..|operators| - 1], atoms := c.atoms[..|c.atoms| - 1]))
  }

  function OnOperator(c: Config, op: Operator): Outcome<Config> {
    match Apply(op, c.operands)
    case Rejected => Rejected
    case Asserted => Asserted
    case Done(operands) => Done(c.(pos := c.pos + 1, operands := operands))
  }

  /** The bounds of a `{...}` quantifier, and the position of what should be its closing brace. */
  function ScanBounds(src: Source, pos: nat): (res: Option<(nat, nat, nat)>)
    ensures res.Some? ==> pos < res.value.2 <= |src| && res.value.0 <= res.value.1
  {
    match ScanUnsigned(src, pos)
    case None => None
    case Some((least, p)) =>
      if Peek(src, p) != COMMA then Some((least, least, p))
      else if Peek(src, p + 1) == RIGHT_BRACE then Some((least, INFINITY_QUANTIFIER, p + 1))
      else
        match ScanUnsigned(src, p + 1)
        case None => None
        case Some((m, q)) => if m < least then None else Some((least, m, q))
  }

  function OnBrace(src: Source, c: Config): Outcome<Config> {
    match ScanBounds(src, c.pos + 1)
    case None => Rejected
    case Some((least, m, p)) =>
      match ApplyQuantifier(c.operands, least, m)
      case Rejected => Rejected
      case Asserted => Asserted
      case Done(operands) => if Peek(src, p) != RIGHT_BRACE then Rejected else Done(c.(pos := p + 1, operands := operands))
  }

  function Step(src: Source, c: Config): (res: Outcome<Config>)
    requires c.pos < |src|
    ensures res.Done? ==> c.pos < res.value.pos <= |src|
  {
    var x := src[c.pos];
    if x == CARET then Done(c.(pos := c.pos + 1, anchorBegin := true))
    else if x == DOLLAR then Done(c.(pos := c.pos + 1, anchorEnd := true))
    else if x == BAR then OnBar(c)
    else if x == LEFT_PARENTHESIS then
      Done(c.(pos := c.pos + 1, operators := c.operators + [LeftParenthesis], atoms := c.atoms + [0]))
    else if x == RIGHT_PARENTHESIS then OnClose(c)
    else if x == QUESTION then OnOperator(c, ZeroOrOne)
    else if x == ASTERISK then OnOperator(c, ZeroOrMore)
    else if x == PLUS then OnOperator(c, OneOrMore)
    else if x == LEFT_BRACE then OnBrace(src, c)
    else if x == DOT then PushAtom(c, c.pos + 1, Any)
    else if x == LEFT_BRACKET then
      match ScanBrackets(src, c.pos + 1, FRESH_SCAN)
      case None => Rejected
      case Some((b, p)) => PushAtom(c, p, Class(b.negated, b.ranges))
    else if x == BACKSLASH then
      match EscapeValue(Peek(src, c.pos + 1))
      case None => Rejected
      case Some(v) => PushAtom(c, c.pos + 2, Lit(v))
    else PushAtom(c, c.pos + 1, Lit(x))
  }

  /** After the last character: reduce everything; exactly one operand must be left. */
  function Finish(c: Config): Outcome<Pattern> {
    match Reduce(UntilEmpty, c.operands, c.operators)
    case Rejected => Rejected
    case Asserted => Asserted
    case Done((operands, _)) => if |operands| == 1 then Done(Pattern(operands[0], c.anchorBegin, c.anchorEnd)) else Rejected
  }

  function Run(src: Source, c: Config): Outcome<Pattern>
    decreases |src| - c.pos
  {
    if c.pos >= |src| then Finish(c)
    else
      match Step(src, c)
      case Rejected => Rejected
      case Asserted => Asserted
      case Done(next) => Run(src, next)
  }

  const INITIAL := Config(0, [], [], [0], false, false)

  function ParseResult(src: Source): Outcome<Pattern> {
    Run(src, INITIAL)
  }
}
