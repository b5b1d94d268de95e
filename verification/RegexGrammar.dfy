/** The documented pattern syntax as a grammar, what its sentences mean, and the theorem that the
    operator-precedence parser reads every sentence as its meaning. */
module RegexGrammar {
  import opened Ascii
  import opened RegexLanguage
  import opened RegexSyntax
  import opened Texts
  import opened Wrappers

  datatype ClassChar = Raw(c: int) | Escaped(e: int)

  datatype Item = One(x: ClassChar) | Span(lo: ClassChar, hi: ClassChar)

  datatype Quantifier = Question | Asterisk | PlusSign | Exactly(n: nat) | AtLeast(n: nat) | Between(n: nat, m: nat)

  datatype Sentence =
    | Char(c: int)
    | Escape(e: int)
    | Dot
    | Bracketed(negated: bool, items: seq<Item>, dash: bool)
    | Group(inner: Sentence)
    | Quantified(operand: Sentence, q: Quantifier)
    | Sequence(head: Sentence, tail: Sentence)
    | Choice(head: Sentence, tail: Sentence)

  // ----- which sentences the grammar has

  predicate IsSpecial(c: int) {
    c == CARET || c == DOLLAR || c == BAR || c == LEFT_PARENTHESIS || c == RIGHT_PARENTHESIS || c == QUESTION
    || c == ASTERISK || c == PLUS || c == LEFT_BRACE || c == DOT || c == LEFT_BRACKET || c == BACKSLASH
  }

  predicate ClassCharOk(x: ClassChar) {
    match x
    case Raw(c) => IsCharacter(c) && c != RIGHT_BRACKET && c != BACKSLASH
    case Escaped(e) => ClassEscapeValue(e).Some?
  }

  /** A dash right after a single character would start a range, so there an item does not begin with one. */
  predicate ItemsOk(items: seq<Item>, afterOne: bool, dash: bool)
    decreases |items|
  {
    if items == [] then dash ==> afterOne
    else
      match items[0]
      case One(x) => ClassCharOk(x) && (afterOne ==> x != Raw(DASH)) && ItemsOk(items[1..], true, dash)
      case Span(lo, hi) =>
        ClassCharOk(lo) && ClassCharOk(hi) && (afterOne ==> lo != Raw(DASH)) && ItemsOk(items[1..], false, dash)
  }

  function FirstOf(i: Item): ClassChar {
    match i
    case One(x) => x
    case Span(lo, _) => lo
  }

  predicate QuantifierOk(q: Quantifier) {
    match q
    case Exactly(n) => 0 < n < INFINITY_QUANTIFIER
    case AtLeast(n) => n < INFINITY_QUANTIFIER
    case Between(n, m) => n <= m && 0 < m < INFINITY_QUANTIFIER
    case _ => true
  }

  /** How loosely a sentence binds: atoms 0, quantified pieces 1, sequences 2, choices 3. */
  function Looseness(x: Sentence): nat {
    match x
    case Quantified(_, _) => 1
    case Sequence(_, _) => 2
    case Choice(_, _) => 3
    case _ => 0
  }

  /** A sentence of the pattern grammar. */
  predicate IsSentence(x: Sentence) {
    match x
    case Char(c) => IsCharacter(c) && !IsSpecial(c)
    case Escape(e) => EscapeValue(e).Some?
    case Dot => true
    case Bracketed(negated, items, dash) =>
      items != [] && ItemsOk(items, false, dash) && (negated || FirstOf(items[0]) != Raw(CARET))
    case Group(inner) => IsSentence(inner)
    case Quantified(operand, q) => IsSentence(operand) && Looseness(operand) <= 1 && QuantifierOk(q)
    case Sequence(head, tail) => IsSentence(head) && Looseness(head) <= 1 && IsSentence(tail) && Looseness(tail) <= 2
    case Choice(head, tail) => IsSentence(head) && Looseness(head) <= 2 && IsSentence(tail)
  }

  // ----- how sentences are written

  function ClassCharText(x: ClassChar): Source {
    match x
    case Raw(c) => [c]
    case Escaped(e) => [BACKSLASH, e]
  }

  function ItemText(i: Item): Source {
    match i
    case One(x) => ClassCharText(x)
    case Span(lo, hi) => ClassCharText(lo) + ([DASH] + ClassCharText(hi))
  }

  function Closing(dash: bool): Source {
    if dash then [DASH, RIGHT_BRACKET] else [RIGHT_BRACKET]
  }

  function ItemsText(items: seq<Item>, dash: bool): Source {
    if items == [] then Closing(dash) else ItemText(items[0]) + ItemsText(items[1..], dash)
  }

  /** A braced quantifier, after its first number. */
  function AfterLeast(q: Quantifier): Source
    requires q.Exactly? || q.AtLeast? || q.Between?
  {
    match q
    case Exactly(n) => [RIGHT_BRACE]
    case AtLeast(n) => [COMMA, RIGHT_BRACE]
    case Between(n, m) => [COMMA] + (Decimal(m) + [RIGHT_BRACE])
  }

  function QuantifierText(q: Quantifier): Source {
    match q
    case Question => [QUESTION]
    case Asterisk => [ASTERISK]
    case PlusSign => [PLUS]
    case _ => [LEFT_BRACE] + (Decimal(q.n) + AfterLeast(q))
  }

  function BracketsText(negated: bool, items: seq<Item>, dash: bool): Source {
    if negated then [CARET] + ItemsText(items, dash) else ItemsText(items, dash)
  }

  function Text(x: Sentence): Source {
    match x
    case Char(c) => [c]
    case Escape(e) => [BACKSLASH, e]
    case Dot => [DOT]
    case Bracketed(negated, items, dash) => [LEFT_BRACKET] + BracketsText(negated, items, dash)
    case Group(inner) => [LEFT_PARENTHESIS] + (Text(inner) + [RIGHT_PARENTHESIS])
    case Quantified(operand, q) => Text(operand) + QuantifierText(q)
    case Sequence(head, tail) => Text(head) + Text(tail)
    case Choice(head, tail) => Text(head) + ([BAR] + Text(tail))
  }

  // ----- what sentences mean

  function ClassCharValue(x: ClassChar): int
    requires ClassCharOk(x)
  {
    match x
    case Raw(c) => c
    case Escaped(e) => ClassEscapeValue(e).value
  }

  function ItemRange(i: Item): (int, int)
    requires ClassCharOk(FirstOf(i)) && (i.Span? ==> ClassCharOk(i.hi))
  {
    match i
    case One(x) => (ClassCharValue(x), ClassCharValue(x))
    case Span(lo, hi) => (ClassCharValue(lo), ClassCharValue(hi))
  }

  function ItemRanges(items: seq<Item>, afterOne: bool, dash: bool): seq<(int, int)>
    requires ItemsOk(items, afterOne, dash)
    decreases |items|
  {
    if items == [] then if dash then [(DASH, DASH)] else []
    else [ItemRange(items[0])] + ItemRanges(items[1..], items[0].One?, dash)
  }

  function Repeat(r: Re, q: Quantifier): Re {
    match q
    case Question => Rep(r, 0, AtMost(1))
    case Asterisk => Rep(r, 0, Unbounded)
    case PlusSign => Rep(r, 1, Unbounded)
    case Exactly(n) => Rep(r, n, AtMost(n))
    case AtLeast(n) => Rep(r, n, Unbounded)
    case Between(n, m) => Rep(r, n, AtMost(m))
  }

  function Denotes(x: Sentence): Re
    requires IsSentence(x)
    decreases x
  {
    match x
    case Char(c) => Lit(c)
    case Escape(e) => Lit(EscapeValue(e).value)
    case Dot => Any
    case Bracketed(negated, items, dash) => Class(negated, ItemRanges(items, false, dash))
    case Group(inner) => Denotes(inner)
    case Quantified(operand, q) => Repeat(Denotes(operand), q)
    case Sequence(head, tail) => Cat(Denotes(head), Denotes(tail))
    case Choice(head, tail) => Alt(Denotes(head), Denotes(tail))
  }

  // ----- numbers

  lemma ScanDigit(src: Source, i: nat, r: nat, d: nat)
    requires i < |src| && src[i] == d + DIGIT_0 && d < 10 && r * 10 + d < UNSIGNED_MODULUS
    ensures ScanDigits(src, i, r) == ScanDigits(src, i + 1, r * 10 + d)
  {
  }

  lemma {:induction false} ScanDecimal(src: Source, i: nat, n: nat)
    requires At(src, i, Decimal(n)) && n < UNSIGNED_MODULUS
    ensures ScanDigits(src, i, 0) == ScanDigits(src, i + |Decimal(n)|, n)
    decreases n
  {
    hide At, ScanDigits;
    if n < 10 {
      AtFirst(src, i, [n + DIGIT_0]);
      ScanDigit(src, i, 0, n);
    } else {
      var d := [n % 10 + DIGIT_0];
      AtSplit(src, i, Decimal(n / 10), d);
      ScanDecimal(src, i, n / 10);
      AtFirst(src, i + |Decimal(n / 10)|, d);
      ScanDigit(src, i + |Decimal(n / 10)|, n / 10, n % 10);
    }
  }

  lemma ScanNumber(src: Source, i: nat, n: nat)
    requires At(src, i, Decimal(n)) && n < UNSIGNED_MODULUS && !IsDigit(Peek(src, i + |Decimal(n)|))
    ensures ScanUnsigned(src, i) == Some((n, i + |Decimal(n)|))
  {
    DecimalDigits(n);
    AtFirst(src, i, Decimal(n));
    ScanDecimal(src, i, n);
  }

  function Bounds(q: Quantifier): (nat, nat)
    requires q.Exactly? || q.AtLeast? || q.Between?
  {
    match q
    case Exactly(n) => (n, n)
    case AtLeast(n) => (n, INFINITY_QUANTIFIER)
    case Between(n, m) => (n, m)
  }

  lemma ScanQuantifier(src: Source, i: nat, q: Quantifier)
    requires q.Exactly? || q.AtLeast? || q.Between?
    requires At(src, i, QuantifierText(q)) && QuantifierOk(q)
    ensures var p := i + |QuantifierText(q)| - 1;
            ScanBounds(src, i + 1) == Some((Bounds(q).0, Bounds(q).1, p)) && Peek(src, p) == RIGHT_BRACE
  {
    hide At, ScanUnsigned, Decimal, ScanBounds, Peek, AfterLeast;
    var d := Decimal(q.n);
    AtSplit(src, i, [LEFT_BRACE], d + AfterLeast(q));
    AtSplit(src, i + 1, d, AfterLeast(q));
    ScanAfterLeast(src, i + 1 + |d|, q);
    ScanNumber(src, i + 1, q.n);
    BoundsFromParts(src, i + 1, i + 1 + |d|, q);
  }

  /** What follows the first number: not a digit, and up to the closing brace as `q` has it. */
  lemma ScanAfterLeast(src: Source, j: nat, q: Quantifier)
    requires q.Exactly? || q.AtLeast? || q.Between?
    requires At(src, j, AfterLeast(q)) && QuantifierOk(q)
    ensures !IsDigit(Peek(src, j)) && Peek(src, j + |AfterLeast(q)| - 1) == RIGHT_BRACE
    ensures (Peek(src, j) == COMMA) == !q.Exactly?
    ensures q.AtLeast? ==> Peek(src, j + 1) == RIGHT_BRACE
    ensures q.Between? ==> Peek(src, j + 1) != RIGHT_BRACE && ScanUnsigned(src, j + 1) == Some((q.m, j + |AfterLeast(q)| - 1))
  {
    hide At, ScanUnsigned, Decimal;
    AtFirst(src, j, AfterLeast(q));
    if q.Between? {
      ScanUpperBound(src, j, q.m);
    } else if q.AtLeast? {
      AtFirst(src, j + 1, [RIGHT_BRACE]);
    }
  }

  lemma BoundsFromParts(src: Source, i: nat, j: nat, q: Quantifier)
    requires q.Exactly? || q.AtLeast? || q.Between?
    requires QuantifierOk(q) && ScanUnsigned(src, i) == Some((q.n, j))
    requires (Peek(src, j) == COMMA) == !q.Exactly?
    requires q.AtLeast? ==> Peek(src, j + 1) == RIGHT_BRACE
    requires q.Between? ==> Peek(src, j + 1) != RIGHT_BRACE && ScanUnsigned(src, j + 1) == Some((q.m, j + |AfterLeast(q)| - 1))
    ensures ScanBounds(src, i) == Some((Bounds(q).0, Bounds(q).1, j + |AfterLeast(q)| - 1))
  {
    hide ScanUnsigned, Decimal, Peek;
  }

  lemma ScanUpperBound(src: Source, j: nat, m: nat)
    requires At(src, j, [COMMA] + (Decimal(m) + [RIGHT_BRACE])) && m < UNSIGNED_MODULUS
    ensures ScanUnsigned(src, j + 1) == Some((m, j + 1 + |Decimal(m)|))
    ensures Peek(src, j + 1 + |Decimal(m)|) == RIGHT_BRACE && Peek(src, j + 1) != RIGHT_BRACE
  {
    hide At, ScanUnsigned, Decimal;
    AtSplit(src, j, [COMMA], Decimal(m) + [RIGHT_BRACE]);
    AtSplit(src, j + 1, Decimal(m), [RIGHT_BRACE]);
    AtFirst(src, j + 1 + |Decimal(m)|, [RIGHT_BRACE]);
    DecimalDigits(m);
    AtFirst(src, j + 1, Decimal(m));
    ScanNumber(src, j + 1, m);
  }

  // ----- brackets

  lemma ScanClassChar(src: Source, i: nat, x: ClassChar, s: Scan)
    requires At(src, i, ClassCharText(x)) && ClassCharOk(x) && (s.begin ==> x != Raw(CARET))
    ensures ScanBrackets(src, i, s) == ScanBrackets(src, i + |ClassCharText(x)|, RegexSyntax.Item(s.(begin := false), ClassCharValue(x)))
  {
    hide At;
    AtFirst(src, i, ClassCharText(x));
    if x.Escaped? {
      AtFirst(src, i + 1, [x.e]);
    }
  }

  /** The state after an item: one more range, and `step` back to 0 or 1. */
  function AfterItem(s: Scan, i: Item): Scan
    requires ClassCharOk(FirstOf(i)) && (i.Span? ==> ClassCharOk(i.hi))
  {
    Scan(false, Brackets(s.brackets.negated, s.brackets.ranges + [ItemRange(i)]), if i.One? then 1 else 0)
  }

  lemma ScanItem(src: Source, i: nat, item: Item, s: Scan)
    requires At(src, i, ItemText(item)) && ClassCharOk(FirstOf(item)) && (item.Span? ==> ClassCharOk(item.hi))
    requires s.begin ==> FirstOf(item) != Raw(CARET)
    requires s.step == 0 || (s.step == 1 && ClassCharValue(FirstOf(item)) != DASH)
    ensures ScanBrackets(src, i, s) == ScanBrackets(src, i + |ItemText(item)|, AfterItem(s, item))
  {
    hide At, ScanBrackets, ClassCharOk, ClassCharText, ClassCharValue;
    match item
    case One(x) =>
      ScanClassChar(src, i, x, s);
    case Span(lo, hi) =>
      SpanText(src, i, lo, hi);
      ScanClassChar(src, i, lo, s);
      var s1 := RegexSyntax.Item(s.(begin := false), ClassCharValue(lo));
      var j := i + |ClassCharText(lo)|;
      ScanDash(src, j, s1);
      ScanClassChar(src, j + 1, hi, s1.(step := 2));
      var r := s.brackets.ranges;
      assert (r + [(ClassCharValue(lo), ClassCharValue(lo))])[|r| := (ClassCharValue(lo), ClassCharValue(hi))] == r + [ItemRange(item)];
  }

  lemma ScanDash(src: Source, i: nat, s: Scan)
    requires i < |src| && src[i] == DASH && !s.begin && s.step == 1
    ensures ScanBrackets(src, i, s) == ScanBrackets(src, i + 1, s.(step := 2))
  {
  }

  lemma SpanText(src: Source, i: nat, lo: ClassChar, hi: ClassChar)
    requires At(src, i, ItemText(Span(lo, hi)))
    ensures At(src, i, ClassCharText(lo))
    ensures var j := i + |ClassCharText(lo)|;
            j < |src| && src[j] == DASH && At(src, j + 1, ClassCharText(hi))
  {
    hide At;
    var u := ClassCharText(lo);
    AtSplit(src, i, u, [DASH] + ClassCharText(hi));
    AtSplit(src, i + |u|, [DASH], ClassCharText(hi));
    AtFirst(src, i + |u|, [DASH]);
  }

  lemma RawDash(x: ClassChar)
    requires ClassCharOk(x) && x != Raw(DASH)
    ensures ClassCharValue(x) != DASH
  {
  }

  lemma ScanClosing(src: Source, i: nat, dash: bool, s: Scan)
    requires s.step == 0 || s.step == 1
    requires dash ==> s.step == 1
    requires !s.begin && s.brackets.ranges != [] && At(src, i, Closing(dash))
    ensures ScanBrackets(src, i, s)
         == Some((Brackets(s.brackets.negated, s.brackets.ranges + (if dash then [(DASH, DASH)] else [])), i + (if dash then 2 else 1)))
  {
    hide At;
    AtFirst(src, i, Closing(dash));
    if dash {
      AtFirst(src, i + 1, Closing(dash)[1..]);
      assert ScanBrackets(src, i, s) == ScanBrackets(src, i + 1, RegexSyntax.Item(s, DASH));
    } else {
      assert s.brackets.ranges + [] == s.brackets.ranges;
    }
  }

  lemma AfterItemRanges(items: seq<Item>, dash: bool, s: Scan)
    requires items != [] && ItemsOk(items, s.step == 1, dash)
    ensures var s' := AfterItem(s, items[0]);
            && !s'.begin && s'.brackets.negated == s.brackets.negated && s'.brackets.ranges != []
            && (s'.step == 0 || s'.step == 1) && ItemsOk(items[1..], s'.step == 1, dash)
            && s'.brackets.ranges + ItemRanges(items[1..], s'.step == 1, dash) == s.brackets.ranges + ItemRanges(items, s.step == 1, dash)
  {
    var r, h, t := s.brackets.ranges, [ItemRange(items[0])], ItemRanges(items[1..], items[0].One?, dash);
    assert (r + h) + t == r + (h + t);
  }

  lemma {:induction false} ScanItems(src: Source, i: nat, items: seq<Item>, dash: bool, s: Scan)
    requires ItemsOk(items, s.step == 1, dash) && (s.step == 0 || s.step == 1)
    requires s.begin ==> items != [] && FirstOf(items[0]) != Raw(CARET)
    requires s.brackets.ranges != [] || items != []
    requires At(src, i, ItemsText(items, dash))
    ensures ScanBrackets(src, i, s)
         == Some((Brackets(s.brackets.negated, s.brackets.ranges + ItemRanges(items, s.step == 1, dash)),
                  i + |ItemsText(items, dash)|))
    decreases |items|
  {
    hide At, ScanBrackets, ItemText, AfterItem, ItemRange;
    if items == [] {
      ScanClosing(src, i, dash, s);
    } else {
      var u := ItemText(items[0]);
      AtSplit(src, i, u, ItemsText(items[1..], dash));
      if s.step == 1 {
        RawDash(FirstOf(items[0]));
      }
      ScanItem(src, i, items[0], s);
      var s' := AfterItem(s, items[0]);
      AfterItemRanges(items, dash, s);
      ScanItems(src, i + |u|, items[1..], dash, s');
    }
  }

  lemma ScanCaret(src: Source, i: nat)
    requires i < |src| && src[i] == CARET
    ensures ScanBrackets(src, i, FRESH_SCAN) == ScanBrackets(src, i + 1, Scan(false, Brackets(true, []), 0))
  {
  }

  lemma ScanBracketed(src: Source, i: nat, x: Sentence)
    requires x.Bracketed? && IsSentence(x) && Looseness(x) == 0 && At(src, i, BracketsText(x.negated, x.items, x.dash))
    ensures ScanBrackets(src, i, FRESH_SCAN)
         == Some((Brackets(x.negated, ItemRanges(x.items, false, x.dash)), i + |BracketsText(x.negated, x.items, x.dash)|))
  {
    hide At, ScanBrackets, ItemsOk, ItemsText;
    var body := ItemsText(x.items, x.dash);
    var ranges := ItemRanges(x.items, false, x.dash);
    assert [] + ranges == ranges;
    if x.negated {
      AtSplit(src, i, [CARET], body);
      AtFirst(src, i, [CARET]);
      ScanCaret(src, i);
      ScanItems(src, i + 1, x.items, x.dash, Scan(false, Brackets(true, []), 0));
    } else {
      ScanItems(src, i, x.items, x.dash, FRESH_SCAN);
    }
  }

  // ----- the stacks

  /** The operands and operators a sentence leaves behind, not yet reduced, when it is the first of its group. */
  function PendingOperands(x: Sentence): seq<Re>
    requires IsSentence(x)
  {
    match x
    case Sequence(head, tail) => [Denotes(head)] + PendingOperands(tail)
    case Choice(head, tail) => [Denotes(head)] + PendingOperands(tail)
    case _ => [Denotes(x)]
  }

  function PendingOperators(x: Sentence): seq<Operator>
    requires IsSentence(x)
  {
    match x
    case Sequence(head, tail) => [Concatenation] + PendingOperators(tail)
    case Choice(head, tail) => [Alternation] + PendingOperators(tail)
    case _ => []
  }

  ghost predicate Settled(until: Until, operators: seq<Operator>) {
    operators == [] || until.Stops(operators[|operators| - 1])
  }

  /** Reducing what a sentence left behind gives one operand, its meaning. */
  lemma {:induction false} ReducePending(until: Until, x: Sentence, operands: seq<Re>, operators: seq<Operator>)
    requires IsSentence(x) && (until.UntilAlternation? ==> Looseness(x) <= 2)
    ensures Reduce(until, operands + PendingOperands(x), operators + PendingOperators(x))
         == Reduce(until, operands + [Denotes(x)], operators)
    decreases x
  {
    if x.Sequence? || x.Choice? {
      var op := if x.Sequence? then Concatenation else Alternation;
      assert operands + PendingOperands(x) == operands + [Denotes(x.head)] + PendingOperands(x.tail);
      assert operators + PendingOperators(x) == operators + [op] + PendingOperators(x.tail);
      ReducePending(until, x.tail, operands + [Denotes(x.head)], operators + [op]);
      var o1 := operands + [Denotes(x.head)] + [Denotes(x.tail)];
      assert (operators + [op])[..|operators|] == operators;
      assert o1[..|o1| - 2] == operands;
      assert Apply(op, o1) == Done(operands + [Denotes(x)]);
    } else {
      assert operators + [] == operators;
    }
  }

  /** `operands` and `operators` pushed, and `count` atoms more, at a later position. */
  function After(c: Config, pos: nat, operands: seq<Re>, operators: seq<Operator>, count: nat): Config
    requires c.atoms != []
  {
    c.(pos := pos, operands := c.operands + operands, operators := c.operators + operators,
       atoms := c.atoms[..|c.atoms| - 1] + [count])
  }

  function Last(c: Config): nat
    requires c.atoms != []
  {
    c.atoms[|c.atoms| - 1]
  }

  lemma RunStep(src: Source, c: Config, next: Config)
    requires c.pos < |src| && Step(src, c) == Done(next)
    ensures Run(src, c) == Run(src, next)
  {
  }

  lemma StepOpen(src: Source, c: Config)
    requires c.pos < |src| && src[c.pos] == LEFT_PARENTHESIS
    ensures Run(src, c) == Run(src, c.(pos := c.pos + 1, operators := c.operators + [LeftParenthesis], atoms := c.atoms + [0]))
  {
    hide Run;
    RunStep(src, c, c.(pos := c.pos + 1, operators := c.operators + [LeftParenthesis], atoms := c.atoms + [0]));
  }

  lemma StepClose(src: Source, c: Config, next: Config)
    requires c.pos < |src| && src[c.pos] == RIGHT_PARENTHESIS && OnClose(c) == Done(next)
    ensures Run(src, c) == Run(src, next)
  {
    hide At, Reduce, CountAtom;
  }

  lemma StepBar(src: Source, c: Config, next: Config)
    requires c.pos < |src| && src[c.pos] == BAR && OnBar(c) == Done(next)
    ensures Run(src, c) == Run(src, next)
  {
    hide At, Reduce;
  }

  function Joint(c: Config): seq<Operator>
    requires c.atoms != []
  {
    if Last(c) > 0 then [Concatenation] else []
  }

  lemma PushAtomAfter(c: Config, next: nat, r: Re)
    requires c.atoms != []
    ensures PushAtom(c, next, r) == Done(After(c, next, [r], Joint(c), Last(c) + 1))
  {
    var top := |c.atoms| - 1;
    assert c.atoms[top := c.atoms[top] + 1] == c.atoms[..top] + [Last(c) + 1];
    assert c.operators + [] == c.operators;
  }

  lemma AtomStep(src: Source, c: Config, x: Sentence)
    requires IsSentence(x) && Looseness(x) == 0 && !x.Group? && At(src, c.pos, Text(x))
    ensures c.pos < |src| && Step(src, c) == PushAtom(c, c.pos + |Text(x)|, Denotes(x))
  {
    hide At, ScanBrackets, PushAtom, OnBar, OnClose, OnBrace, OnOperator;
    AtFirst(src, c.pos, Text(x));
    if x.Escape? {
      AtFirst(src, c.pos + 1, [x.e]);
    } else if x.Bracketed? {
      BracketsStep(src, c, x);
    }
  }

  lemma BracketsStep(src: Source, c: Config, x: Sentence)
    requires IsSentence(x) && x.Bracketed? && At(src, c.pos, Text(x))
    ensures c.pos < |src| && Step(src, c) == PushAtom(c, c.pos + |Text(x)|, Denotes(x))
  {
    hide At, ScanBrackets, PushAtom, OnBar, OnClose, OnBrace, OnOperator;
    AtFirst(src, c.pos, Text(x));
    assert Text(x)[1..] == BracketsText(x.negated, x.items, x.dash);
    ScanBracketed(src, c.pos + 1, x);
  }

  lemma {:induction false} RunAtom(src: Source, c: Config, x: Sentence)
    requires IsSentence(x) && Looseness(x) == 0 && At(src, c.pos, Text(x)) && c.atoms != []
    ensures Run(src, c) == Run(src, After(c, c.pos + |Text(x)|, [Denotes(x)], Joint(c), Last(c) + 1))
    decreases x, 0
  {
    hide At, Run, Step, PushAtom;
    if x.Group? {
      RunGroup(src, c, x);
    } else {
      AtomStep(src, c, x);
      PushAtomAfter(c, c.pos + |Text(x)|, Denotes(x));
      RunStep(src, c, After(c, c.pos + |Text(x)|, [Denotes(x)], Joint(c), Last(c) + 1));
    }
  }

  lemma {:induction false} RunGroup(src: Source, c: Config, x: Sentence)
    requires x.Group? && IsSentence(x) && At(src, c.pos, Text(x)) && c.atoms != []
    ensures Run(src, c) == Run(src, After(c, c.pos + |Text(x)|, [Denotes(x)], Joint(c), Last(c) + 1))
    decreases x.inner, 4
  {
    hide At, Run, OnClose;
    var inner := x.inner;
    var j := c.pos + 1 + |Text(inner)|;
    var c1 := c.(pos := c.pos + 1, operators := c.operators + [LeftParenthesis], atoms := c.atoms + [0]);
    GroupText(src, c.pos, x);
    StepOpen(src, c);
    var k := RunChoice(src, c1, inner);
    var c2 := After(c1, j, PendingOperands(inner), PendingOperators(inner), k);
    CloseGroup(c, c1, c2, j, inner, k);
    StepClose(src, c2, After(c, j + 1, [Denotes(inner)], Joint(c), Last(c) + 1));
  }

  lemma GroupText(src: Source, i: nat, x: Sentence)
    requires x.Group? && At(src, i, Text(x))
    ensures |Text(x)| == |Text(x.inner)| + 2
    ensures At(src, i + 1, Text(x.inner)) && i + |Text(x)| <= |src|
    ensures src[i] == LEFT_PARENTHESIS && src[i + |Text(x)| - 1] == RIGHT_PARENTHESIS
  {
    hide At;
    var t := Text(x.inner);
    AtSplit(src, i, [LEFT_PARENTHESIS], t + [RIGHT_PARENTHESIS]);
    AtSplit(src, i + 1, t, [RIGHT_PARENTHESIS]);
    AtFirst(src, i, [LEFT_PARENTHESIS]);
    AtFirst(src, i + 1 + |t|, [RIGHT_PARENTHESIS]);
  }

  lemma CloseGroup(c: Config, c1: Config, c2: Config, j: nat, x: Sentence, k: nat)
    requires c.atoms != [] && IsSentence(x)
    requires c1 == c.(pos := c.pos + 1, operators := c.operators + [LeftParenthesis], atoms := c.atoms + [0])
    requires c2 == After(c1, j, PendingOperands(x), PendingOperators(x), k)
    ensures OnClose(c2) == Done(After(c, j + 1, [Denotes(x)], Joint(c), Last(c) + 1))
  {
    hide Denotes, IsSentence, PendingOperands, PendingOperators;
    ReducePending(UntilParenthesis, x, c.operands, c1.operators);
    assert c1.operators[..|c1.operators| - 1] == c.operators;
    assert c2.atoms[..|c2.atoms| - 1] == c.atoms;
    PushAtomAfter(c, j + 1, Denotes(x));
  }

  lemma {:induction false} RunPiece(src: Source, c: Config, x: Sentence)
    requires IsSentence(x) && Looseness(x) <= 1 && At(src, c.pos, Text(x)) && c.atoms != []
    ensures Run(src, c) == Run(src, After(c, c.pos + |Text(x)|, [Denotes(x)], Joint(c), Last(c) + 1))
    decreases x, 1
  {
    hide At, Run, Text, QuantifierText;
    if x.Quantified? {
      QuantifiedText(src, c.pos, x);
      RunPiece(src, c, x.operand);
      var c1 := After(c, c.pos + |Text(x.operand)|, [Denotes(x.operand)], Joint(c), Last(c) + 1);
      var c2 := After(c, c.pos + |Text(x)|, [Denotes(x)], Joint(c), Last(c) + 1);
      assert c1.operands[..|c1.operands| - 1] == c.operands;
      RunQuantifier(src, c1, x.q, c2, Denotes(x.operand));
    } else {
      RunAtom(src, c, x);
    }
  }

  lemma RunQuantifier(src: Source, c1: Config, q: Quantifier, c2: Config, r: Re)
    requires At(src, c1.pos, QuantifierText(q)) && QuantifierOk(q)
    requires c1.operands != [] && c1.operands[|c1.operands| - 1] == r
    requires c2 == c1.(pos := c1.pos + |QuantifierText(q)|, operands := c1.operands[..|c1.operands| - 1] + [Repeat(r, q)])
    ensures Run(src, c1) == Run(src, c2)
  {
    hide At, Run, ScanBounds, ScanBrackets, OnBar, OnClose, PushAtom, EscapeValue, Decimal;
    AtFirst(src, c1.pos, QuantifierText(q));
    if q.Exactly? || q.AtLeast? || q.Between? {
      ScanQuantifier(src, c1.pos, q);
      assert OnBrace(src, c1) == Done(c2);
    }
    RunStep(src, c1, c2);
  }

  lemma SequenceText(src: Source, i: nat, x: Sentence)
    requires x.Sequence? && At(src, i, Text(x))
    ensures |Text(x)| == |Text(x.head)| + |Text(x.tail)|
    ensures At(src, i, Text(x.head)) && At(src, i + |Text(x.head)|, Text(x.tail))
  {
    hide At;
    AtSplit(src, i, Text(x.head), Text(x.tail));
  }

  lemma QuantifiedText(src: Source, i: nat, x: Sentence)
    requires x.Quantified? && At(src, i, Text(x))
    ensures |Text(x)| == |Text(x.operand)| + |QuantifierText(x.q)|
    ensures At(src, i, Text(x.operand)) && At(src, i + |Text(x.operand)|, QuantifierText(x.q))
  {
    hide At, QuantifierText;
    AtSplit(src, i, Text(x.operand), QuantifierText(x.q));
  }

  lemma AfterAfter(c: Config, p1: nat, o1: seq<Re>, r1: seq<Operator>, k1: nat, p2: nat, o2: seq<Re>,
      r2: seq<Operator>, k2: nat)
    requires c.atoms != []
    ensures After(After(c, p1, o1, r1, k1), p2, o2, r2, k2) == After(c, p2, o1 + o2, r1 + r2, k2)
  {
    assert c.operands + o1 + o2 == c.operands + (o1 + o2);
    assert c.operators + r1 + r2 == c.operators + (r1 + r2);
  }

  lemma {:induction false} RunSequence(src: Source, c: Config, x: Sentence) returns (k: nat)
    requires IsSentence(x) && Looseness(x) <= 2 && At(src, c.pos, Text(x)) && c.atoms != []
    ensures k > 0
    ensures Run(src, c) == Run(src, After(c, c.pos + |Text(x)|, PendingOperands(x), Joint(c) + PendingOperators(x), k))
    decreases x, 2
  {
    hide At, Run, Text;
    if x.Sequence? {
      SequenceText(src, c.pos, x);
      RunPiece(src, c, x.head);
      var c1 := After(c, c.pos + |Text(x.head)|, [Denotes(x.head)], Joint(c), Last(c) + 1);
      k := RunSequence(src, c1, x.tail);
      AfterAfter(c, c.pos + |Text(x.head)|, [Denotes(x.head)], Joint(c), Last(c) + 1,
                 c.pos + |Text(x)|, PendingOperands(x.tail), [Concatenation] + PendingOperators(x.tail), k);
    } else {
      k := Last(c) + 1;
      RunPiece(src, c, x);
      assert Joint(c) + [] == Joint(c);
    }
  }

  lemma {:induction false} RunChoice(src: Source, c: Config, x: Sentence) returns (k: nat)
    requires IsSentence(x) && At(src, c.pos, Text(x)) && c.atoms != [] && Last(c) == 0
    requires Settled(UntilAlternation, c.operators)
    ensures Run(src, c) == Run(src, After(c, c.pos + |Text(x)|, PendingOperands(x), PendingOperators(x), k))
    decreases x, 3
  {
    hide At, Run, OnBar, Text;
    if x.Choice? {
      var j := c.pos + |Text(x.head)|;
      ChoiceText(src, c.pos, x);
      var h := RunSequence(src, c, x.head);
      var c1 := After(c, j, PendingOperands(x.head), [] + PendingOperators(x.head), h);
      var c2 := After(c, j + 1, [Denotes(x.head)], [Alternation], 0);
      BarReduces(c, c1, c2, j, x.head, h);
      StepBar(src, c1, c2);
      k := RunChoice(src, c2, x.tail);
      AfterAfter(c, j + 1, [Denotes(x.head)], [Alternation], 0,
                 c.pos + |Text(x)|, PendingOperands(x.tail), PendingOperators(x.tail), k);
    } else {
      k := RunSequence(src, c, x);
      assert [] + PendingOperators(x) == PendingOperators(x);
    }
  }

  lemma ChoiceText(src: Source, i: nat, x: Sentence)
    requires x.Choice? && At(src, i, Text(x))
    ensures |Text(x)| == |Text(x.head)| + 1 + |Text(x.tail)|
    ensures var j := i + |Text(x.head)|;
            At(src, i, Text(x.head)) && j < |src| && src[j] == BAR && At(src, j + 1, Text(x.tail))
  {
    hide At;
    var j := i + |Text(x.head)|;
    AtSplit(src, i, Text(x.head), [BAR] + Text(x.tail));
    AtSplit(src, j, [BAR], Text(x.tail));
    AtFirst(src, j, [BAR]);
  }

  lemma BarReduces(c: Config, c1: Config, c2: Config, j: nat, x: Sentence, k: nat)
    requires c.atoms != [] && Settled(UntilAlternation, c.operators) && IsSentence(x) && Looseness(x) <= 2
    requires c1 == After(c, j, PendingOperands(x), [] + PendingOperators(x), k)
    requires c2 == After(c, j + 1, [Denotes(x)], [Alternation], 0)
    ensures OnBar(c1) == Done(c2)
  {
    assert [] + PendingOperators(x) == PendingOperators(x);
    ReducePending(UntilAlternation, x, c.operands, c.operators);
    assert c1.atoms[|c1.atoms| - 1 := 0] == c2.atoms;
  }

  /** A whole pattern: a choice, with or without anchors around it. */
  function PatternText(x: Sentence, begin: bool, end: bool): Source {
    (if begin then [CARET] else []) + (Text(x) + (if end then [DOLLAR] else []))
  }

  lemma AnchorSteps(src: Source, c: Config, begin: bool)
    requires c.pos < |src| && src[c.pos] == if begin then CARET else DOLLAR
    ensures Run(src, c) == Run(src, if begin then c.(pos := c.pos + 1, anchorBegin := true) else c.(pos := c.pos + 1, anchorEnd := true))
  {
  }

  lemma PatternParts(x: Sentence, begin: bool, end: bool)
    ensures var src := PatternText(x, begin, end);
            var i := if begin then 1 else 0;
            && At(src, i, Text(x))
            && (begin ==> 0 < |src| && src[0] == CARET)
            && |src| == i + |Text(x)| + (if end then 1 else 0)
            && (end ==> src[i + |Text(x)|] == DOLLAR)
  {
    hide At, Text;
    var src := PatternText(x, begin, end);
    var head := if begin then [CARET] else [];
    var tail := if end then [DOLLAR] else [];
    AtWhole(src);
    AtSplit(src, 0, head, Text(x) + tail);
    AtSplit(src, |head|, Text(x), tail);
  }

  /** Every sentence of the grammar is read as what it means. */
  lemma ParserReadsGrammar(x: Sentence, begin: bool, end: bool)
    requires IsSentence(x)
    ensures ParseResult(PatternText(x, begin, end)) == Done(Pattern(Denotes(x), begin, end))
  {
    hide Run, Finish, Text, PatternText, At;
    var src := PatternText(x, begin, end);
    PatternParts(x, begin, end);
    var c := INITIAL.(pos := if begin then 1 else 0, anchorBegin := begin);
    if begin {
      AnchorSteps(src, INITIAL, true);
    }
    var k := RunChoice(src, c, x);
    var c1 := After(c, c.pos + |Text(x)|, PendingOperands(x), PendingOperators(x), k);
    if end {
      AnchorSteps(src, c1, false);
    }
    FinishSentence(src, x, c1.(pos := |src|, anchorEnd := end));
  }

  lemma FinishSentence(src: Source, x: Sentence, c: Config)
    requires IsSentence(x) && c.pos == |src|
    requires c.operands == [] + PendingOperands(x) && c.operators == [] + PendingOperators(x)
    ensures Run(src, c) == Done(Pattern(Denotes(x), c.anchorBegin, c.anchorEnd))
  {
    ReducePending(UntilEmpty, x, [], []);
  }

  /** Every character can be written: those with a meaning of their own by their escapes, all others as they are. */
  lemma EveryCharacterIsWritten(c: int)
    requires IsCharacter(c)
    ensures ParseResult(if IsSpecial(c) then [BACKSLASH, c] else [c]) == Done(Pattern(Lit(c), false, false))
  {
    hide ParseResult;
    var x := if IsSpecial(c) then Escape(c) else Char(c);
    ParserReadsGrammar(x, false, false);
    var text := PatternText(x, false, false);
    assert text == if IsSpecial(c) then [BACKSLASH, c] else [c];
  }

  // ----- patterns written out

  predicate IsPlainChar(c: int) {
    IsCharacter(c) && c !in Codes("^$|()?*+.[{\\")
  }

  lemma PlainIsNotSpecial(c: int)
    ensures IsPlainChar(c) <==> IsCharacter(c) && !IsSpecial(c)
  {
    assert Codes("^$|()?*+.[{\\") == [CARET, DOLLAR, BAR, LEFT_PARENTHESIS, RIGHT_PARENTHESIS, QUESTION, ASTERISK, PLUS, DOT,
                                      LEFT_BRACKET, LEFT_BRACE, BACKSLASH];
  }

  /** The pattern of a sentence, given by its text. */
  lemma ReadAs(x: Sentence, text: Source)
    requires IsSentence(x) && Text(x) == text
    ensures ParseResult(text) == Done(Pattern(Denotes(x), false, false))
  {
    hide ParseResult, Text, Denotes, IsSentence;
    ParserReadsGrammar(x, false, false);
    assert PatternText(x, false, false) == text;
  }

  /** The letters after a backslash, and the codes of the control characters they stand for. */
  lemma LetterEscapes()
    ensures ParseResult(Codes("\\t")) == Done(Pattern(Lit(9), false, false))
    ensures ParseResult(Codes("\\n")) == Done(Pattern(Lit(10), false, false))
    ensures ParseResult(Codes("\\v")) == Done(Pattern(Lit(11), false, false))
    ensures ParseResult(Codes("\\f")) == Done(Pattern(Lit(12), false, false))
    ensures ParseResult(Codes("\\r")) == Done(Pattern(Lit(13), false, false))
  {
    hide ParseResult;
    ReadAs(Escape('t' as int), Codes("\\t"));
    ReadAs(Escape('n' as int), Codes("\\n"));
    ReadAs(Escape('v' as int), Codes("\\v"));
    ReadAs(Escape('f' as int), Codes("\\f"));
    ReadAs(Escape('r' as int), Codes("\\r"));
  }

  /** The same in brackets, and a backspace. */
  lemma LetterEscapesInBrackets()
    ensures ParseResult(Codes("[\\b]")) == Done(Pattern(Class(false, [(8, 8)]), false, false))
    ensures ParseResult(Codes("[\\t]")) == Done(Pattern(Class(false, [(9, 9)]), false, false))
    ensures ParseResult(Codes("[\\n]")) == Done(Pattern(Class(false, [(10, 10)]), false, false))
    ensures ParseResult(Codes("[\\v]")) == Done(Pattern(Class(false, [(11, 11)]), false, false))
    ensures ParseResult(Codes("[\\f]")) == Done(Pattern(Class(false, [(12, 12)]), false, false))
    ensures ParseResult(Codes("[\\r]")) == Done(Pattern(Class(false, [(13, 13)]), false, false))
  {
    hide ParseResult;
    OneEscapeInBrackets('b' as int, 8);
    OneEscapeInBrackets('t' as int, 9);
    OneEscapeInBrackets('n' as int, 10);
    OneEscapeInBrackets('v' as int, 11);
    OneEscapeInBrackets('f' as int, 12);
    OneEscapeInBrackets('r' as int, 13);
    assert Codes("[\\b]") == ['[' as int, '\\' as int, 'b' as int, ']' as int];
    assert Codes("[\\t]") == ['[' as int, '\\' as int, 't' as int, ']' as int];
    assert Codes("[\\n]") == ['[' as int, '\\' as int, 'n' as int, ']' as int];
    assert Codes("[\\v]") == ['[' as int, '\\' as int, 'v' as int, ']' as int];
    assert Codes("[\\f]") == ['[' as int, '\\' as int, 'f' as int, ']' as int];
    assert Codes("[\\r]") == ['[' as int, '\\' as int, 'r' as int, ']' as int];
  }

  lemma OneItem(item: Item, negated: bool)
    requires ItemsOk([item], false, false) && (negated || FirstOf(item) != Raw(CARET))
    ensures var x := Bracketed(negated, [item], false);
            && IsSentence(x) && Denotes(x) == Class(negated, [ItemRange(item)])
            && Text(x) == (if negated then [LEFT_BRACKET, CARET] else [LEFT_BRACKET]) + (ItemText(item) + [RIGHT_BRACKET])
  {
    var items := [item];
    assert items[1..] == [] && ItemsText([], false) == [RIGHT_BRACKET];
    assert ItemRanges([], item.One?, false) == [];
    var text := ItemText(item) + [RIGHT_BRACKET];
    assert ItemsText(items, false) == text;
    assert [LEFT_BRACKET] + ([CARET] + text) == [LEFT_BRACKET, CARET] + text;
  }

  lemma OneEscapeInBrackets(e: int, c: int)
    requires ClassEscapeValue(e) == Some(c)
    ensures ParseResult(['[' as int, '\\' as int, e, ']' as int]) == Done(Pattern(Class(false, [(c, c)]), false, false))
  {
    hide ParseResult;
    OneItem(One(Escaped(e)), false);
    ReadAs(Bracketed(false, [One(Escaped(e))], false), ['[' as int, '\\' as int, e, ']' as int]);
  }

  /** A range in brackets, and its negation. */
  lemma RangesByTheirEnds(lo: int, hi: int)
    requires IsCharacter(lo) && lo != ']' as int && lo != '\\' as int && lo != '^' as int
    requires IsCharacter(hi) && hi != ']' as int && hi != '\\' as int
    ensures ParseResult(['[' as int, lo, '-' as int, hi, ']' as int]) == Done(Pattern(Class(false, [(lo, hi)]), false, false))
    ensures ParseResult(['[' as int, '^' as int, lo, '-' as int, hi, ']' as int]) == Done(Pattern(Class(true, [(lo, hi)]), false, false))
  {
    hide ParseResult;
    var item := Span(Raw(lo), Raw(hi));
    OneItem(item, false);
    OneItem(item, true);
    ReadAs(Bracketed(false, [item], false), ['[' as int, lo, '-' as int, hi, ']' as int]);
    ReadAs(Bracketed(true, [item], false), ['[' as int, '^' as int, lo, '-' as int, hi, ']' as int]);
  }

  /** The operators, by their signs. */
  lemma OperatorsByTheirSigns(a: int, b: int)
    requires IsPlainChar(a) && IsPlainChar(b)
    ensures ParseResult([a, b]) == Done(Pattern(Cat(Lit(a), Lit(b)), false, false))
    ensures ParseResult([a, '|' as int, b]) == Done(Pattern(Alt(Lit(a), Lit(b)), false, false))
    ensures ParseResult(['(' as int, a, ')' as int]) == Done(Pattern(Lit(a), false, false))
    ensures ParseResult(['.' as int]) == Done(Pattern(Any, false, false))
    ensures ParseResult([a, '?' as int]) == Done(Pattern(Rep(Lit(a), 0, AtMost(1)), false, false))
    ensures ParseResult([a, '*' as int]) == Done(Pattern(Rep(Lit(a), 0, Unbounded), false, false))
    ensures ParseResult([a, '+' as int]) == Done(Pattern(Rep(Lit(a), 1, Unbounded), false, false))
  {
    hide ParseResult;
    PlainIsNotSpecial(a);
    PlainIsNotSpecial(b);
    var x, y := Char(a), Char(b);
    ReadAs(Sequence(x, y), [a, b]);
    ReadAs(Choice(x, y), [a, '|' as int, b]);
    ReadAs(Group(x), ['(' as int, a, ')' as int]);
    ReadAs(Dot, ['.' as int]);
    ReadAs(Quantified(x, Question), [a, '?' as int]);
    ReadAs(Quantified(x, Asterisk), [a, '*' as int]);
    ReadAs(Quantified(x, PlusSign), [a, '+' as int]);
  }

  /** The bounds in braces, by their numerals. */
  lemma BoundsByTheirNumerals(a: int, n: nat, m: nat)
    requires IsPlainChar(a) && 0 < n <= m < 0xFFFF_FFFF
    ensures ParseResult([a, '{' as int] + (Decimal(n) + ['}' as int])) == Done(Pattern(Rep(Lit(a), n, AtMost(n)), false, false))
    ensures ParseResult([a, '{' as int] + (Decimal(n) + [',' as int, '}' as int])) == Done(Pattern(Rep(Lit(a), n, Unbounded), false, false))
    ensures ParseResult([a, '{' as int] + (Decimal(n) + ([',' as int] + (Decimal(m) + ['}' as int]))))
         == Done(Pattern(Rep(Lit(a), n, AtMost(m)), false, false))
  {
    hide ParseResult, Decimal;
    PlainIsNotSpecial(a);
    var x := Char(a);
    assert forall s: Source :: [a] + ([LEFT_BRACE] + s) == [a, LEFT_BRACE] + s;
    ReadAs(Quantified(x, Exactly(n)), [a, '{' as int] + (Decimal(n) + ['}' as int]));
    ReadAs(Quantified(x, AtLeast(n)), [a, '{' as int] + (Decimal(n) + [',' as int, '}' as int]));
    ReadAs(Quantified(x, Between(n, m)), [a, '{' as int] + (Decimal(n) + ([',' as int] + (Decimal(m) + ['}' as int]))));
  }

  /** The anchors. */
  lemma AnchorsByTheirSigns(a: int)
    requires IsPlainChar(a)
    ensures ParseResult(['^' as int, a]) == Done(Pattern(Lit(a), true, false))
    ensures ParseResult([a, '$' as int]) == Done(Pattern(Lit(a), false, true))
  {
    hide ParseResult;
    PlainIsNotSpecial(a);
    ParserReadsGrammar(Char(a), true, false);
    ParserReadsGrammar(Char(a), false, true);
    assert PatternText(Char(a), true, false) == ['^' as int, a];
    assert PatternText(Char(a), false, true) == [a, '$' as int];
  }
}
