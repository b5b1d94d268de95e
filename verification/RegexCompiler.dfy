/** `GenericRegex`: the pattern compiler, with its states, ranges and operand stack updated in place. */
module RegexCompiler {
  import opened Ascii
  import opened RegexLanguage
  import opened RegexNfa
  import opened RegexFragments
  import opened RegexSyntax
  import opened Texts
  import opened Wrappers

  function Regexes(ms: seq<Meaning>): seq<Re> {
    seq(|ms|, i requires 0 <= i < |ms| => ms[i].re)
  }

  lemma RegexesPush(ms: seq<Meaning>, m: Meaning)
    ensures Regexes(ms + [m]) == Regexes(ms) + [m.re]
  {
  }

  lemma RegexesTop(ms: seq<Meaning>, k: nat)
    requires k <= |ms|
    ensures Regexes(ms[..k]) == Regexes(ms)[..k]
  {
  }

  /** A chain of consecutive ranges holding the items of one bracket expression. */
  ghost predicate IsChain(ranges: seq<Range>, base: nat, items: seq<(int, int)>) {
    && |ranges| == base + |items|
    && forall i {:trigger items[i]} | 0 <= i < |items| ::
         ranges[base + i] == Range(items[i].0, items[i].1, if i + 1 < |items| then base + i + 1 else INVALID)
  }

  ghost predicate ItemsDecoded(items: seq<(int, int)>) {
    forall i | 0 <= i < |items| :: IsCharacter(items[i].0)
  }

  /** The finished class: the chain, with the negation flag on its first range. */
  ghost predicate IsClass(ranges: seq<Range>, base: nat, b: Brackets) {
    && b.ranges != [] && base < |ranges|
    && IsChain(ranges[base := ranges[base].(start := b.ranges[0].0)], base, b.ranges)
    && ranges[base].start == b.ranges[0].0 + (if b.negated then RANGE_NEGATION_FLAG else 0)
    && ItemsDecoded(b.ranges)
  }

  lemma InRangesFrom(items: seq<(int, int)>, k: nat, c: int)
    requires k < |items|
    ensures InRanges(items[k..], c) <==> items[k].0 <= c <= items[k].1 || InRanges(items[k + 1..], c)
  {
    var u, v := items[k..], items[k + 1..];
    assert u[0] == items[k];
    if i :| 0 <= i < |v| && v[i].0 <= c <= v[i].1 {
      assert u[i + 1] == v[i];
    }
    if i :| 0 < i < |u| && u[i].0 <= c <= u[i].1 {
      assert v[i - 1] == u[i];
    }
  }

  lemma ChainLink(all: seq<Range>, ranges: seq<Range>, base: nat, b: Brackets, k: nat)
    requires IsClass(ranges, base, b) && ranges <= all && k < |b.ranges|
    ensures base + k < |all|
    ensures var r := all[base + k];
            && r.start % RANGE_NEGATION_FLAG == b.ranges[k].0 && r.end == b.ranges[k].1
            && r.next == if k + 1 < |b.ranges| then base + k + 1 else INVALID
  {
    var chain := ranges[base := ranges[base].(start := b.ranges[0].0)];
    assert chain[base + k] == Range(b.ranges[k].0, b.ranges[k].1, if k + 1 < |b.ranges| then base + k + 1 else INVALID);
    assert all[base + k] == ranges[base + k];
  }

  lemma {:induction false} ChainMeans(all: seq<Range>, ranges: seq<Range>, base: nat, b: Brackets, k: nat, c: int)
    requires IsClass(ranges, base, b) && ranges <= all && RangesOk(all) && k < |b.ranges|
    ensures base + k < |all| && (ChainHas(all, base + k, c) <==> InRanges(b.ranges[k..], c))
    decreases |b.ranges| - k
  {
    hide IsClass, InRanges;
    ChainLink(all, ranges, base, b, k);
    InRangesFrom(b.ranges, k, c);
    if k + 1 < |b.ranges| {
      ChainMeans(all, ranges, base, b, k + 1, c);
    } else {
      assert b.ranges[k + 1..] == [];
      NoRanges(c);
    }
  }

  lemma NoRanges(c: int)
    ensures !InRanges([], c)
  {
  }

  lemma ClassMeans(all: seq<Range>, ranges: seq<Range>, base: nat, b: Brackets, c: int)
    requires IsClass(ranges, base, b) && ranges <= all && RangesOk(all)
    ensures ClassHas(all, base, c) <==> InRanges(b.ranges, c) != b.negated
  {
    ChainMeans(all, ranges, base, b, 0, c);
    assert b.ranges[0..] == b.ranges;
    assert all[base] == ranges[base];
  }

  // ----- what each case of `Eval` leaves on the stack

  function Min(a: int, b: int): int {
    if a < b then a else b
  }

  lemma SameCount(s: seq<State>, ranges: seq<Range>, ops: seq<Frag>, ms: seq<Meaning>)
    requires StackOk(s, ranges, ops, ms, |s|)
    ensures |ops| == |ms| == |Regexes(ms)|
  {
  }

  lemma OneOnTop(s: seq<State>, ranges: seq<Range>, ops: seq<Frag>, ms: seq<Meaning>)
    requires StackOk(s, ranges, ops, ms, |s|) && |ops| >= 1
    ensures |ops| == |ms|
    ensures var n := |ops|;
            && FragOk(s, ranges, ops[n - 1], |s|, ms[n - 1])
            && StackOk(s, ranges, ops[..n - 1], ms[..n - 1], ops[n - 1].minIndex)
            && IsList(s, ops[n - 1].out, ms[n - 1].exits) && Distinct(ms[n - 1].exits) && ms[n - 1].exits != []
            && 0 <= ops[n - 1].minIndex <= |s|
  {
  }

  lemma TwoOnTop(s: seq<State>, ranges: seq<Range>, ops: seq<Frag>, ms: seq<Meaning>)
    requires StackOk(s, ranges, ops, ms, |s|) && |ops| >= 2
    ensures |ops| == |ms|
    ensures var n := |ops|;
            && FragOk(s, ranges, ops[n - 1], |s|, ms[n - 1])
            && FragOk(s, ranges, ops[n - 2], ops[n - 1].minIndex, ms[n - 2])
            && StackOk(s, ranges, ops[..n - 2], ms[..n - 2], ops[n - 2].minIndex)
            && IsList(s, ops[n - 2].out, ms[n - 2].exits) && Distinct(ms[n - 2].exits) && ms[n - 2].exits != []
            && ops[n - 2].minIndex <= ops[n - 1].minIndex
  {
    hide Implements, IsList;
    var n := |ops|;
    assert ops[..n - 1][..n - 2] == ops[..n - 2] && ms[..n - 1][..n - 2] == ms[..n - 2];
  }

  lemma ReplaceTop(s: seq<State>, s': seq<State>, ranges: seq<Range>, ranges': seq<Range>, ops: seq<Frag>,
      ms: seq<Meaning>,
                   keep: nat, f: Frag, m: Meaning)
    requires keep <= |ops| == |ms| && StackOk(s, ranges, ops[..keep], ms[..keep], f.minIndex)
    requires Agree(s, s', f.minIndex) && ranges <= ranges' && FragOk(s', ranges', f, |s'|, m)
    ensures StackOk(s', ranges', ops[..keep] + [f], ms[..keep] + [m], |s'|)
    ensures Regexes(ms[..keep] + [m]) == Regexes(ms)[..keep] + [m.re]
  {
    hide FragOk, StackOk, Agree;
    StackFrame(s, ranges, ops[..keep], ms[..keep], f.minIndex, s', ranges');
    StackPush(s', ranges', ops[..keep], ms[..keep], f, m, |s'|);
    RegexesTop(ms, keep);
    RegexesPush(ms[..keep], m);
  }

  /** Patching only touches the block of the exits. */
  lemma PatchedAgrees(s: seq<State>, ranges: seq<Range>, f: Frag, hi: int, m: Meaning, to: int, s': seq<State>)
    requires FragOk(s, ranges, f, hi, m)
    requires Patched(s, m.exits, to, s') || Joined(s, m.exits, to, s')
    ensures Agree(s, s', f.minIndex)
  {
    hide Implements, IsList;
    assert m.exits[|m.exits| - 1] in m.exits;
  }

  lemma ListAfterPush(s: seq<State>, ranges: seq<Range>, f: Frag, hi: int, m: Meaning, c: State)
    requires FragOk(s, ranges, f, hi, m)
    ensures IsList(s + [c], f.out, m.exits)
  {
    hide Implements;
    IsListFrame(s, f.out, m.exits, s + [c]);
  }

  lemma ConcatenationDone(s: seq<State>, s': seq<State>, ranges: seq<Range>, ops: seq<Frag>,
      ms: seq<Meaning>) returns (f: Frag, m: Meaning)
    requires StackOk(s, ranges, ops, ms, |s|) && |ops| == |ms| >= 2
    requires |s'| == |s| && Patched(s, ms[|ops| - 2].exits, ops[|ops| - 1].start, s')
    ensures var e1, e2 := ops[|ops| - 2], ops[|ops| - 1]; f == Frag(e1.start, e2.out, Min(e1.minIndex, e2.minIndex))
    ensures StackOk(s', ranges, ops[..|ops| - 2] + [f], ms[..|ops| - 2] + [m], |s'|)
    ensures Done(Regexes(ms[..|ops| - 2] + [m])) == Apply(Concatenation, Regexes(ms))
  {
    hide StackOk, FragOk, Patched, Agree;
    var n := |ops|;
    var e1, e2, m1, m2 := ops[n - 2], ops[n - 1], ms[n - 2], ms[n - 1];
    TwoOnTop(s, ranges, ops, ms);
    CatFrag(s, ranges, e1, m1, e2, m2, |s|, s');
    PatchedAgrees(s, ranges, e1, e2.minIndex, m1, e2.start, s');
    f, m := Frag(e1.start, e2.out, Min(e1.minIndex, e2.minIndex)), Meaning(m2.exits, Cat(m1.re, m2.re));
    ReplaceTop(s, s', ranges, ranges, ops, ms, n - 2, f, m);
  }

  lemma AlternationDone(s: seq<State>, s1: seq<State>, s': seq<State>, ranges: seq<Range>, ops: seq<Frag>,
      ms: seq<Meaning>)
    returns (f: Frag, m: Meaning)
    requires StackOk(s, ranges, ops, ms, |s|) && |ops| == |ms| >= 2 && ms[|ops| - 2].exits != []
    requires s1 == s + [State(ops[|ops| - 2].start, ops[|ops| - 1].start, INVALID, 0)]
    requires |s'| == |s1| && Joined(s1, ms[|ops| - 2].exits, ops[|ops| - 1].out, s')
    ensures var e1, e2 := ops[|ops| - 2], ops[|ops| - 1]; f == Frag(|s|, e1.out, Min(e1.minIndex, e2.minIndex))
    ensures StackOk(s', ranges, ops[..|ops| - 2] + [f], ms[..|ops| - 2] + [m], |s'|)
    ensures Done(Regexes(ms[..|ops| - 2] + [m])) == Apply(Alternation, Regexes(ms))
  {
    var n := |ops|;
    var e1, e2, m1, m2 := ops[n - 2], ops[n - 1], ms[n - 2], ms[n - 1];
    TwoOnTop(s, ranges, ops, ms);
    JoinedEarlier(s, s1, s', ranges, e1, e2.minIndex, m1, e2.out);
    hide StackOk, FragOk, Joined, Agree;
    AltFrag(s, ranges, e1, m1, e2, m2, s');
    PatchedAgrees(s, ranges, e1, e2.minIndex, m1, e2.out, s');
    f, m := Frag(|s|, e1.out, Min(e1.minIndex, e2.minIndex)), Meaning(m1.exits + m2.exits, Alt(m1.re, m2.re));
    ReplaceTop(s, s', ranges, ranges, ops, ms, n - 2, f, m);
  }

  /** A link made after a state was pushed is a link made before, and the pushed state is as it was. */
  lemma JoinedEarlier(s: seq<State>, s1: seq<State>, s': seq<State>, ranges: seq<Range>, f: Frag, hi: int, m: Meaning,
      to: int)
    requires FragOk(s, ranges, f, hi, m) && |s1| == |s'| == |s| + 1 && s1[..|s|] == s
    requires Joined(s1, m.exits, to, s')
    ensures Joined(s, m.exits, to, s') && s'[|s|] == s1[|s|]
  {
    hide Implements, IsList;
    assert m.exits[|m.exits| - 1] in m.exits;
    assert forall p | 0 <= p < |s| :: s1[p] == s[p];
  }

  lemma PatchedEarlier(s: seq<State>, s1: seq<State>, s': seq<State>, ranges: seq<Range>, f: Frag, hi: int,
      m: Meaning, to: int)
    requires FragOk(s, ranges, f, hi, m) && |s1| == |s'| == |s| + 1 && s1[..|s|] == s
    requires Patched(s1, m.exits, to, s')
    ensures Patched(s, m.exits, to, s') && s'[|s|] == s1[|s|]
  {
    hide Implements, IsList;
    assert forall p | 0 <= p < |s| :: s1[p] == s[p];
  }

  lemma ZeroOrOneDone(s: seq<State>, s1: seq<State>, s': seq<State>, ranges: seq<Range>, ops: seq<Frag>,
      ms: seq<Meaning>)
    returns (f: Frag, m: Meaning)
    requires StackOk(s, ranges, ops, ms, |s|) && |ops| == |ms| >= 1 && ms[|ops| - 1].exits != []
    requires s1 == s + [State(INVALID, ops[|ops| - 1].start, INVALID, 0)]
    requires |s'| == |s1| && Joined(s1, ms[|ops| - 1].exits, |s|, s')
    ensures f == Frag(|s|, ops[|ops| - 1].out, ops[|ops| - 1].minIndex)
    ensures StackOk(s', ranges, ops[..|ops| - 1] + [f], ms[..|ops| - 1] + [m], |s'|)
    ensures Done(Regexes(ms[..|ops| - 1] + [m])) == Apply(ZeroOrOne, Regexes(ms))
  {
    var n := |ops|;
    var e, m0 := ops[n - 1], ms[n - 1];
    OneOnTop(s, ranges, ops, ms);
    JoinedEarlier(s, s1, s', ranges, e, |s|, m0, |s|);
    hide StackOk, FragOk, Joined, Agree;
    OptionalFrag(s, ranges, e, m0, s');
    PatchedAgrees(s, ranges, e, |s|, m0, |s|, s');
    f, m := Frag(|s|, e.out, e.minIndex), Meaning(m0.exits + [|s|], Optional(m0.re));
    ReplaceTop(s, s', ranges, ranges, ops, ms, n - 1, f, m);
  }

  lemma LoopDone(op: Operator, s: seq<State>, s1: seq<State>, s': seq<State>, ranges: seq<Range>, ops: seq<Frag>,
      ms: seq<Meaning>)
    returns (f: Frag, m: Meaning)
    requires op.ZeroOrMore? || op.OneOrMore?
    requires StackOk(s, ranges, ops, ms, |s|) && |ops| == |ms| >= 1
    requires s1 == s + [State(INVALID, ops[|ops| - 1].start, INVALID, 0)]
    requires |s'| == |s1| && Patched(s1, ms[|ops| - 1].exits, |s|, s')
    ensures f == Frag(if op.ZeroOrMore? then |s| else ops[|ops| - 1].start, |s|, ops[|ops| - 1].minIndex)
    ensures StackOk(s', ranges, ops[..|ops| - 1] + [f], ms[..|ops| - 1] + [m], |s'|)
    ensures Done(Regexes(ms[..|ops| - 1] + [m])) == Apply(op, Regexes(ms))
  {
    var n := |ops|;
    var e, m0 := ops[n - 1], ms[n - 1];
    OneOnTop(s, ranges, ops, ms);
    PatchedEarlier(s, s1, s', ranges, e, |s|, m0, |s|);
    hide StackOk, FragOk, Patched, Agree;
    LoopFrag(s, ranges, e, m0, s');
    PatchedAgrees(s, ranges, e, |s|, m0, |s|, s');
    f := Frag(if op.ZeroOrMore? then |s| else e.start, |s|, e.minIndex);
    m := Meaning([|s|], Rep(m0.re, if op.ZeroOrMore? then 0 else 1, Unbounded));
    ReplaceTop(s, s', ranges, ranges, ops, ms, n - 1, f, m);
  }

  lemma CloneDone(s: seq<State>, s': seq<State>, ranges: seq<Range>, ops: seq<Frag>, ms: seq<Meaning>,
      e: Frag) returns (f: Frag, m: Meaning)
    requires StackOk(s, ranges, ops, ms, |s|) && |ops| == |ms| >= 1 && e == ops[|ops| - 1]
    requires CopiedAbove(s, e.minIndex, s')
    ensures var count := |s| - e.minIndex; f == Frag(e.start + count, e.out + count, e.minIndex + count)
    ensures StackOk(s', ranges, ops + [f], ms + [m], |s'|)
    ensures Regexes(ms + [m]) == Regexes(ms) + [Regexes(ms)[|ops| - 1]]
  {
    var n, m0, count := |ops|, ms[|ms| - 1], |s| - e.minIndex;
    assert Agree(s, s', |s|);
    OneOnTop(s, ranges, ops, ms);
    hide StackOk, FragOk, CopiedAbove, Agree;
    CloneFrag(s, ranges, e, m0, s');
    f, m := Frag(e.start + count, e.out + count, e.minIndex + count), Meaning(Shift(m0.exits, count), m0.re);
    hide Regexes;
    PushOnTop(s, s', ranges, ranges, ops, ms, f, m);
    RegexesPush(ms, m);
    RegexesLast(ms);
  }

  lemma RegexesLast(ms: seq<Meaning>)
    requires ms != []
    ensures |Regexes(ms)| == |ms| && Regexes(ms)[|ms| - 1] == ms[|ms| - 1].re
  {
  }

  lemma PushOnTop(s: seq<State>, s': seq<State>, ranges: seq<Range>, ranges': seq<Range>, ops: seq<Frag>,
      ms: seq<Meaning>, f: Frag, m: Meaning)
    requires StackOk(s, ranges, ops, ms, |s|) && f.minIndex == |s|
    requires Agree(s, s', |s|) && ranges <= ranges' && FragOk(s', ranges', f, |s'|, m)
    ensures StackOk(s', ranges', ops + [f], ms + [m], |s'|)
  {
    hide StackOk, FragOk, Agree;
    StackFrame(s, ranges, ops, ms, |s|, s', ranges');
    StackPush(s', ranges', ops, ms, f, m, |s'|);
  }

  /** Pushing a one-state fragment. */
  lemma CharacterDone(s: seq<State>, c: State, ranges: seq<Range>, ranges': seq<Range>, ops: seq<Frag>,
      ms: seq<Meaning>, r: Re)
    returns (f: Frag, m: Meaning)
    requires StackOk(s, ranges, ops, ms, |s|) && |ops| == |ms| && ranges <= ranges'
    requires c.out == INVALID && c.out1 == INVALID && (r.Lit? || r.Any? || r.Class?)
    requires forall a: Nfa, p: int, x: int {:trigger a.Consumes(p, x)} |
               a.Valid() && ranges' <= a.ranges && a.IsState(p) && a.states[p].codepoint == c.codepoint && a.states[p].rangeStart == c.rangeStart ::
               a.Consumes(p, x) <==> InLanguage(r, [x])
    ensures f == Frag(|s|, |s|, |s|)
    ensures StackOk(s + [c], ranges', ops + [f], ms + [m], |s| + 1)
    ensures Regexes(ms + [m]) == Regexes(ms) + [r]
  {
    CharacterFrag(s, ranges', s + [c], c, r);
    f, m := Frag(|s|, |s|, |s|), Meaning([|s|], r);
    PushOnTop(s, s + [c], ranges, ranges', ops, ms, f, m);
    RegexesPush(ms, m);
  }

  // ----- the operands a quantifier works on

  function Times(e: Re, k: nat): seq<Re> {
    seq(k, _ => e)
  }

  /** `k` concatenations, from the top of the stack. */
  function Concatenated(operands: seq<Re>, k: nat): seq<Re>
    requires |operands| > k
    decreases k
  {
    if k == 0 then operands
    else
      var n := |operands|;
      Concatenated(operands[..n - 2] + [Cat(operands[n - 2], operands[n - 1])], k - 1)
  }

  lemma {:induction false} ConcatenatedTwice(operands: seq<Re>, j: nat, k: nat)
    requires |operands| > j + k
    ensures |Concatenated(operands, j)| == |operands| - j
    ensures Concatenated(operands, j + k) == Concatenated(Concatenated(operands, j), k)
    decreases j
  {
    if j > 0 {
      var n := |operands|;
      ConcatenatedTwice(operands[..n - 2] + [Cat(operands[n - 2], operands[n - 1])], j - 1, k);
    }
  }

  lemma {:induction false} ConcatenatedCopies(base: seq<Re>, e: Re, k: nat, tail: Re)
    ensures Concatenated(base + Times(e, k) + [tail], k) == base + [Copies(e, k, tail)]
    decreases k
  {
    var ops := base + Times(e, k) + [tail];
    if k == 0 {
      assert ops == base + [tail];
    } else {
      var n := |ops|;
      assert ops[..n - 2] + [Cat(ops[n - 2], ops[n - 1])] == base + Times(e, k - 1) + [Cat(e, tail)];
      ConcatenatedCopies(base, e, k - 1, Cat(e, tail));
      CopiesInside(e, k - 1, tail);
    }
  }

  lemma {:induction false} CopiesInside(e: Re, k: nat, tail: Re)
    ensures Copies(e, k, Cat(e, tail)) == Copies(e, k + 1, tail)
  {
    if k > 0 {
      CopiesInside(e, k - 1, tail);
    }
  }

  lemma {:induction false} OptionalRunIsCopies(e: Re, count: nat)
    requires count > 0
    ensures OptionalRun(e, count) == Copies(Optional(e), count - 1, Optional(e))
  {
    if count > 1 {
      OptionalRunIsCopies(e, count - 1);
    }
  }

  /** The last steps of each branch of `EvalQuantifier`. */
  lemma OptionalsCollapse(base: seq<Re>, e: Re, count: nat)
    requires count > 0
    ensures Concatenated(base + [Optional(e)] + Times(Optional(e), count - 1), count - 1) == base + [OptionalRun(e, count)]
  {
    var o := Optional(e);
    assert base + [o] + Times(o, count - 1) == base + Times(o, count - 1) + [o];
    ConcatenatedCopies(base, o, count - 1, o);
    OptionalRunIsCopies(e, count);
  }

  lemma MixedCollapse(base: seq<Re>, e: Re, least: nat, extra: nat)
    requires extra > 0 && least > 0
    ensures Concatenated(base + Times(e, least) + [Optional(e)] + Times(Optional(e), extra - 1), extra + (least - 1))
         == base + [Copies(e, least, OptionalRun(e, extra))]
  {
    var all := base + Times(e, least) + [Optional(e)] + Times(Optional(e), extra - 1);
    OptionalsCollapse(base + Times(e, least), e, extra);
    ConcatenatedTwice(all, extra - 1, least);
    ConcatenatedCopies(base, e, least, OptionalRun(e, extra));
  }

  lemma RenameTop(s: seq<State>, ranges: seq<Range>, ops: seq<Frag>, ms: seq<Meaning>, q: Re)
    requires StackOk(s, ranges, ops, ms, |s|) && |ops| == |ms| >= 1 && SameMeaning(ms[|ms| - 1].re, q)
    ensures var top := |ms| - 1;
            && StackOk(s, ranges, ops, ms[..top] + [Meaning(ms[top].exits, q)], |s|)
            && Regexes(ms[..top] + [Meaning(ms[top].exits, q)]) == Regexes(ms)[..top] + [q]
  {
    var top := |ms| - 1;
    var f, m, m' := ops[top], ms[top], Meaning(ms[top].exits, q);
    OneOnTop(s, ranges, ops, ms);
    forall a: Nfa, off: int, t: int | Embeds(s, f.minIndex, |s|, m'.exits, a, off, t) && ranges <= a.ranges
      ensures Behaves(a, f.minIndex + off, |s| + off, f.start + off, t, q)
    {
      SameMeaningBehaves(a, f.minIndex + off, |s| + off, f.start + off, t, m.re, q);
    }
    hide StackOk, FragOk, Regexes;
    assert ops[..top] + [f] == ops;
    StackPush(s, ranges, ops[..top], ms[..top], f, m', |s|);
    RegexesTop(ms, top);
    RegexesPush(ms[..top], m');
  }

  // ----- `ParseRange`, a character at a time

  lemma EmptyChain(ranges: seq<Range>)
    ensures IsChain(ranges, |ranges|, [])
  {
  }

  lemma ChainLength(ranges: seq<Range>, base: nat, items: seq<(int, int)>)
    requires IsChain(ranges, base, items)
    ensures |ranges| == base + |items|
  {
  }

  lemma ScanEnd(src: Source, pos: nat, s: Scan)
    requires pos >= |src|
    ensures ScanBrackets(src, pos, s) == None
  {
  }

  lemma ScanStep(src: Source, pos: nat, s: Scan)
    requires pos < |src|
    ensures var t := s.(begin := false);
            ScanBrackets(src, pos, s) ==
              if s.begin && src[pos] == CARET then ScanBrackets(src, pos + 1, t.(brackets := t.brackets.(negated := true)))
              else if src[pos] == RIGHT_BRACKET then
                if s.brackets.ranges == [] then None
                else Some((if s.step == 2 then s.brackets.(ranges := s.brackets.ranges + [(DASH, DASH)]) else s.brackets, pos + 1))
              else if src[pos] == BACKSLASH then
                if ClassEscapeValue(Peek(src, pos + 1)).None? then None
                else ScanBrackets(src, pos + 2, Item(t, ClassEscapeValue(Peek(src, pos + 1)).value))
              else ScanBrackets(src, pos + 1, Item(t, src[pos]))
  {
  }

  lemma SetEnd(ranges: seq<Range>, base: nat, items: seq<(int, int)>, c: int)
    requires IsChain(ranges, base, items) && items != []
    ensures var last := |items| - 1;
            IsChain(ranges[base + last := ranges[base + last].(end := c)], base, items[last := (items[last].0, c)])
  {
    var last := |items| - 1;
    assert items[last] == items[last];
    var items', ranges' := items[last := (items[last].0, c)], ranges[base + last := ranges[base + last].(end := c)];
    forall i {:trigger items'[i]} | 0 <= i < |items'|
      ensures ranges'[base + i] == Range(items'[i].0, items'[i].1, if i + 1 < |items'| then base + i + 1 else INVALID)
    {
      assert items[i] == items[i];
    }
  }

  lemma MarkClass(ranges: seq<Range>, base: nat, items: seq<(int, int)>, negate: bool)
    requires IsChain(ranges, base, items) && items != [] && ItemsDecoded(items)
    ensures base < |ranges| && !negate ==> IsClass(ranges, base, Brackets(false, items))
    ensures base < |ranges| && negate ==>
              IsClass(ranges[base := ranges[base].(start := ranges[base].start + RANGE_NEGATION_FLAG)], base, Brackets(true, items))
  {
    assert items[0] == items[0];
    assert base + 0 == base;
    var marked := ranges[base := ranges[base].(start := ranges[base].start + RANGE_NEGATION_FLAG)];
    assert marked[base := marked[base].(start := items[0].0)] == ranges;
    assert ranges[base := ranges[base].(start := items[0].0)] == ranges;
  }

  lemma ClassRangesOk(before: seq<Range>, ranges: seq<Range>, b: Brackets)
    requires RangesOk(before) && IsClass(ranges, |before|, b) && ranges[..|before|] == before
    ensures RangesOk(ranges) && before <= ranges
  {
    var base := |before|;
    var chain := ranges[base := ranges[base].(start := b.ranges[0].0)];
    forall i | 0 <= i < |ranges|
      ensures ranges[i].next == INVALID || i < ranges[i].next < |ranges|
    {
      if i < base {
        assert ranges[i] == before[i];
      } else {
        assert b.ranges[i - base] == b.ranges[i - base];
        assert chain[base + (i - base)].next == ranges[i].next;
      }
    }
  }

  lemma ClassConsumes(c: State, ranges: seq<Range>, base: nat, b: Brackets)
    requires IsClass(ranges, base, b) && c.codepoint == RANGE_CHARACTER_CLASS && c.rangeStart == base
    ensures forall a: Nfa, p: int, x: int {:trigger a.Consumes(p, x)} |
              a.Valid() && ranges <= a.ranges && a.IsState(p) && a.states[p].codepoint == c.codepoint && a.states[p].rangeStart == c.rangeStart ::
              a.Consumes(p, x) <==> InLanguage(Class(b.negated, b.ranges), [x])
  {
    forall a: Nfa, p: int, x: int {:trigger a.Consumes(p, x)} |
      a.Valid() && ranges <= a.ranges && a.IsState(p) && a.states[p].codepoint == c.codepoint && a.states[p].rangeStart == c.rangeStart
      ensures a.Consumes(p, x) <==> InLanguage(Class(b.negated, b.ranges), [x])
    {
      ClassMeans(a.ranges, ranges, base, b, x);
      hide IsClass, ClassHas, InRanges;
    }
  }

  lemma CountAtomNeedsOne(c: Config)
    requires !CountAtom(c).Asserted?
    ensures c.atoms != []
  {
  }

  ghost predicate IsCompiled(a: Nfa, root: int, re: Re) {
    && a.states != [] && a.Valid()
    && a.states[|a.states| - 1] == State(INVALID, INVALID, INVALID, 0)
    && (forall p | 0 <= p < |a.states| - 1 :: 0 <= a.states[p].out < |a.states|)
    && Behaves(a, 0, |a.states| - 1, root, |a.states| - 1, re)
  }

  /** Characters that push an operand: all but the operators and the anchors. */
  predicate StartsAtom(c: int) {
    && c != CARET && c != DOLLAR && c != BAR && c != LEFT_PARENTHESIS && c != RIGHT_PARENTHESIS
    && c != QUESTION && c != ASTERISK && c != PLUS && c != LEFT_BRACE
  }

  lemma CopyDone(s: seq<State>, lo: int, s': seq<State>)
    requires 0 <= lo <= |s| && |s'| == |s| + (|s| - lo) && s'[..|s|] == s
    requires forall p {:trigger s'[p]} | |s| <= p < |s'| :: s'[p] == Cloned(s[p - (|s| - lo)], |s| - lo)
    ensures CopiedAbove(s, lo, s')
  {
    forall p | 0 <= p < |s|
      ensures s'[p] == s[p]
    {
      assert s'[..|s|][p] == s'[p];
    }
  }

  class GenericRegex {
    var states: seq<State>
    var ranges: seq<Range>
    var operands: seq<Frag>
    ghost var meanings: seq<Meaning>
    var root: int
    var anchorBegin: bool
    var anchorEnd: bool

    ghost predicate Valid()
      reads this
    {
      RangesOk(ranges) && StackOk(states, ranges, operands, meanings, |states|)
    }

    /** The regular expressions on the operand stack. */
    ghost function Operands(): seq<Re>
      reads this
    {
      Regexes(meanings)
    }

    constructor Empty()
      ensures Valid() && states == [] && operands == [] && Operands() == [] && root == INVALID && !anchorBegin && !anchorEnd
    {
      states, ranges, operands, meanings, root := [], [], [], [], INVALID;
      anchorBegin, anchorEnd := false, false;
    }

    predicate IsValid()
      reads this
    {
      root != INVALID
    }

    method NewState(out: int, out1: int, codepoint: int) returns (index: int)
      modifies this`states
      ensures index == |old(states)| && states == old(states) + [State(out, out1, INVALID, codepoint)]
    {
      states := states + [State(out, out1, INVALID, codepoint)];
      index := |states| - 1;
    }

    /** `l2` is linked to the end of the list that starts at `l1`. */
    method Append(l1: int, l2: int, ghost exits: seq<int>) returns (first: int)
      requires exits != [] && IsList(states, l1, exits)
      modifies this`states
      ensures first == l1 && |states| == |old(states)| && Joined(old(states), exits, l2, states)
    {
      var l := l1;
      ghost var k := 0;
      assert exits[0..] == exits;
      while states[l].out != INVALID
        invariant 0 <= k < |exits| && IsList(states, l, exits[k..]) && l == exits[k]
        decreases |exits| - k
      {
        assert exits[k..][1..] == exits[k + 1..];
        l := states[l].out;
        k := k + 1;
      }
      assert exits[k..][1..] == exits[k + 1..];
      states := states[l := states[l].(out := l2)];
      first := l1;
    }

    /** Every state on the list that starts at `l` gets `s` as its exit. */
    method Patch(l: int, s: int, ghost exits: seq<int>)
      requires IsList(states, l, exits) && Distinct(exits)
      modifies this`states
      ensures |states| == |old(states)| && Patched(old(states), exits, s, states)
    {
      var cur := l;
      ghost var k := 0;
      assert exits[0..] == exits;
      while cur != INVALID
        invariant 0 <= k <= |exits| && |states| == |old(states)| && IsList(states, cur, exits[k..])
        invariant Patched(old(states), exits[..k], s, states)
        decreases |exits| - k
      {
        assert exits[k..][1..] == exits[k + 1..] && exits[..k + 1] == exits[..k] + [exits[k]];
        assert exits[k] !in exits[k + 1..];
        ListMembers(states, states[cur].out, exits[k + 1..]);
        var next := states[cur].out;
        IsListFrame(states, next, exits[k + 1..], states[cur := states[cur].(out := s)]);
        states := states[cur := states[cur].(out := s)];
        cur := next;
        k := k + 1;
      }
      assert exits[..k] == exits;
    }

    // ----- `Eval`, one method for each of its cases

    method EvalConcatenation()
      requires Valid() && |operands| >= 2
      modifies this`states, this`operands, this`meanings
      ensures Valid() && Done(Operands()) == Apply(Concatenation, old(Operands()))
    {
      hide StackOk, FragOk, Patched, Regexes, Apply;
      var n := |operands|;
      TwoOnTop(states, ranges, operands, meanings);
      var e2, e1 := operands[n - 1], operands[n - 2];
      Patch(e1.out, e2.start, meanings[n - 2].exits);
      ghost var f, m := ConcatenationDone(old(states), states, ranges, operands, meanings);
      operands := operands[..n - 2] + [Frag(e1.start, e2.out, Min(e1.minIndex, e2.minIndex))];
      meanings := meanings[..n - 2] + [m];
    }

    method EvalAlternation() returns (ok: bool)
      requires Valid()
      modifies this`states, this`operands, this`meanings
      ensures ok == (|old(operands)| >= 2)
      ensures ok ==> Valid() && Done(Operands()) == Apply(Alternation, old(Operands()))
    {
      hide StackOk, FragOk, Joined, Regexes, Apply;
      var n := |operands|;
      if n < 2 {
        return false;
      }
      TwoOnTop(states, ranges, operands, meanings);
      var e2, e1 := operands[n - 1], operands[n - 2];
      ListAfterPush(states, ranges, e1, e2.minIndex, meanings[n - 2], State(e1.start, e2.start, INVALID, 0));
      var s := NewState(e1.start, e2.start, 0);
      ghost var s1 := states;
      var out := Append(e1.out, e2.out, meanings[n - 2].exits);
      ghost var f, m := AlternationDone(old(states), s1, states, ranges, operands, meanings);
      operands := operands[..n - 2] + [Frag(s, out, Min(e1.minIndex, e2.minIndex))];
      meanings := meanings[..n - 2] + [m];
      ok := true;
    }

    method EvalZeroOrOne() returns (ok: bool)
      requires Valid()
      modifies this`states, this`operands, this`meanings
      ensures ok == (|old(operands)| >= 1)
      ensures ok ==> Valid() && Done(Operands()) == Apply(ZeroOrOne, old(Operands()))
    {
      hide StackOk, FragOk, Joined, Regexes, Apply;
      var n := |operands|;
      if n < 1 {
        return false;
      }
      OneOnTop(states, ranges, operands, meanings);
      var e := operands[n - 1];
      ListAfterPush(states, ranges, e, |states|, meanings[n - 1], State(INVALID, e.start, INVALID, 0));
      var s := NewState(INVALID, e.start, 0);
      ghost var s1 := states;
      var out := Append(e.out, s, meanings[n - 1].exits);
      ghost var f, m := ZeroOrOneDone(old(states), s1, states, ranges, operands, meanings);
      operands := operands[..n - 1] + [Frag(s, out, e.minIndex)];
      meanings := meanings[..n - 1] + [m];
      ok := true;
    }

    /** `kZeroOrMore` and `kOneOrMore`, which differ only in where the loop is entered. */
    method EvalLoop(op: Operator) returns (ok: bool)
      requires Valid() && (op.ZeroOrMore? || op.OneOrMore?)
      modifies this`states, this`operands, this`meanings
      ensures ok == (|old(operands)| >= 1)
      ensures ok ==> Valid() && Done(Operands()) == Apply(op, old(Operands()))
    {
      hide StackOk, FragOk, Patched, Regexes, Apply;
      var n := |operands|;
      if n < 1 {
        return false;
      }
      OneOnTop(states, ranges, operands, meanings);
      var e := operands[n - 1];
      ListAfterPush(states, ranges, e, |states|, meanings[n - 1], State(INVALID, e.start, INVALID, 0));
      var s := NewState(INVALID, e.start, 0);
      ghost var s1 := states;
      Patch(e.out, s, meanings[n - 1].exits);
      ghost var f, m := LoopDone(op, old(states), s1, states, ranges, operands, meanings);
      operands := operands[..n - 1] + [Frag(if op.ZeroOrMore? then s else e.start, s, e.minIndex)];
      meanings := meanings[..n - 1] + [m];
      ok := true;
    }

    method Eval(op: Operator) returns (ok: bool)
      requires Valid() && !Apply(op, Operands()).Asserted?
      modifies this`states, this`operands, this`meanings
      ensures ok == Apply(op, old(Operands())).Done?
      ensures ok ==> Valid() && Done(Operands()) == Apply(op, old(Operands()))
    {
      hide StackOk, Regexes;
      SameCount(states, ranges, operands, meanings);
      match op {
        case Concatenation =>
          EvalConcatenation();
          ok := true;
        case Alternation =>
          ok := EvalAlternation();
        case ZeroOrOne =>
          ok := EvalZeroOrOne();
        case ZeroOrMore =>
          ok := EvalLoop(op);
        case OneOrMore =>
          ok := EvalLoop(op);
        case LeftParenthesis =>
          ok := false;
      }
    }

    /** Pushes a copy of the top operand: its block of states, moved up by its own length. */
    method CloneTopOperand()
      requires Valid() && operands != []
      modifies this`states, this`operands, this`meanings
      ensures Valid() && |operands| == |old(operands)| + 1
      ensures Operands() == old(Operands()) + [old(Operands())[|old(operands)| - 1]]
    {
      hide StackOk, FragOk, Regexes;
      OneOnTop(states, ranges, operands, meanings);
      var src := operands[|operands| - 1];
      var count := |states| - src.minIndex;
      var base := |states|;
      states := states + states[src.minIndex..];
      AdjustCopies(base, src.minIndex, old(states));
      ghost var f, m := CloneDone(old(states), states, ranges, operands, meanings, src);
      operands, meanings := operands + [Frag(src.start + count, src.out + count, src.minIndex + count)], meanings + [m];
    }

    /** The loop of `CloneTopOperand` over the states it has just copied. */
    method AdjustCopies(base: int, lo: int, ghost s0: seq<State>)
      requires 0 <= lo <= base == |s0| && states == s0 + s0[lo..]
      modifies this`states
      ensures CopiedAbove(s0, lo, states)
    {
      var count, j := base - lo, 0;
      while j < count
        invariant 0 <= j <= count && |states| == base + count && states[..base] == s0
        invariant forall p {:trigger states[p]} | base <= p < |states| ::
                    states[p] == if p < base + j then Cloned(s0[p - count], count) else s0[p - count]
      {
        var t := states[base + j];
        if t.out != INVALID {
          t := t.(out := t.out + count);
        }
        if t.out1 != INVALID {
          t := t.(out1 := t.out1 + count);
        }
        states := states[base + j := t];
        j := j + 1;
      }
      CopyDone(s0, lo, states);
    }

    method PushOperand(codepoint: int, ghost r: Re)
      requires Valid()
      requires (r == Any && codepoint == ANY_CHARACTER_CLASS) || (r == Lit(codepoint) && IsCharacter(codepoint))
      modifies this`states, this`operands, this`meanings
      ensures Valid() && Operands() == old(Operands()) + [r]
    {
      SameCount(states, ranges, operands, meanings);
      ghost var f, m := CharacterDone(states, State(INVALID, INVALID, INVALID, codepoint), ranges, ranges, operands, meanings, r);
      hide StackOk, Regexes;
      var s := NewState(INVALID, INVALID, codepoint);
      operands, meanings := operands + [Frag(s, s, s)], meanings + [m];
    }

    // ----- `EvalQuantifier`

    method CloneTimes(count: nat)
      requires Valid() && operands != []
      modifies this`states, this`operands, this`meanings
      ensures Valid() && |operands| == |old(operands)| + count
      ensures |old(operands)| == |old(Operands())| && Operands() == old(Operands()) + Times(old(Operands())[|old(operands)| - 1], count)
    {
      hide StackOk, Regexes;
      SameCount(states, ranges, operands, meanings);
      ghost var e := Operands()[|operands| - 1];
      var i := 0;
      while i < count
        invariant 0 <= i <= count && Valid() && |operands| == |old(operands)| + i
        invariant Operands() == old(Operands()) + Times(e, i)
      {
        SameCount(states, ranges, operands, meanings);
        CloneTopOperand();
        i := i + 1;
      }
    }

    method ConcatenateTimes(count: nat)
      requires Valid() && |operands| > count
      modifies this`states, this`operands, this`meanings
      ensures |old(operands)| == |old(Operands())|
      ensures Valid() && Operands() == Concatenated(old(Operands()), count)
    {
      hide StackOk, Regexes;
      SameCount(states, ranges, operands, meanings);
      var i := 0;
      while i < count
        invariant 0 <= i <= count && Valid() && |operands| == |Operands()| == |old(operands)| - i
        invariant Concatenated(Operands(), count - i) == Concatenated(old(Operands()), count)
      {
        var ok := Eval(Concatenation);
        SameCount(states, ranges, operands, meanings);
        i := i + 1;
      }
    }

    /** The top operand means `q` as well. */
    ghost method Rename(q: Re)
      requires Valid() && operands != [] && |Operands()| == |operands| && SameMeaning(Operands()[|operands| - 1], q)
      modifies this`meanings
      ensures Valid() && Operands() == old(Operands())[..|operands| - 1] + [q]
    {
      SameCount(states, ranges, operands, meanings);
      RenameTop(states, ranges, operands, meanings, q);
      hide StackOk, Regexes;
      var top := |meanings| - 1;
      meanings := meanings[..top] + [Meaning(meanings[top].exits, q)];
    }

    method QuantifyFromZero(m: nat, ghost e: Re, ghost base: seq<Re>)
      requires Valid() && |operands| == |base| + 1 && Operands() == base + [e] && 0 < m
      modifies this`states, this`operands, this`meanings
      ensures Valid() && Operands() == base + [Expansion(e, 0, BoundOf(m))]
    {
      hide StackOk, Regexes;
      if m == INFINITY_QUANTIFIER {
        var ok := Eval(ZeroOrMore);
      } else {
        var ok := Eval(ZeroOrOne);
        assert Operands() == base + [Optional(e)];
        SameCount(states, ranges, operands, meanings);
        CloneTimes(m - 1);
        ConcatenateTimes(m - 1);
        OptionalsCollapse(base, e, m);
      }
    }

    method QuantifyFromOne(n: nat, m: nat, ghost e: Re, ghost base: seq<Re>)
      requires Valid() && |operands| == |base| + 1 && Operands() == base + [e] && 0 < n <= m
      modifies this`states, this`operands, this`meanings
      ensures Valid() && Operands() == base + [Expansion(e, n, BoundOf(m))]
    {
      hide StackOk, Regexes;
      CloneTimes(n - 1);
      assert base + [e] + Times(e, n - 1) == base + Times(e, n - 1) + [e];
      SameCount(states, ranges, operands, meanings);
      if m == INFINITY_QUANTIFIER {
        var ok := Eval(OneOrMore);
        assert Operands() == base + Times(e, n - 1) + [Rep(e, 1, Unbounded)];
        SameCount(states, ranges, operands, meanings);
        ConcatenateTimes(n - 1);
        ConcatenatedCopies(base, e, n - 1, Rep(e, 1, Unbounded));
      } else if m > n {
        QuantifyExtra(n, m, e, base);
      } else {
        ConcatenateTimes(n - 1);
        ConcatenatedCopies(base, e, n - 1, e);
      }
    }

    method QuantifyExtra(n: nat, m: nat, ghost e: Re, ghost base: seq<Re>)
      requires 0 < n < m && Valid() && |operands| == |base| + n && Operands() == base + Times(e, n - 1) + [e]
      modifies this`states, this`operands, this`meanings
      ensures Valid() && Operands() == base + [Copies(e, n, OptionalRun(e, m - n))]
    {
      hide StackOk, Regexes, Concatenated, Copies, OptionalRun;
      CloneTopOperand();
      SameCount(states, ranges, operands, meanings);
      assert base + Times(e, n - 1) + [e] == base + Times(e, n);
      var ok := Eval(ZeroOrOne);
      assert Operands() == base + Times(e, n) + [Optional(e)];
      SameCount(states, ranges, operands, meanings);
      CloneTimes(m - 1 - n);
      SameCount(states, ranges, operands, meanings);
      MixedCollapse(base, e, n, m - n);
      ghost var all := Operands();
      ConcatenateTimes(m - n);
      SameCount(states, ranges, operands, meanings);
      ConcatenatedTwice(all, m - n, n - 1);
      ConcatenateTimes(n - 1);
    }

    method EvalQuantifier(n: nat, m: nat) returns (ok: bool)
      requires Valid() && operands != [] && n <= m
      modifies this`states, this`operands, this`meanings
      ensures |old(Operands())| == |old(operands)|
      ensures ok == ApplyQuantifier(old(Operands()), n, m).Done?
      ensures ok ==> Valid() && Done(Operands()) == ApplyQuantifier(old(Operands()), n, m)
    {
      hide StackOk, Regexes;
      SameCount(states, ranges, operands, meanings);
      ghost var top := |operands| - 1;
      ghost var base, e := Operands()[..top], Operands()[top];
      assert Operands() == base + [e];
      if n == 0 {
        if m == 0 {
          return false;
        }
        QuantifyFromZero(m, e, base);
      } else {
        QuantifyFromOne(n, m, e, base);
      }
      SameCount(states, ranges, operands, meanings);
      ExpansionMeansRepetition(e, n, BoundOf(m));
      Rename(Rep(e, n, BoundOf(m)));
      ok := true;
    }

    // ----- `Parse` and what it reads with

    method ParseUnsigned(src: Source, pos: nat) returns (ok: bool, u: nat, next: nat)
      requires pos <= |src|
      ensures ok == ScanUnsigned(src, pos).Some?
      ensures ok ==> ScanUnsigned(src, pos) == Some((u, next))
    {
      u, next := 0, pos;
      if !IsDigit(Peek(src, pos)) {
        return false, 0, pos;
      }
      while IsDigit(Peek(src, next))
        invariant pos <= next <= |src| && u < UNSIGNED_MODULUS
        invariant ScanDigits(src, next, u) == ScanDigits(src, pos, 0)
        decreases |src| - next
      {
        if u >= 429496729 && Peek(src, next) > DIGIT_5 {
          return false, 0, pos;
        }
        u := (u * 10 + (src[next] - DIGIT_0)) % UNSIGNED_MODULUS;
        next := next + 1;
      }
      ok := true;
    }

    method NewRange(codepoint: int) returns (index: int)
      modifies this`ranges
      ensures index == |old(ranges)| && ranges == old(ranges) + [Range(codepoint, codepoint, INVALID)]
    {
      ranges := ranges + [Range(codepoint, codepoint, INVALID)];
      index := |ranges| - 1;
    }

    /** A new range at the end of the chain: the shared tail of the cases of `ParseRange`. */
    method AddRange(codepoint: int, base: nat, current: int, ghost items: seq<(int, int)>) returns (r: int)
      requires IsChain(ranges, base, items) && current == (if items == [] then INVALID else |ranges| - 1)
      modifies this`ranges
      ensures r == |ranges| - 1 && IsChain(ranges, base, items + [(codepoint, codepoint)])
      ensures ranges[..base] == old(ranges)[..base]
    {
      r := NewRange(codepoint);
      if current != INVALID {
        assert items[|items| - 1] == items[|items| - 1];
        ranges := ranges[current := ranges[current].(next := r)];
      }
      ghost var items' := items + [(codepoint, codepoint)];
      forall i {:trigger items'[i]} | 0 <= i < |items'|
        ensures ranges[base + i] == Range(items'[i].0, items'[i].1, if i + 1 < |items'| then base + i + 1 else INVALID)
      {
        if i < |items| {
          assert items'[i] == items[i];
        }
      }
    }

    /** An escape stands for itself, if it is no letter, and else for a control character. */
    method CharacterEscape(src: Source, pos: nat) returns (ok: bool, escaped: int)
      ensures ok == EscapeValue(Peek(src, pos)).Some?
      ensures ok ==> EscapeValue(Peek(src, pos)) == Some(escaped) && IsCharacter(escaped)
      ensures ok ==> if LOWER_A <= Peek(src, pos) <= LOWER_Z then TAB <= escaped <= CARRIAGE_RETURN else escaped == Peek(src, pos)
    {
      var e := Peek(src, pos);
      ok, escaped := true, e;
      if e == CARET || e == DOLLAR || e == BAR || e == LEFT_PARENTHESIS || e == RIGHT_PARENTHESIS || e == QUESTION || e == ASTERISK
         || e == PLUS || e == DOT || e == LEFT_BRACKET || e == RIGHT_BRACKET || e == LEFT_BRACE || e == RIGHT_BRACE || e == BACKSLASH {
      } else if e == LOWER_F {
        escaped := FORM_FEED;
      } else if e == LOWER_N {
        escaped := LINE_FEED;
      } else if e == LOWER_R {
        escaped := CARRIAGE_RETURN;
      } else if e == LOWER_T {
        escaped := TAB;
      } else if e == LOWER_V {
        escaped := VERTICAL_TAB;
      } else {
        ok := false;
      }
    }

    /** The inner `switch (step)` of `ParseRange`. */
    method AddCharacter(codepoint: int, base: nat, step: int, start: int, current: int, ghost items: seq<(int, int)>,
        ghost negate: bool)
      returns (step': int, start': int, current': int, ghost items': seq<(int, int)>)
      requires IsCharacter(codepoint) && 0 <= step <= 2 && (step != 0 ==> items != [])
      requires IsChain(ranges, base, items) && ItemsDecoded(items) && |ranges| == base + |items|
      requires start == (if items == [] then INVALID else base) && current == (if items == [] then INVALID else |ranges| - 1)
      modifies this`ranges
      ensures 0 <= step' <= 2 && items' != []
      ensures IsChain(ranges, base, items') && ItemsDecoded(items') && |ranges| == base + |items'|
      ensures start' == (if items' == [] then INVALID else base) && current' == (if items' == [] then INVALID else |ranges| - 1)
      ensures ranges[..base] == old(ranges)[..base]
      ensures Scan(false, Brackets(negate, items'), step') == Item(Scan(false, Brackets(negate, items), step), codepoint)
    {
      hide IsChain;
      step', start', current', items' := step, start, current, items;
      if step == 1 && codepoint == DASH {
        step' := 2;
      } else if step == 2 {
        SetEnd(ranges, base, items, codepoint);
        ranges := ranges[current := ranges[current].(end := codepoint)];
        items' := items[|items| - 1 := (items[|items| - 1].0, codepoint)];
        step' := 0;
      } else {
        current' := AddRange(codepoint, base, current, items);
        if start == INVALID {
          start' := current';
        }
        items' := items + [(codepoint, codepoint)];
        ChainLength(ranges, base, items');
        step' := 1;
      }
    }

    /** The bracket expression whose `[` is just before `pos`. */
    method ParseRange(src: Source, pos: nat) returns (ok: bool, range: int, next: nat)
      requires IsDecoded(src) && RangesOk(ranges)
      modifies this`ranges
      ensures ok == ScanBrackets(src, pos, FRESH_SCAN).Some?
      ensures ok ==> next == ScanBrackets(src, pos, FRESH_SCAN).value.1
      ensures ok ==> range == |old(ranges)| && IsClass(ranges, range, ScanBrackets(src, pos, FRESH_SCAN).value.0)
      ensures |old(ranges)| <= |ranges| && ranges[..|old(ranges)|] == old(ranges)
    {
      hide ScanBrackets, IsChain;
      var isBegin, negate, step := true, false, 0;
      var start, current, base := INVALID, INVALID, |ranges|;
      ghost var items: seq<(int, int)> := [];
      next := pos;
      EmptyChain(ranges);
      while next < |src|
        invariant 0 <= step <= 2 && (step != 0 ==> items != [])
        invariant IsChain(ranges, base, items) && ItemsDecoded(items) && |ranges| == base + |items|
        invariant start == (if items == [] then INVALID else base) && current == (if items == [] then INVALID else |ranges| - 1)
        invariant ranges[..base] == old(ranges)
        invariant ScanBrackets(src, next, Scan(isBegin, Brackets(negate, items), step)) == ScanBrackets(src, pos, FRESH_SCAN)
        decreases |src| - next
      {
        ghost var scan, here := Scan(isBegin, Brackets(negate, items), step), next;
        var codepoint := src[next];
        next := next + 1;
        if isBegin && codepoint == CARET {
          ScanStep(src, here, scan);
          isBegin, negate := false, true;
          continue;
        }
        isBegin := false;
        if codepoint == RIGHT_BRACKET {
          ScanStep(src, here, scan);
          if start == INVALID {
            return false, INVALID, next;
          }
          if step == 2 {
            var r := AddRange(DASH, base, current, items);
            items := items + [(DASH, DASH)];
          }
          MarkClass(ranges, base, items, negate);
          if negate {
            ranges := ranges[start := ranges[start].(start := ranges[start].start + RANGE_NEGATION_FLAG)];
          }
          return true, start, next;
        }
        if codepoint == BACKSLASH {
          ScanStep(src, here, scan);
          if Peek(src, next) == LOWER_B {
            codepoint := BACKSPACE;
          } else {
            var good, escaped := CharacterEscape(src, next);
            if !good {
              return false, INVALID, next;
            }
            codepoint := escaped;
          }
          next := next + 1;
        } else {
          ScanStep(src, here, scan);
        }
        step, start, current, items := AddCharacter(codepoint, base, step, start, current, items, negate);
      }
      ScanEnd(src, next, Scan(isBegin, Brackets(negate, items), step));
      return false, INVALID, next;
    }

    /** The `[` case of `Parse`: reads the class and pushes the state that tests for it. */
    method PushBrackets(src: Source, pos: nat) returns (ok: bool, next: nat)
      requires Valid() && IsDecoded(src)
      modifies this`states, this`ranges, this`operands, this`meanings
      ensures ok == ScanBrackets(src, pos, FRESH_SCAN).Some?
      ensures ok ==> var (b, p) := ScanBrackets(src, pos, FRESH_SCAN).value;
                     next == p && Valid() && Operands() == old(Operands()) + [Class(b.negated, b.ranges)]
    {
      hide ScanBrackets, StackOk, Regexes, IsClass;
      SameCount(states, ranges, operands, meanings);
      var range;
      ok, range, next := ParseRange(src, pos);
      if !ok {
        return;
      }
      ghost var b := ScanBrackets(src, pos, FRESH_SCAN).value.0;
      ghost var c := State(INVALID, INVALID, range, RANGE_CHARACTER_CLASS);
      ClassRangesOk(old(ranges), ranges, b);
      ClassConsumes(c, ranges, range, b);
      ghost var f, m := CharacterDone(states, c, old(ranges), ranges, operands, meanings, Class(b.negated, b.ranges));
      var s := NewState(INVALID, INVALID, RANGE_CHARACTER_CLASS);
      states := states[s := states[s].(rangeStart := range)];
      assert states == old(states) + [c];
      operands, meanings := operands + [Frag(s, s, s)], meanings + [m];
    }

    /** The configuration of the abstract parser that the stacks stand for. */
    ghost function Here(pos: nat, operators: seq<Operator>, atoms: seq<nat>): Config
      reads this
    {
      Config(pos, Operands(), operators, atoms, anchorBegin, anchorEnd)
    }

    method ReduceWhile(until: Until, operators: seq<Operator>) returns (ok: bool, rest: seq<Operator>)
      requires Valid() && !Reduce(until, Operands(), operators).Asserted?
      modifies this`states, this`operands, this`meanings
      ensures ok == Reduce(until, old(Operands()), operators).Done?
      ensures ok ==> Valid() && Reduce(until, old(Operands()), operators) == Done((Operands(), rest))
    {
      hide StackOk, Regexes, Apply;
      rest := operators;
      while rest != [] && !until.Stops(rest[|rest| - 1])
        invariant Valid() && Reduce(until, Operands(), rest) == Reduce(until, old(Operands()), operators)
        decreases |rest|
      {
        var op := rest[|rest| - 1];
        rest := rest[..|rest| - 1];
        ok := Eval(op);
        if !ok {
          return;
        }
      }
      ok := true;
    }

    method ImplicitConcatenation(atoms: seq<nat>, operators: seq<Operator>) returns (atoms': seq<nat>,
        operators': seq<Operator>)
      requires atoms != []
      ensures forall c: Config {:trigger CountAtom(c)} | c.atoms == atoms && c.operators == operators ::
                CountAtom(c) == Done(c.(operators := operators', atoms := atoms'))
    {
      operators' := operators;
      if atoms[|atoms| - 1] > 0 {
        operators' := operators + [Concatenation];
      }
      atoms' := atoms[|atoms| - 1 := atoms[|atoms| - 1] + 1];
    }

    method Bar(pos: nat, operators: seq<Operator>, atoms: seq<nat>) returns (ok: bool, operators': seq<Operator>,
        atoms': seq<nat>)
      requires Valid() && !OnBar(Here(pos, operators, atoms)).Asserted?
      modifies this`states, this`operands, this`meanings
      ensures ok == OnBar(old(Here(pos, operators, atoms))).Done?
      ensures ok ==> Valid() && OnBar(old(Here(pos, operators, atoms))) == Done(Here(pos + 1, operators', atoms'))
    {
      hide StackOk, Regexes, Reduce;
      operators', atoms' := operators, atoms;
      ok, operators' := ReduceWhile(UntilAlternation, operators);
      if ok {
        operators' := operators' + [Alternation];
        atoms' := atoms[|atoms| - 1 := 0];
      }
    }

    method CloseParenthesis(pos: nat, operators: seq<Operator>, atoms: seq<nat>)
      returns (ok: bool, operators': seq<Operator>, atoms': seq<nat>)
      requires Valid() && !OnClose(Here(pos, operators, atoms)).Asserted?
      modifies this`states, this`operands, this`meanings
      ensures ok == OnClose(old(Here(pos, operators, atoms))).Done?
      ensures ok ==> Valid() && OnClose(old(Here(pos, operators, atoms))) == Done(Here(pos + 1, operators', atoms'))
    {
      hide StackOk, Regexes, Reduce, CountAtom;
      operators', atoms' := operators, atoms;
      ok, operators' := ReduceWhile(UntilParenthesis, operators);
      if !ok {
        return;
      }
      if operators' == [] {
        return false, operators', atoms';
      }
      operators' := operators'[..|operators'| - 1];
      atoms' := atoms[..|atoms| - 1];
      ghost var c := Here(pos + 1, operators', atoms');
      CountAtomNeedsOne(c);
      atoms', operators' := ImplicitConcatenation(atoms', operators');
    }

    method Postfix(op: Operator, pos: nat, operators: seq<Operator>, atoms: seq<nat>) returns (ok: bool)
      requires Valid() && !OnOperator(Here(pos, operators, atoms), op).Asserted?
      modifies this`states, this`operands, this`meanings
      ensures ok == OnOperator(old(Here(pos, operators, atoms)), op).Done?
      ensures ok ==> Valid() && OnOperator(old(Here(pos, operators, atoms)), op) == Done(Here(pos + 1, operators, atoms))
    {
      hide StackOk, Regexes, Apply;
      ok := Eval(op);
    }

    /** The bounds between the braces; `m` is the infinity quantifier for an open end. */
    method ParseBounds(src: Source, pos: nat) returns (ok: bool, n: nat, m: nat, next: nat)
      requires pos <= |src|
      ensures ok == ScanBounds(src, pos).Some?
      ensures ok ==> ScanBounds(src, pos) == Some((n, m, next))
    {
      hide ScanUnsigned;
      m := 0;
      ok, n, next := ParseUnsigned(src, pos);
      if !ok {
        return;
      }
      if Peek(src, next) == COMMA {
        next := next + 1;
        if Peek(src, next) == RIGHT_BRACE {
          m := INFINITY_QUANTIFIER;
        } else {
          ok, m, next := ParseUnsigned(src, next);
          if !ok || m < n {
            return false, n, m, next;
          }
        }
      } else {
        m := n;
      }
    }

    method Braces(src: Source, pos: nat, operators: seq<Operator>, atoms: seq<nat>) returns (ok: bool, next: nat)
      requires Valid() && pos < |src| && !OnBrace(src, Here(pos, operators, atoms)).Asserted?
      modifies this`states, this`operands, this`meanings
      ensures ok == OnBrace(src, old(Here(pos, operators, atoms))).Done?
      ensures ok ==> Valid() && OnBrace(src, old(Here(pos, operators, atoms))) == Done(Here(next, operators, atoms))
    {
      hide StackOk, Regexes, ScanBounds;
      var n, m;
      SameCount(states, ranges, operands, meanings);
      ok, n, m, next := ParseBounds(src, pos + 1);
      if !ok {
        return;
      }
      ok := EvalQuantifier(n, m);
      if !ok || Peek(src, next) != RIGHT_BRACE {
        return false, next;
      }
      next := next + 1;
    }

    /** The cases of the `switch` that push an operand. */
    method TakeAtom(src: Source, pos: nat, operators: seq<Operator>, atoms: seq<nat>)
      returns (ok: bool, next: nat, operators': seq<Operator>, atoms': seq<nat>)
      requires Valid() && IsDecoded(src) && pos < |src| && StartsAtom(src[pos])
      requires !Step(src, Here(pos, operators, atoms)).Asserted?
      modifies this`states, this`ranges, this`operands, this`meanings
      ensures ok == Step(src, old(Here(pos, operators, atoms))).Done?
      ensures ok ==> Valid() && Step(src, old(Here(pos, operators, atoms))) == Done(Here(next, operators', atoms'))
    {
      hide StackOk, Regexes, ScanBrackets, CountAtom, OnBar, OnClose, OnBrace, OnOperator;
      operators', atoms', next := operators, atoms, pos + 1;
      ghost var c, r := Here(pos, operators, atoms), Any;
      if src[pos] == DOT {
        PushOperand(ANY_CHARACTER_CLASS, Any);
      } else if src[pos] == LEFT_BRACKET {
        ok, next := PushBrackets(src, pos + 1);
        if !ok {
          return;
        }
        r := Class(ScanBrackets(src, pos + 1, FRESH_SCAN).value.0.negated, ScanBrackets(src, pos + 1, FRESH_SCAN).value.0.ranges);
      } else {
        var codepoint := src[pos];
        if codepoint == BACKSLASH {
          ok, codepoint := CharacterEscape(src, pos + 1);
          if !ok {
            return;
          }
          next := pos + 2;
        }
        r := Lit(codepoint);
        PushOperand(codepoint, r);
      }
      ok := true;
      CountAtomNeedsOne(c.(pos := next, operands := c.operands + [r]));
      atoms', operators' := ImplicitConcatenation(atoms, operators);
    }

    /** One turn of the loop of `Parse`. */
    method TakeCharacter(src: Source, pos: nat, operators: seq<Operator>, atoms: seq<nat>)
      returns (ok: bool, next: nat, operators': seq<Operator>, atoms': seq<nat>)
      requires Valid() && IsDecoded(src) && pos < |src| && !Step(src, Here(pos, operators, atoms)).Asserted?
      modifies this`states, this`ranges, this`operands, this`meanings, this`anchorBegin, this`anchorEnd
      ensures ok == Step(src, old(Here(pos, operators, atoms))).Done?
      ensures ok ==> Valid() && Step(src, old(Here(pos, operators, atoms))) == Done(Here(next, operators', atoms'))
    {
      hide StackOk, Regexes, PushAtom, ScanBrackets, OnBar, OnClose, OnBrace, OnOperator, EscapeValue;
      var codepoint := src[pos];
      ok, next, operators', atoms' := true, pos + 1, operators, atoms;
      if StartsAtom(codepoint) {
        ok, next, operators', atoms' := TakeAtom(src, pos, operators, atoms);
      } else if codepoint == CARET {
        anchorBegin := true;
      } else if codepoint == DOLLAR {
        anchorEnd := true;
      } else if codepoint == BAR {
        ok, operators', atoms' := Bar(pos, operators, atoms);
      } else if codepoint == LEFT_PARENTHESIS {
        operators', atoms' := operators + [LeftParenthesis], atoms + [0];
      } else if codepoint == RIGHT_PARENTHESIS {
        ok, operators', atoms' := CloseParenthesis(pos, operators, atoms);
      } else if codepoint == QUESTION {
        ok := Postfix(ZeroOrOne, pos, operators, atoms);
      } else if codepoint == ASTERISK {
        ok := Postfix(ZeroOrMore, pos, operators, atoms);
      } else if codepoint == PLUS {
        ok := Postfix(OneOrMore, pos, operators, atoms);
      } else {
        ok, next := Braces(src, pos, operators, atoms);
      }
    }

    /** The compiled automaton reads the words of `re`: entered at the root, it leaves through the matching state,
        the last one, and following its split states ends everywhere exactly when `re` is guarded. */
    ghost predicate Recognizes(re: Re)
      reads this
    {
      IsCompiled(Nfa(states, ranges), root, re)
    }

    /** `Parse`: the pattern is compiled exactly when the grammar machine accepts it, and then to an automaton
        for the regular expression the machine computes. */
    method Parse(src: Source)
      requires IsDecoded(src) && !ParseResult(src).Asserted?
      requires Valid() && operands == [] && Operands() == [] && root == INVALID && !anchorBegin && !anchorEnd
      modifies this
      ensures IsValid() <==> ParseResult(src).Done?
      ensures IsValid() ==> var p := ParseResult(src).value;
                            Recognizes(p.re) && anchorBegin == p.anchorBegin && anchorEnd == p.anchorEnd
    {
      hide StackOk, Regexes, Step, Reduce;
      var operators, atoms: seq<nat>, pos := [], [0], 0;
      var ok := true;
      while pos < |src|
        invariant Valid() && root == INVALID
        invariant Run(src, Here(pos, operators, atoms)) == ParseResult(src)
        decreases |src| - pos
      {
        ok, pos, operators, atoms := TakeCharacter(src, pos, operators, atoms);
        if !ok {
          return;
        }
      }
      ok, operators := ReduceWhile(UntilEmpty, operators);
      if ok {
        SameCount(states, ranges, operands, meanings);
        if |operands| == 1 {
          LinkToMatchingState();
        }
      }
    }

    method LinkToMatchingState()
      requires Valid() && |operands| == 1 && |Operands()| == 1
      modifies this`states, this`root, this`operands, this`meanings
      ensures IsValid() && Recognizes(old(Operands())[0])
    {
      OneOnTop(states, ranges, operands, meanings);
      assert StackOk(states, ranges, [], [], operands[0].minIndex);
      var e := operands[0];
      ghost var m := meanings[0];
      ListAfterPush(states, ranges, e, |states|, m, State(INVALID, INVALID, INVALID, 0));
      var s := NewState(INVALID, INVALID, 0);
      ghost var s1 := states;
      Patch(e.out, s, m.exits);
      PatchedEarlier(old(states), s1, states, ranges, e, |old(states)|, m, s);
      FinishedNfa(old(states), ranges, e, m, states);
      root := e.start;
      operands, meanings := [], [];
    }
  }
}
