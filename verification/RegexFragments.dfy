/** Fragments under construction: a block of consecutive states, whose dangling exits are threaded
    into a linked list through their own `out` fields until they are patched. */
module RegexFragments {
  import opened RegexLanguage
  import opened RegexNfa

  /** `minIndex` is the first state of the block; the block reaches up to the next operand's. */
  datatype Frag = Frag(start: int, out: int, minIndex: int)

  /** What the operand stands for, and the states on its exit list, in list order. */
  datatype Meaning = Meaning(exits: seq<int>, re: Re)

  // ----- the exit list

  ghost predicate IsList(s: seq<State>, l: int, exits: seq<int>)
    decreases |exits|
  {
    if exits == [] then l == INVALID
    else l == exits[0] && 0 <= l < |s| && IsList(s, s[l].out, exits[1..])
  }

  ghost predicate Distinct(exits: seq<int>) {
    forall i, j | 0 <= i < j < |exits| :: exits[i] != exits[j]
  }

  lemma {:induction false} ListMembers(s: seq<State>, l: int, exits: seq<int>)
    requires IsList(s, l, exits)
    ensures forall p | p in exits :: 0 <= p < |s|
    decreases |exits|
  {
    if exits != [] {
      ListMembers(s, s[l].out, exits[1..]);
      forall p | p in exits
        ensures 0 <= p < |s|
      {
        assert p == exits[0] || p in exits[1..];
      }
    }
  }

  lemma {:induction false} IsListFrame(s: seq<State>, l: int, exits: seq<int>, s': seq<State>)
    requires IsList(s, l, exits)
    requires forall p | p in exits :: 0 <= p < |s'| && (p < |s| ==> s'[p].out == s[p].out)
    ensures IsList(s', l, exits)
    decreases |exits|
  {
    if exits != [] {
      assert exits[0] in exits;
      assert forall p | p in exits[1..] :: p in exits;
      IsListFrame(s, s[l].out, exits[1..], s');
    }
  }

  /** Linking the end of one list to the head of another concatenates them. */
  lemma {:induction false} ListAppend(s: seq<State>, l1: int, e1: seq<int>, l2: int, e2: seq<int>, s': seq<State>)
    requires IsList(s, l1, e1) && e1 != [] && IsList(s', l2, e2)
    requires |s| <= |s'| && Distinct(e1)
    requires forall p | p in e1 :: 0 <= p < |s| && s'[p].out == if p == e1[|e1| - 1] then l2 else s[p].out
    ensures IsList(s', l1, e1 + e2)
    decreases |e1|
  {
    assert (e1 + e2)[1..] == e1[1..] + e2;
    assert e1[0] in e1;
    if |e1| == 1 {
      assert e1[1..] + e2 == e2;
    } else {
      assert forall p | p in e1[1..] :: p in e1;
      assert e1[0] != e1[|e1| - 1];
      assert e1[1..][|e1[1..]| - 1] == e1[|e1| - 1];
      ListAppend(s, s[l1].out, e1[1..], l2, e2, s');
    }
  }

  // ----- a block, wherever it is copied to, once its exits lead to `t`

  function Moved(s: State, off: int, isExit: bool, t: int): State {
    s.(out := if isExit then t else s.out + off, out1 := if s.out1 == INVALID then INVALID else s.out1 + off)
  }

  ghost predicate Embeds(s: seq<State>, lo: int, hi: int, exits: seq<int>, a: Nfa, off: int, t: int)
    requires 0 <= lo <= hi <= |s|
  {
    && a.Valid()
    && t != INVALID
    && forall p | lo <= p < hi :: EmbedsAt(s, p, exits, a, off, t)
  }

  ghost predicate EmbedsAt(s: seq<State>, p: int, exits: seq<int>, a: Nfa, off: int, t: int) {
    0 <= p < |s| && a.IsState(p + off) && a.states[p + off] == Moved(s[p], off, p in exits, t)
  }

  /** A later automaton embeds an earlier block when it embeds what became of the block's states. */
  lemma EmbedsEarlier(s': seq<State>, lo': int, hi': int, exits': seq<int>, t': int,
                      s: seq<State>, lo: int, hi: int, exits: seq<int>, t: int, a: Nfa, off: int)
    requires 0 <= lo' <= lo <= hi <= hi' <= |s'| && hi <= |s|
    requires Embeds(s', lo', hi', exits', a, off, t') && t != INVALID
    requires forall p {:trigger s[p]} {:trigger s'[p]} | lo <= p < hi :: Moved(s[p], off, p in exits, t) == Moved(s'[p], off, p in exits', t')
    ensures Embeds(s, lo, hi, exits, a, off, t)
  {
    forall p | lo <= p < hi
      ensures EmbedsAt(s, p, exits, a, off, t)
    {
      assert EmbedsAt(s', p, exits', a, off, t');
    }
  }

  ghost predicate Implements(s: seq<State>, ranges: seq<Range>, lo: int, hi: int, start: int, m: Meaning)
    requires 0 <= lo <= hi <= |s|
  {
    forall a: Nfa, off: int, t: int {:trigger Embeds(s, lo, hi, m.exits, a, off, t)} ::
      Embeds(s, lo, hi, m.exits, a, off, t) && ranges <= a.ranges ==> Behaves(a, lo + off, hi + off, start + off, t, m.re)
  }

  ghost predicate FragOk(s: seq<State>, ranges: seq<Range>, f: Frag, hi: int, m: Meaning) {
    && 0 <= f.minIndex <= f.start < hi <= |s|
    && m.exits != [] && Distinct(m.exits) && IsList(s, f.out, m.exits)
    && (forall p | p in m.exits :: f.minIndex <= p < hi)
    && (forall p | f.minIndex <= p < hi :: (p in m.exits || 0 <= s[p].out < hi) && INVALID <= s[p].out1)
    && Implements(s, ranges, f.minIndex, hi, f.start, m)
  }

  ghost predicate Agree(s: seq<State>, s': seq<State>, hi: int) {
    0 <= hi <= |s| && hi <= |s'| && forall p | 0 <= p < hi :: s'[p] == s[p]
  }

  lemma FragFrame(s: seq<State>, ranges: seq<Range>, f: Frag, hi: int, m: Meaning, s': seq<State>, ranges': seq<Range>)
    requires FragOk(s, ranges, f, hi, m) && Agree(s, s', hi) && ranges <= ranges'
    ensures FragOk(s', ranges', f, hi, m)
  {
    IsListFrame(s, f.out, m.exits, s');
    forall a: Nfa, off: int, t: int | Embeds(s', f.minIndex, hi, m.exits, a, off, t) && ranges' <= a.ranges
      ensures Behaves(a, f.minIndex + off, hi + off, f.start + off, t, m.re)
    {
      EmbedsEarlier(s', f.minIndex, hi, m.exits, t, s, f.minIndex, hi, m.exits, t, a, off);
    }
  }

  // ----- the operand stack: adjacent blocks covering all states

  ghost predicate StackOk(s: seq<State>, ranges: seq<Range>, frags: seq<Frag>, ms: seq<Meaning>, hi: int)
    decreases |frags|
  {
    |frags| == |ms| &&
    if frags == [] then hi == 0
    else
      var top := |frags| - 1;
      FragOk(s, ranges, frags[top], hi, ms[top]) && StackOk(s, ranges, frags[..top], ms[..top], frags[top].minIndex)
  }

  lemma {:induction false} StackFrame(s: seq<State>, ranges: seq<Range>, frags: seq<Frag>, ms: seq<Meaning>, hi: int,
                                      s': seq<State>, ranges': seq<Range>)
    requires StackOk(s, ranges, frags, ms, hi) && Agree(s, s', hi) && ranges <= ranges'
    ensures StackOk(s', ranges', frags, ms, hi)
    decreases |frags|
  {
    if frags != [] {
      var top := |frags| - 1;
      FragFrame(s, ranges, frags[top], hi, ms[top], s', ranges');
      StackFrame(s, ranges, frags[..top], ms[..top], frags[top].minIndex, s', ranges');
    }
  }

  lemma StackPush(s: seq<State>, ranges: seq<Range>, frags: seq<Frag>, ms: seq<Meaning>, f: Frag, m: Meaning, hi: int)
    requires StackOk(s, ranges, frags, ms, f.minIndex) && FragOk(s, ranges, f, hi, m)
    ensures StackOk(s, ranges, frags + [f], ms + [m], hi)
  {
    var fs, xs := frags + [f], ms + [m];
    assert fs[..|fs| - 1] == frags && xs[..|xs| - 1] == ms;
  }

  // ----- one lemma for each way of building a fragment

  lemma CharacterFrag(s: seq<State>, ranges: seq<Range>, s': seq<State>, c: State, r: Re)
    requires s' == s + [c] && c.out == INVALID && c.out1 == INVALID
    requires r.Lit? || r.Any? || r.Class?
    requires forall a: Nfa, p: int, x: int {:trigger a.Consumes(p, x)} |
               a.Valid() && ranges <= a.ranges && a.IsState(p) && a.states[p].codepoint == c.codepoint && a.states[p].rangeStart == c.rangeStart ::
               a.Consumes(p, x) <==> InLanguage(r, [x])
    ensures FragOk(s', ranges, Frag(|s|, |s|, |s|), |s'|, Meaning([|s|], r))
  {
    forall a: Nfa, off: int, t: int | Embeds(s', |s|, |s'|, [|s|], a, off, t) && ranges <= a.ranges
      ensures Behaves(a, |s| + off, |s'| + off, |s| + off, t, r)
    {
      assert EmbedsAt(s', |s|, [|s|], a, off, t);
      CharacterBehaves(a, |s| + off, t, r);
    }
  }

  /** Every exit of the list now leads to `to`; nothing else changed, except that states may have been added. */
  ghost predicate Patched(s: seq<State>, exits: seq<int>, to: int, s': seq<State>) {
    |s| <= |s'| && forall p {:trigger s'[p]} | 0 <= p < |s| :: s'[p] == if p in exits then s[p].(out := to) else s[p]
  }

  lemma CatFrag(s: seq<State>, ranges: seq<Range>, f1: Frag, m1: Meaning, f2: Frag, m2: Meaning, hi: int,
      s': seq<State>)
    requires FragOk(s, ranges, f1, f2.minIndex, m1) && FragOk(s, ranges, f2, hi, m2)
    requires Patched(s, m1.exits, f2.start, s')
    ensures FragOk(s', ranges, Frag(f1.start, f2.out, f1.minIndex), hi, Meaning(m2.exits, Cat(m1.re, m2.re)))
  {
    IsListFrame(s, f2.out, m2.exits, s');
    CatImplements(s, ranges, f1, m1, f2, m2, hi, s');
  }

  lemma CatImplements(s: seq<State>, ranges: seq<Range>, f1: Frag, m1: Meaning, f2: Frag, m2: Meaning, hi: int,
      s': seq<State>)
    requires FragOk(s, ranges, f1, f2.minIndex, m1) && FragOk(s, ranges, f2, hi, m2)
    requires Patched(s, m1.exits, f2.start, s')
    ensures Implements(s', ranges, f1.minIndex, hi, f1.start, Meaning(m2.exits, Cat(m1.re, m2.re)))
  {
    hide IsList, Behaves;
    forall a: Nfa, off: int, t: int | Embeds(s', f1.minIndex, hi, m2.exits, a, off, t) && ranges <= a.ranges
      ensures Behaves(a, f1.minIndex + off, hi + off, f1.start + off, t, Cat(m1.re, m2.re))
    {
      assert EmbedsAt(s', f2.start, m2.exits, a, off, t);
      EmbedsEarlier(s', f1.minIndex, hi, m2.exits, t, s, f1.minIndex, f2.minIndex, m1.exits, f2.start + off, a, off);
      EmbedsEarlier(s', f1.minIndex, hi, m2.exits, t, s, f2.minIndex, hi, m2.exits, t, a, off);
      CatBehaves(a, f1.minIndex + off, f2.minIndex + off, hi + off, f1.start + off, f2.start + off, t, m1.re, m2.re);
    }
  }

  /** The last exit of `exits` now leads to `to`: that is how `Append` joins two lists. */
  ghost predicate Joined(s: seq<State>, exits: seq<int>, to: int, s': seq<State>)
    requires exits != []
  {
    |s| <= |s'| &&
    forall p {:trigger s'[p]} | 0 <= p < |s| :: s'[p] == if p == exits[|exits| - 1] then s[p].(out := to) else s[p]
  }

  lemma AltFrag(s: seq<State>, ranges: seq<Range>, f1: Frag, m1: Meaning, f2: Frag, m2: Meaning, s': seq<State>)
    requires FragOk(s, ranges, f1, f2.minIndex, m1) && FragOk(s, ranges, f2, |s|, m2)
    requires |s'| == |s| + 1 && s'[|s|].out == f1.start && s'[|s|].out1 == f2.start
    requires Joined(s, m1.exits, f2.out, s')
    ensures FragOk(s', ranges, Frag(|s|, f1.out, f1.minIndex), |s'|, Meaning(m1.exits + m2.exits, Alt(m1.re, m2.re)))
  {
    assert m1.exits[|m1.exits| - 1] in m1.exits;
    IsListFrame(s, f2.out, m2.exits, s');
    ListAppend(s, f1.out, m1.exits, f2.out, m2.exits, s');
    DistinctAppend(m1.exits, m2.exits, f2.minIndex);
    AltImplements(s, ranges, f1, m1, f2, m2, s');
  }

  lemma AltImplements(s: seq<State>, ranges: seq<Range>, f1: Frag, m1: Meaning, f2: Frag, m2: Meaning, s': seq<State>)
    requires FragOk(s, ranges, f1, f2.minIndex, m1) && FragOk(s, ranges, f2, |s|, m2)
    requires |s'| == |s| + 1 && s'[|s|].out == f1.start && s'[|s|].out1 == f2.start
    requires Joined(s, m1.exits, f2.out, s')
    ensures Implements(s', ranges, f1.minIndex, |s'|, |s|, Meaning(m1.exits + m2.exits, Alt(m1.re, m2.re)))
  {
    hide IsList, Behaves;
    var exits, re := m1.exits + m2.exits, Alt(m1.re, m2.re);
    assert m1.exits[|m1.exits| - 1] in m1.exits;
    forall a: Nfa, off: int, t: int | Embeds(s', f1.minIndex, |s'|, exits, a, off, t) && ranges <= a.ranges
      ensures Behaves(a, f1.minIndex + off, |s'| + off, |s| + off, t, re)
    {
      EmbedsEarlier(s', f1.minIndex, |s'|, exits, t, s, f1.minIndex, f2.minIndex, m1.exits, t, a, off);
      EmbedsEarlier(s', f1.minIndex, |s'|, exits, t, s, f2.minIndex, |s|, m2.exits, t, a, off);
      assert EmbedsAt(s', |s|, exits, a, off, t) && EmbedsAt(s', f2.start, exits, a, off, t);
      AltBehaves(a, f1.minIndex + off, f2.minIndex + off, |s| + off, f1.start + off, f2.start + off, t, m1.re, m2.re);
    }
  }

  lemma DistinctAppend(e1: seq<int>, e2: seq<int>, bound: int)
    requires Distinct(e1) && Distinct(e2)
    requires forall p | p in e1 :: p < bound
    requires forall p | p in e2 :: bound <= p
    ensures Distinct(e1 + e2)
  {
    forall i, j | 0 <= i < j < |e1 + e2|
      ensures (e1 + e2)[i] != (e1 + e2)[j]
    {
      if i < |e1| <= j {
        assert e1[i] in e1 && e2[j - |e1|] in e2;
      }
    }
  }

  lemma OptionalFrag(s: seq<State>, ranges: seq<Range>, f: Frag, m: Meaning, s': seq<State>)
    requires FragOk(s, ranges, f, |s|, m)
    requires |s'| == |s| + 1 && s'[|s|].out == INVALID && s'[|s|].out1 == f.start
    requires Joined(s, m.exits, |s|, s')
    ensures FragOk(s', ranges, Frag(|s|, f.out, f.minIndex), |s'|, Meaning(m.exits + [|s|], Optional(m.re)))
  {
    assert m.exits[|m.exits| - 1] in m.exits;
    assert IsList(s', |s|, [|s|]);
    ListAppend(s, f.out, m.exits, |s|, [|s|], s');
    DistinctAppend(m.exits, [|s|], |s|);
    OptionalImplements(s, ranges, f, m, s');
  }

  lemma OptionalImplements(s: seq<State>, ranges: seq<Range>, f: Frag, m: Meaning, s': seq<State>)
    requires FragOk(s, ranges, f, |s|, m)
    requires |s'| == |s| + 1 && s'[|s|].out == INVALID && s'[|s|].out1 == f.start
    requires Joined(s, m.exits, |s|, s')
    ensures Implements(s', ranges, f.minIndex, |s'|, |s|, Meaning(m.exits + [|s|], Optional(m.re)))
  {
    var exits := m.exits + [|s|];
    assert m.exits[|m.exits| - 1] in m.exits;
    forall a: Nfa, off: int, t: int | Embeds(s', f.minIndex, |s'|, exits, a, off, t) && ranges <= a.ranges
      ensures Behaves(a, f.minIndex + off, |s'| + off, |s| + off, t, Optional(m.re))
    {
      EmbedsEarlier(s', f.minIndex, |s'|, exits, t, s, f.minIndex, |s|, m.exits, t, a, off);
      assert EmbedsAt(s', |s|, exits, a, off, t) && EmbedsAt(s', f.start, exits, a, off, t);
      OptionalBehaves(a, f.minIndex + off, |s| + off, f.start + off, t, m.re);
    }
  }

  /** The split state closing a loop over the fragment, and both ways of entering it. */
  lemma LoopImplements(s: seq<State>, ranges: seq<Range>, f: Frag, m: Meaning, s': seq<State>)
    requires FragOk(s, ranges, f, |s|, m)
    requires |s'| == |s| + 1 && s'[|s|].out == INVALID && s'[|s|].out1 == f.start
    requires Patched(s, m.exits, |s|, s')
    ensures Implements(s', ranges, f.minIndex, |s'|, |s|, Meaning([|s|], Rep(m.re, 0, Unbounded)))
    ensures Implements(s', ranges, f.minIndex, |s'|, f.start, Meaning([|s|], Rep(m.re, 1, Unbounded)))
  {
    forall a: Nfa, off: int, t: int | Embeds(s', f.minIndex, |s'|, [|s|], a, off, t) && ranges <= a.ranges
      ensures Behaves(a, f.minIndex + off, |s'| + off, |s| + off, t, Rep(m.re, 0, Unbounded))
      ensures Behaves(a, f.minIndex + off, |s'| + off, f.start + off, t, Rep(m.re, 1, Unbounded))
    {
      LoopBehaves(s, ranges, f, m, s', a, off, t);
    }
  }

  lemma LoopBehaves(s: seq<State>, ranges: seq<Range>, f: Frag, m: Meaning, s': seq<State>, a: Nfa, off: int, t: int)
    requires FragOk(s, ranges, f, |s|, m)
    requires |s'| == |s| + 1 && s'[|s|].out == INVALID && s'[|s|].out1 == f.start
    requires Patched(s, m.exits, |s|, s')
    requires Embeds(s', f.minIndex, |s'|, [|s|], a, off, t) && ranges <= a.ranges
    ensures Behaves(a, f.minIndex + off, |s'| + off, |s| + off, t, Rep(m.re, 0, Unbounded))
    ensures Behaves(a, f.minIndex + off, |s'| + off, f.start + off, t, Rep(m.re, 1, Unbounded))
  {
    LoopParts(s, ranges, f, m, s', a, off, t);
    StarBehaves(a, f.minIndex + off, |s| + off, f.start + off, t, m.re);
    PlusBehaves(a, f.minIndex + off, |s| + off, f.start + off, t, m.re);
  }

  lemma LoopParts(s: seq<State>, ranges: seq<Range>, f: Frag, m: Meaning, s': seq<State>, a: Nfa, off: int, t: int)
    requires FragOk(s, ranges, f, |s|, m)
    requires |s'| == |s| + 1 && s'[|s|].out == INVALID && s'[|s|].out1 == f.start
    requires Patched(s, m.exits, |s|, s')
    requires Embeds(s', f.minIndex, |s'|, [|s|], a, off, t) && ranges <= a.ranges
    ensures a.IsSplit(|s| + off, t, f.start + off)
    ensures Behaves(a, f.minIndex + off, |s| + off, f.start + off, |s| + off, m.re)
  {
    assert EmbedsAt(s', |s|, [|s|], a, off, t) && EmbedsAt(s', f.start, [|s|], a, off, t);
    EmbedsEarlier(s', f.minIndex, |s'|, [|s|], t, s, f.minIndex, |s|, m.exits, |s| + off, a, off);
  }

  lemma LoopFrag(s: seq<State>, ranges: seq<Range>, f: Frag, m: Meaning, s': seq<State>)
    requires FragOk(s, ranges, f, |s|, m)
    requires |s'| == |s| + 1 && s'[|s|].out == INVALID && s'[|s|].out1 == f.start
    requires Patched(s, m.exits, |s|, s')
    ensures FragOk(s', ranges, Frag(|s|, |s|, f.minIndex), |s'|, Meaning([|s|], Rep(m.re, 0, Unbounded)))
    ensures FragOk(s', ranges, Frag(f.start, |s|, f.minIndex), |s'|, Meaning([|s|], Rep(m.re, 1, Unbounded)))
  {
    LoopImplements(s, ranges, f, m, s');
    assert IsList(s', |s|, [|s|]);
  }

  function Shift(exits: seq<int>, count: int): seq<int> {
    seq(|exits|, i requires 0 <= i < |exits| => exits[i] + count)
  }

  /** `CloneTopOperand`: what one copied state becomes. */
  function Cloned(s: State, count: int): State {
    s.(out := if s.out == INVALID then INVALID else s.out + count,
       out1 := if s.out1 == INVALID then INVALID else s.out1 + count)
  }

  lemma {:induction false} ListShift(s: seq<State>, l: int, exits: seq<int>, count: nat, s': seq<State>)
    requires IsList(s, l, exits)
    requires count <= |s| && |s'| >= |s| + count && forall p | |s| <= p < |s| + count :: s'[p] == Cloned(s[p - count], count)
    requires forall p | p in exits :: |s| - count <= p < |s|
    ensures IsList(s', if l == INVALID then INVALID else l + count, Shift(exits, count))
    decreases |exits|
  {
    if exits != [] {
      assert exits[0] in exits;
      assert forall p | p in exits[1..] :: p in exits;
      ListShift(s, s[l].out, exits[1..], count, s');
      assert Shift(exits, count)[1..] == Shift(exits[1..], count);
      assert s'[l + count] == Cloned(s[l], count);
    }
  }

  ghost predicate CopiedAbove(s: seq<State>, lo: int, s': seq<State>) {
    && 0 <= lo <= |s| && |s'| == |s| + (|s| - lo) && Agree(s, s', |s|)
    && forall p | |s| <= p < |s'| :: s'[p] == Cloned(s[p - (|s| - lo)], |s| - lo)
  }

  /** A copy of a block, moved up by its own length, means what the block means. */
  lemma CloneFrag(s: seq<State>, ranges: seq<Range>, f: Frag, m: Meaning, s': seq<State>)
    requires FragOk(s, ranges, f, |s|, m) && CopiedAbove(s, f.minIndex, s')
    ensures var count := |s| - f.minIndex;
            FragOk(s', ranges, Frag(f.start + count, f.out + count, f.minIndex + count), |s'|, Meaning(Shift(m.exits, count), m.re))
  {
    var count := |s| - f.minIndex;
    var exits := Shift(m.exits, count);
    ListShift(s, f.out, m.exits, count, s');
    ShiftMembers(m.exits, count);
    forall a: Nfa, off: int, t: int | Embeds(s', |s|, |s'|, exits, a, off, t) && ranges <= a.ranges
      ensures Behaves(a, |s| + off, |s'| + off, f.start + count + off, t, m.re)
    {
      CloneEmbeds(s, ranges, f, m, s', a, off, t);
      assert |s| + off == f.minIndex + (count + off);
    }
  }

  lemma CloneEmbeds(s: seq<State>, ranges: seq<Range>, f: Frag, m: Meaning, s': seq<State>, a: Nfa, off: int, t: int)
    requires FragOk(s, ranges, f, |s|, m) && CopiedAbove(s, f.minIndex, s')
    requires Embeds(s', |s|, |s'|, Shift(m.exits, |s| - f.minIndex), a, off, t)
    ensures Embeds(s, f.minIndex, |s|, m.exits, a, |s| - f.minIndex + off, t)
  {
    var count := |s| - f.minIndex;
    var exits := Shift(m.exits, count);
    ShiftMembers(m.exits, count);
    var off' := count + off;
    forall p | f.minIndex <= p < |s|
      ensures EmbedsAt(s, p, m.exits, a, off', t)
    {
      assert EmbedsAt(s', p + count, exits, a, off, t);
      assert s'[p + count] == Cloned(s[p], count);
      assert p + count in exits <==> p in m.exits;
    }
  }

  lemma ShiftMembers(exits: seq<int>, count: int)
    ensures forall p :: p in Shift(exits, count) <==> p - count in exits
    ensures Distinct(exits) ==> Distinct(Shift(exits, count))
  {
    forall p | p - count in exits
      ensures p in Shift(exits, count)
    {
      var i :| 0 <= i < |exits| && exits[i] == p - count;
      assert Shift(exits, count)[i] == p;
    }
  }

  /** The whole automaton: the last fragment, with its exits led to a fresh matching state. */
  lemma FinishedNfa(s: seq<State>, ranges: seq<Range>, f: Frag, m: Meaning, s': seq<State>)
    requires FragOk(s, ranges, f, |s|, m) && f.minIndex == 0 && RangesOk(ranges)
    requires |s'| == |s| + 1 && s'[|s|].out == INVALID && s'[|s|].out1 == INVALID
    requires Patched(s, m.exits, |s|, s')
    ensures Behaves(Nfa(s', ranges), 0, |s|, f.start, |s|, m.re)
    ensures forall p | 0 <= p < |s| :: 0 <= s'[p].out < |s'|
  {
    var a := Nfa(s', ranges);
    forall p | 0 <= p < |s|
      ensures EmbedsAt(s, p, m.exits, a, 0, |s|)
    {
      assert s'[p] == if p in m.exits then s[p].(out := |s|) else s[p];
    }
    assert Embeds(s, 0, |s|, m.exits, a, 0, |s|);
  }
}
