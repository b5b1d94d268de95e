/** The automaton `GenericRegex` compiles to, what it accepts, and when following its split states ends.
    Acceptance is counted in steps, so it is defined for automata with cycles of split states too. */
module RegexNfa {
  import opened RegexLanguage

  /** `kRegexInvalidState` and `kRegexInvalidRange`, the index no state or range has. */
  const INVALID := -1
  const ANY_CHARACTER_CLASS := 0xFFFFFFFF
  const RANGE_CHARACTER_CLASS := 0xFFFFFFFE
  const RANGE_NEGATION_FLAG := 0x80000000

  datatype Range = Range(start: int, end: int, next: int)

  /** `out == INVALID` marks the matching state, `out1 != INVALID` a split. */
  datatype State = State(out: int, out1: int, rangeStart: int, codepoint: int)

  // ----- character classes

  /** Every link leads to a later range, so every chain of ranges ends. */
  ghost predicate RangesOk(ranges: seq<Range>) {
    forall i | 0 <= i < |ranges| :: ranges[i].next == INVALID || i < ranges[i].next < |ranges|
  }

  ghost predicate ChainHas(ranges: seq<Range>, index: int, c: int)
    requires RangesOk(ranges)
    requires index == INVALID || 0 <= index < |ranges|
    decreases if index == INVALID then 0 else |ranges| - index
  {
    index != INVALID &&
    (ranges[index].start % RANGE_NEGATION_FLAG <= c <= ranges[index].end || ChainHas(ranges, ranges[index].next, c))
  }

  ghost predicate ClassHas(ranges: seq<Range>, index: int, c: int)
    requires RangesOk(ranges)
  {
    0 <= index < |ranges| && ChainHas(ranges, index, c) == (ranges[index].start < RANGE_NEGATION_FLAG)
  }

  // ----- acceptance

  datatype Nfa = Nfa(states: seq<State>, ranges: seq<Range>) {
    ghost predicate Valid() {
      RangesOk(ranges)
    }

    predicate IsState(p: int) {
      0 <= p < |states|
    }

    ghost predicate Consumes(p: int, c: int)
      requires Valid()
    {
      IsState(p) && IsCharacter(c) &&
      ( || states[p].codepoint == c
        || states[p].codepoint == ANY_CHARACTER_CLASS
        || (states[p].codepoint == RANGE_CHARACTER_CLASS && ClassHas(ranges, states[p].rangeStart, c)))
    }

    /** From `p`, `w` leads to the matching state within `n` steps. */
    ghost predicate AcceptsIn(p: int, w: Word, n: nat)
      requires Valid()
      decreases n
    {
      n > 0 && IsState(p) &&
      if states[p].out1 != INVALID then AcceptsIn(states[p].out, w, n - 1) || AcceptsIn(states[p].out1, w, n - 1)
      else if states[p].out == INVALID then w == []
      else w != [] && Consumes(p, w[0]) && AcceptsIn(states[p].out, w[1..], n - 1)
    }

    ghost predicate Accepts(p: int, w: Word)
      requires Valid()
    {
      exists n: nat :: AcceptsIn(p, w, n)
    }

    /** Following split states from `p` always ends, after fewer than `n` levels. */
    ghost predicate HaltsIn(p: int, n: nat)
      decreases n
    {
      n > 0 && IsState(p) &&
      (states[p].out1 != INVALID ==> HaltsIn(states[p].out, n - 1) && HaltsIn(states[p].out1, n - 1))
    }

    ghost predicate Halts(p: int) {
      exists n: nat :: HaltsIn(p, n)
    }

    ghost predicate IsSplit(s: int, out: int, out1: int) {
      IsState(s) && states[s].out == out && states[s].out1 == out1 && out1 != INVALID
    }
  }

  lemma {:induction false} AcceptsMore(a: Nfa, p: int, w: Word, m: nat, n: nat)
    requires a.Valid() && a.AcceptsIn(p, w, m) && m <= n
    ensures a.AcceptsIn(p, w, n)
    decreases m
  {
    if a.states[p].out1 != INVALID {
      if a.AcceptsIn(a.states[p].out, w, m - 1) {
        AcceptsMore(a, a.states[p].out, w, m - 1, n - 1);
      } else {
        AcceptsMore(a, a.states[p].out1, w, m - 1, n - 1);
      }
    } else if a.states[p].out != INVALID {
      AcceptsMore(a, a.states[p].out, w[1..], m - 1, n - 1);
    }
  }

  lemma {:induction false} HaltsMore(a: Nfa, p: int, m: nat, n: nat)
    requires a.HaltsIn(p, m) && m <= n
    ensures a.HaltsIn(p, n)
    decreases m
  {
    if a.states[p].out1 != INVALID {
      HaltsMore(a, a.states[p].out, m - 1, n - 1);
      HaltsMore(a, a.states[p].out1, m - 1, n - 1);
    }
  }

  lemma SplitHalts(a: Nfa, s: int, out: int, out1: int)
    requires a.IsSplit(s, out, out1)
    ensures a.Halts(s) <==> a.Halts(out) && a.Halts(out1)
  {
    if a.Halts(out) && a.Halts(out1) {
      var m: nat :| a.HaltsIn(out, m);
      var n: nat :| a.HaltsIn(out1, n);
      var k := if m < n then n else m;
      HaltsMore(a, out, m, k);
      HaltsMore(a, out1, n, k);
      assert a.HaltsIn(s, k + 1);
    }
    if a.Halts(s) {
      var n: nat :| a.HaltsIn(s, n);
      assert a.HaltsIn(out, n - 1) && a.HaltsIn(out1, n - 1);
    }
  }

  lemma SplitAccepts(a: Nfa, s: int, out: int, out1: int, w: Word)
    requires a.Valid() && a.IsSplit(s, out, out1)
    ensures a.Accepts(s, w) <==> a.Accepts(out, w) || a.Accepts(out1, w)
  {
    if n: nat :| a.AcceptsIn(out, w, n) {
      assert a.AcceptsIn(s, w, n + 1);
    }
    if n: nat :| a.AcceptsIn(out1, w, n) {
      assert a.AcceptsIn(s, w, n + 1);
    }
    if n: nat :| a.AcceptsIn(s, w, n) {
      assert a.AcceptsIn(out, w, n - 1) || a.AcceptsIn(out1, w, n - 1);
    }
  }

  // ----- a sub-automaton that behaves like a regular expression

  /** `w` is a word of `r` followed by a word accepted from `t`. */
  ghost predicate Splits(a: Nfa, t: int, r: Re, w: Word, i: int, n: nat)
    requires a.Valid()
  {
    0 <= i <= |w| && InLanguage(r, w[..i]) && a.AcceptsIn(t, w[i..], n)
  }

  ghost predicate SplitsIn(a: Nfa, t: int, r: Re, w: Word, n: nat)
    requires a.Valid()
  {
    exists i :: Splits(a, t, r, w, i, n)
  }

  /** Entered at `s` and left to `t`, the states in [lo, hi) read exactly the words of `r`. */
  ghost predicate Reads(a: Nfa, s: int, t: int, r: Re)
    requires a.Valid()
  {
    && (forall w: Word, n: nat {:trigger a.AcceptsIn(s, w, n)} ::
          a.AcceptsIn(s, w, n) ==> n > 0 && SplitsIn(a, t, r, w, n - 1))
    && (forall w: Word, i, n: nat {:trigger Splits(a, t, r, w, i, n)} :: Splits(a, t, r, w, i, n) ==> a.Accepts(s, w))
  }

  ghost predicate AllHalt(a: Nfa, lo: int, hi: int) {
    forall p | lo <= p < hi :: a.Halts(p)
  }

  /** When following split states ends inside [lo, hi), whatever comes after `t`. */
  ghost predicate Ends(a: Nfa, lo: int, hi: int, s: int, t: int, r: Re) {
    && (Guarded(r) && a.Halts(t) ==> AllHalt(a, lo, hi))
    && (Guarded(r) && !Nullable(r) ==> a.Halts(s))
    && (Nullable(r) ==> forall n: nat :: a.HaltsIn(s, n) ==> n > 0 && a.HaltsIn(t, n - 1))
    && (!Guarded(r) ==> !AllHalt(a, lo, hi))
  }

  ghost predicate Behaves(a: Nfa, lo: int, hi: int, s: int, t: int, r: Re) {
    a.Valid() && lo <= s < hi && Reads(a, s, t, r) && Ends(a, lo, hi, s, t, r)
  }

  lemma SameMeaningBehaves(a: Nfa, lo: int, hi: int, s: int, t: int, r: Re, q: Re)
    requires Behaves(a, lo, hi, s, t, r) && SameMeaning(r, q)
    ensures Behaves(a, lo, hi, s, t, q)
  {
    forall w: Word, n: nat | a.AcceptsIn(s, w, n)
      ensures n > 0 && SplitsIn(a, t, q, w, n - 1)
    {
      var i :| Splits(a, t, r, w, i, n - 1);
      assert Splits(a, t, q, w, i, n - 1);
    }
    forall w: Word, i, n: nat | Splits(a, t, q, w, i, n)
      ensures a.Accepts(s, w)
    {
      assert Splits(a, t, r, w, i, n);
    }
  }

  // single characters

  lemma CharacterBehaves(a: Nfa, s: int, t: int, r: Re)
    requires a.Valid() && a.IsState(s) && a.states[s].out1 == INVALID && a.states[s].out == t && t != INVALID
    requires r.Lit? || r.Any? || r.Class?
    requires forall c: int :: a.Consumes(s, c) <==> InLanguage(r, [c])
    ensures Behaves(a, s, s + 1, s, t, r)
  {
    assert a.HaltsIn(s, 1);
    forall w: Word, n: nat | a.AcceptsIn(s, w, n)
      ensures n > 0 && SplitsIn(a, t, r, w, n - 1)
    {
      assert w[..1] == [w[0]];
      assert Splits(a, t, r, w, 1, n - 1);
    }
    forall w: Word, i, n: nat | Splits(a, t, r, w, i, n)
      ensures a.Accepts(s, w)
    {
      assert i == 1 && w[..1] == [w[0]];
      assert a.AcceptsIn(s, w, n + 1);
    }
  }

  // concatenation

  lemma CatReads(a: Nfa, s: int, m: int, t: int, l: Re, r: Re)
    requires a.Valid() && Reads(a, s, m, l) && Reads(a, m, t, r)
    ensures Reads(a, s, t, Cat(l, r))
  {
    forall w: Word, n: nat | a.AcceptsIn(s, w, n)
      ensures n > 0 && SplitsIn(a, t, Cat(l, r), w, n - 1)
    {
      CatForward(a, s, m, t, l, r, w, n);
    }
    forall w: Word, k, n: nat | Splits(a, t, Cat(l, r), w, k, n)
      ensures a.Accepts(s, w)
    {
      CatBackward(a, s, m, t, l, r, w, k, n);
    }
  }

  lemma CatForward(a: Nfa, s: int, m: int, t: int, l: Re, r: Re, w: Word, n: nat)
    requires a.Valid() && Reads(a, s, m, l) && Reads(a, m, t, r) && a.AcceptsIn(s, w, n)
    ensures n > 0 && SplitsIn(a, t, Cat(l, r), w, n - 1)
  {
    hide InLanguage, InPower, Nfa.AcceptsIn;
    assert SplitsIn(a, m, l, w, n - 1);
    var i :| Splits(a, m, l, w, i, n - 1);
    assert SplitsIn(a, t, r, w[i..], n - 2);
    var j :| Splits(a, t, r, w[i..], j, n - 2);
    AcceptsMore(a, t, w[i..][j..], n - 2, n - 1);
    Slices(w, i, j);
    CatWord(l, r, w[..i + j], i);
    assert Splits(a, t, Cat(l, r), w, i + j, n - 1);
  }

  lemma CatBackward(a: Nfa, s: int, m: int, t: int, l: Re, r: Re, w: Word, k: int, n: nat)
    requires a.Valid() && Reads(a, s, m, l) && Reads(a, m, t, r) && Splits(a, t, Cat(l, r), w, k, n)
    ensures a.Accepts(s, w)
  {
    var i := CatCut(l, r, w[..k]);
    hide InLanguage, InPower, Nfa.AcceptsIn;
    Slices(w, i, k - i);
    assert Splits(a, t, r, w[i..], k - i, n);
    assert a.Accepts(m, w[i..]);
    var m': nat :| a.AcceptsIn(m, w[i..], m');
    assert w[..k][..i] == w[..i];
    assert Splits(a, m, l, w, i, m');
  }

  lemma CatBehaves(a: Nfa, lo: int, mid: int, hi: int, s: int, m: int, t: int, l: Re, r: Re)
    requires Behaves(a, lo, mid, s, m, l) && Behaves(a, mid, hi, m, t, r)
    ensures Behaves(a, lo, hi, s, t, Cat(l, r))
  {
    CatReads(a, s, m, t, l, r);
    if Guarded(r) && a.Halts(t) && Guarded(l) {
      assert a.Halts(m);
    }
    if Guarded(l) && Guarded(r) && !(Nullable(l) && Nullable(r)) {
      if Nullable(l) {
        assert a.Halts(m);
      }
      assert a.Halts(s);
    }
    if Nullable(l) && Nullable(r) {
      forall n: nat | a.HaltsIn(s, n)
        ensures n > 0 && a.HaltsIn(t, n - 1)
      {
        assert a.HaltsIn(m, n - 1);
        HaltsMore(a, t, n - 2, n - 1);
      }
    }
  }

  // alternation

  lemma AltBehaves(a: Nfa, lo: int, mid: int, s: int, s1: int, s2: int, t: int, l: Re, r: Re)
    requires Behaves(a, lo, mid, s1, t, l) && Behaves(a, mid, s, s2, t, r) && a.IsSplit(s, s1, s2)
    ensures Behaves(a, lo, s + 1, s, t, Alt(l, r))
  {
    AltReads(a, s, s1, s2, t, l, r);
    SplitHalts(a, s, s1, s2);
    if Nullable(Alt(l, r)) {
      forall n: nat | a.HaltsIn(s, n)
        ensures n > 0 && a.HaltsIn(t, n - 1)
      {
        assert a.HaltsIn(s1, n - 1) && a.HaltsIn(s2, n - 1);
        HaltsMore(a, t, n - 2, n - 1);
      }
    }
  }

  lemma AltReads(a: Nfa, s: int, s1: int, s2: int, t: int, l: Re, r: Re)
    requires a.Valid() && Reads(a, s1, t, l) && Reads(a, s2, t, r) && a.IsSplit(s, s1, s2)
    ensures Reads(a, s, t, Alt(l, r))
  {
    forall w: Word, n: nat | a.AcceptsIn(s, w, n)
      ensures n > 0 && SplitsIn(a, t, Alt(l, r), w, n - 1)
    {
      var i;
      if a.AcceptsIn(s1, w, n - 1) {
        i :| Splits(a, t, l, w, i, n - 2);
      } else {
        assert a.AcceptsIn(s2, w, n - 1);
        i :| Splits(a, t, r, w, i, n - 2);
      }
      AcceptsMore(a, t, w[i..], n - 2, n - 1);
      assert Splits(a, t, Alt(l, r), w, i, n - 1);
    }
    forall w: Word, i, n: nat | Splits(a, t, Alt(l, r), w, i, n)
      ensures a.Accepts(s, w)
    {
      assert Splits(a, t, l, w, i, n) || Splits(a, t, r, w, i, n);
      SplitAccepts(a, s, s1, s2, w);
    }
  }

  // `?`

  lemma OptionalBehaves(a: Nfa, lo: int, s: int, s1: int, t: int, e: Re)
    requires Behaves(a, lo, s, s1, t, e) && a.IsSplit(s, t, s1)
    ensures Behaves(a, lo, s + 1, s, t, Optional(e))
  {
    OptionalReads(a, s, s1, t, e);
    SplitHalts(a, s, t, s1);
  }

  lemma OptionalReads(a: Nfa, s: int, s1: int, t: int, e: Re)
    requires a.Valid() && Reads(a, s1, t, e) && a.IsSplit(s, t, s1)
    ensures Reads(a, s, t, Optional(e))
  {
    forall w: Word, n: nat | a.AcceptsIn(s, w, n)
      ensures n > 0 && SplitsIn(a, t, Optional(e), w, n - 1)
    {
      if a.AcceptsIn(t, w, n - 1) {
        OptionalWords(e, w[..0]);
        assert w[0..] == w;
        assert Splits(a, t, Optional(e), w, 0, n - 1);
      } else {
        assert a.AcceptsIn(s1, w, n - 1);
        var i :| Splits(a, t, e, w, i, n - 2);
        OptionalWords(e, w[..i]);
        AcceptsMore(a, t, w[i..], n - 2, n - 1);
        assert Splits(a, t, Optional(e), w, i, n - 1);
      }
    }
    forall w: Word, i, n: nat | Splits(a, t, Optional(e), w, i, n)
      ensures a.Accepts(s, w)
    {
      OptionalWords(e, w[..i]);
      SplitAccepts(a, s, t, s1, w);
      if i == 0 {
        assert w[i..] == w;
      } else {
        assert Splits(a, t, e, w, i, n);
      }
    }
  }

  // `*` and `+`: the split `s` is both the exit of the body and the way back into it

  lemma {:induction false} LoopToPower(a: Nfa, s: int, s1: int, t: int, e: Re, w: Word, n: nat) returns (k: nat, i: nat)
    requires a.Valid() && Reads(a, s1, s, e) && a.IsSplit(s, t, s1)
    requires a.AcceptsIn(s, w, n)
    ensures n > 0 && i <= |w| && InPower(e, k, w[..i]) && a.AcceptsIn(t, w[i..], n - 1)
    decreases n
  {
    if a.AcceptsIn(t, w, n - 1) {
      k, i := 0, 0;
      assert w[0..] == w;
    } else {
      var j :| Splits(a, s, e, w, j, n - 2);
      var k', i' := LoopToPower(a, s, s1, t, e, w[j..], n - 2);
      k, i := k' + 1, j + i';
      Slices(w, j, i');
      assert InPower(e, k, w[..i]);
      AcceptsMore(a, t, w[i..], n - 3, n - 1);
    }
  }

  lemma {:induction false} PowerToLoop(a: Nfa, s: int, s1: int, t: int, e: Re, k: nat, u: Word, v: Word)
    requires a.Valid() && Reads(a, s1, s, e) && a.IsSplit(s, t, s1)
    requires InPower(e, k, u) && a.Accepts(t, v)
    ensures a.Accepts(s, u + v)
    decreases k
  {
    SplitAccepts(a, s, t, s1, u + v);
    if k == 0 {
      assert u + v == v;
    } else {
      var j :| 0 <= j <= |u| && InLanguage(e, u[..j]) && InPower(e, k - 1, u[j..]);
      PowerToLoop(a, s, s1, t, e, k - 1, u[j..], v);
      assert (u + v)[..j] == u[..j] && (u + v)[j..] == u[j..] + v;
      var n: nat :| a.AcceptsIn(s, (u + v)[j..], n);
      assert Splits(a, s, e, u + v, j, n);
    }
  }

  lemma StarReads(a: Nfa, s: int, s1: int, t: int, e: Re)
    requires a.Valid() && Reads(a, s1, s, e) && a.IsSplit(s, t, s1)
    ensures Reads(a, s, t, Rep(e, 0, Unbounded))
  {
    var r := Rep(e, 0, Unbounded);
    forall w: Word, n: nat | a.AcceptsIn(s, w, n)
      ensures n > 0 && SplitsIn(a, t, r, w, n - 1)
    {
      var k, i := LoopToPower(a, s, s1, t, e, w, n);
      assert Allows(Unbounded, k) && InPower(e, k, w[..i]);
      assert Splits(a, t, r, w, i, n - 1);
    }
    forall w: Word, i, n: nat | Splits(a, t, r, w, i, n)
      ensures a.Accepts(s, w)
    {
      var k: nat :| 0 <= k && Allows(Unbounded, k) && InPower(e, k, w[..i]);
      PowerToLoop(a, s, s1, t, e, k, w[..i], w[i..]);
      assert w[..i] + w[i..] == w;
    }
  }

  lemma PlusReads(a: Nfa, s: int, s1: int, t: int, e: Re)
    requires a.Valid() && Reads(a, s1, s, e) && a.IsSplit(s, t, s1)
    ensures Reads(a, s1, t, Rep(e, 1, Unbounded))
  {
    StarReads(a, s, s1, t, e);
    CatReads(a, s1, s, t, e, Rep(e, 0, Unbounded));
    forall w: Word
      ensures InLanguage(Cat(e, Rep(e, 0, Unbounded)), w) <==> InLanguage(Rep(e, 1, Unbounded), w)
    {
      CopiesOfPowers(e, 1, Rep(e, 0, Unbounded), 0, Unbounded, w);
      assert Copies(e, 1, Rep(e, 0, Unbounded)) == Cat(e, Copies(e, 0, Rep(e, 0, Unbounded)));
    }
    var q := Cat(e, Rep(e, 0, Unbounded));
    forall w: Word, n: nat | a.AcceptsIn(s1, w, n)
      ensures n > 0 && SplitsIn(a, t, Rep(e, 1, Unbounded), w, n - 1)
    {
      var i :| Splits(a, t, q, w, i, n - 1);
      assert Splits(a, t, Rep(e, 1, Unbounded), w, i, n - 1);
    }
    forall w: Word, i, n: nat | Splits(a, t, Rep(e, 1, Unbounded), w, i, n)
      ensures a.Accepts(s1, w)
    {
      assert Splits(a, t, q, w, i, n);
    }
  }

  /** A loop whose body can be crossed without reading has no bottom. */
  lemma {:induction false} NullableLoopDiverges(a: Nfa, lo: int, s: int, s1: int, t: int, e: Re, n: nat)
    requires Behaves(a, lo, s, s1, s, e) && a.IsSplit(s, t, s1) && Nullable(e)
    ensures !a.HaltsIn(s, n)
    decreases n
  {
    if a.HaltsIn(s, n) {
      assert a.HaltsIn(s1, n - 1);
      NullableLoopDiverges(a, lo, s, s1, t, e, n - 2);
    }
  }

  lemma LoopEnds(a: Nfa, lo: int, s: int, s1: int, t: int, e: Re)
    requires Behaves(a, lo, s, s1, s, e) && a.IsSplit(s, t, s1)
    ensures Guarded(Rep(e, 0, Unbounded)) && a.Halts(t) ==> AllHalt(a, lo, s + 1)
    ensures !Guarded(Rep(e, 0, Unbounded)) ==> !AllHalt(a, lo, s + 1)
  {
    SplitHalts(a, s, t, s1);
    if Nullable(e) {
      if n: nat :| a.HaltsIn(s, n) {
        NullableLoopDiverges(a, lo, s, s1, t, e, n);
      }
    }
  }

  lemma StarBehaves(a: Nfa, lo: int, s: int, s1: int, t: int, e: Re)
    requires Behaves(a, lo, s, s1, s, e) && a.IsSplit(s, t, s1)
    ensures Behaves(a, lo, s + 1, s, t, Rep(e, 0, Unbounded))
  {
    StarReads(a, s, s1, t, e);
    LoopEnds(a, lo, s, s1, t, e);
  }

  lemma PlusBehaves(a: Nfa, lo: int, s: int, s1: int, t: int, e: Re)
    requires Behaves(a, lo, s, s1, s, e) && a.IsSplit(s, t, s1)
    ensures Behaves(a, lo, s + 1, s1, t, Rep(e, 1, Unbounded))
  {
    PlusReads(a, s, s1, t, e);
    LoopEnds(a, lo, s, s1, t, e);
    if Nullable(e) {
      forall n: nat | a.HaltsIn(s1, n)
        ensures false
      {
        NullableLoopDiverges(a, lo, s, s1, t, e, n - 1);
      }
    }
  }
}
