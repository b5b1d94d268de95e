/** `GenericRegexSearch`: simulation of the automaton by sets of states, and what it decides. */
module RegexSearch {
  import opened RegexLanguage
  import opened RegexNfa
  import RegexCompiler

  // ----- following split states

  /** The states that read a character, or match, reached from `p` through split states. */
  ghost function Closure(a: Nfa, p: int, n: nat): set<int>
    requires a.HaltsIn(p, n)
    decreases n
  {
    if a.states[p].out1 != INVALID then Closure(a, a.states[p].out, n - 1) + Closure(a, a.states[p].out1, n - 1) else {p}
  }

  ghost predicate IsPlain(a: Nfa, q: int) {
    a.IsState(q) && a.states[q].out1 == INVALID
  }

  lemma {:induction false} ClosurePlain(a: Nfa, p: int, n: nat)
    requires a.HaltsIn(p, n)
    ensures forall q | q in Closure(a, p, n) :: IsPlain(a, q)
    decreases n
  {
    if a.states[p].out1 != INVALID {
      ClosurePlain(a, a.states[p].out, n - 1);
      ClosurePlain(a, a.states[p].out1, n - 1);
    }
  }

  ghost predicate AnyAccepts(a: Nfa, s: set<int>, w: Word)
    requires a.Valid()
  {
    exists q | q in s :: a.Accepts(q, w)
  }

  lemma {:induction false} ClosureAccepts(a: Nfa, p: int, n: nat, w: Word)
    requires a.Valid() && a.HaltsIn(p, n)
    ensures AnyAccepts(a, Closure(a, p, n), w) <==> a.Accepts(p, w)
    decreases n
  {
    var out, out1 := a.states[p].out, a.states[p].out1;
    if out1 != INVALID {
      ClosureAccepts(a, out, n - 1, w);
      ClosureAccepts(a, out1, n - 1, w);
      SplitAccepts(a, p, out, out1, w);
      AnyAcceptsUnion(a, Closure(a, out, n - 1), Closure(a, out1, n - 1), w);
    }
  }

  lemma AnyAcceptsUnion(a: Nfa, s: set<int>, t: set<int>, w: Word)
    requires a.Valid()
    ensures AnyAccepts(a, s + t, w) <==> AnyAccepts(a, s, w) || AnyAccepts(a, t, w)
  {
    if q :| q in s && a.Accepts(q, w) {
      assert q in s + t;
    }
    if q :| q in t && a.Accepts(q, w) {
      assert q in s + t;
    }
  }

  lemma PlainAcceptsNothing(a: Nfa, q: int)
    requires a.Valid() && IsPlain(a, q)
    ensures a.Accepts(q, []) <==> a.states[q].out == INVALID
  {
    if a.states[q].out == INVALID {
      assert a.AcceptsIn(q, [], 1);
    }
  }

  /** A plain state accepts a non-empty word by reading its first character. */
  lemma PlainAcceptsStep(a: Nfa, q: int, c: int, v: Word)
    requires a.Valid() && IsPlain(a, q) && (a.states[q].out == INVALID ==> !a.Consumes(q, c))
    ensures a.Accepts(q, [c] + v) <==> a.Consumes(q, c) && a.Accepts(a.states[q].out, v)
  {
    var w := [c] + v;
    assert w[1..] == v;
    if a.Consumes(q, c) && a.Accepts(a.states[q].out, v) {
      var n: nat :| a.AcceptsIn(a.states[q].out, v, n);
      assert a.AcceptsIn(q, w, n + 1);
    }
    if n: nat :| a.AcceptsIn(q, w, n) {
      assert a.AcceptsIn(a.states[q].out, v, n - 1);
    }
  }

  /** What a compiled automaton accepts from its root. */
  lemma RootAccepts(a: Nfa, root: int, re: Re, w: Word)
    requires RegexCompiler.IsCompiled(a, root, re)
    ensures a.Accepts(root, w) <==> InLanguage(re, w)
  {
    var t := |a.states| - 1;
    if n: nat :| a.AcceptsIn(root, w, n) {
      assert SplitsIn(a, t, re, w, n - 1);
      var i :| Splits(a, t, re, w, i, n - 1);
      assert w[..i] == w;
    }
    if InLanguage(re, w) {
      assert w[..|w|] == w && w[|w|..] == [];
      assert a.AcceptsIn(t, [], 1);
      assert Splits(a, t, re, w, |w|, 1);
    }
  }

  lemma AllStatesHalt(a: Nfa, root: int, re: Re)
    requires RegexCompiler.IsCompiled(a, root, re)
    ensures (forall p | 0 <= p < |a.states| :: a.Halts(p)) <==> Guarded(re)
  {
    var t := |a.states| - 1;
    assert a.HaltsIn(t, 1);
    assert a.Halts(t);
  }

  // ----- what a search should say, and what it says

  ghost predicate HasFactor(re: Re, text: Word, anchorBegin: bool, anchorEnd: bool, j: int, k: int) {
    0 <= j <= k <= |text| && (anchorBegin ==> j == 0) && (anchorEnd ==> k == |text|) && InLanguage(re, text[j..k])
  }

  /** Some part of the text, from its beginning or up to its end where anchored, is a word of `re`. */
  ghost predicate Occurs(re: Re, text: Word, anchorBegin: bool, anchorEnd: bool) {
    exists j, k :: HasFactor(re, text, anchorBegin, anchorEnd, j, k)
  }

  ghost predicate OccursNonEmpty(re: Re, text: Word, anchorBegin: bool, anchorEnd: bool) {
    exists j, k :: j < k && HasFactor(re, text, anchorBegin, anchorEnd, j, k)
  }

  /** What `SearchWithAnchoring` decides: in a non-empty text it never counts an occurrence of the empty word. */
  ghost predicate Found(re: Re, text: Word, anchorBegin: bool, anchorEnd: bool) {
    if text == [] then InLanguage(re, []) else OccursNonEmpty(re, text, anchorBegin, anchorEnd)
  }

  /** `Match` is exact. */
  lemma FoundAnchored(re: Re, text: Word)
    ensures Found(re, text, true, true) <==> InLanguage(re, text)
  {
    if text != [] {
      assert text[0..|text|] == text;
      if InLanguage(re, text) {
        assert HasFactor(re, text, true, true, 0, |text|);
      }
    }
  }

  /** The search can be relied on: anchored at both ends, or for an expression that the empty word does not match, or
      that every character by itself does. */
  ghost predicate SearchIsExact(re: Re, anchorBegin: bool, anchorEnd: bool) {
    (anchorBegin && anchorEnd) || !Nullable(re) || forall c | IsCharacter(c) :: InLanguage(re, [c])
  }

  /** `Search` finds exactly the texts with an occurrence, whatever the text, exactly if the expression and the anchors
      are such; otherwise there is a text of one character in which it misses one, as `NullableSearchMisses` shows. */
  lemma SearchExactness(re: Re, anchorBegin: bool, anchorEnd: bool)
    requires WellFormed(re)
    ensures (forall text | IsDecoded(text) :: Found(re, text, anchorBegin, anchorEnd) <==> Occurs(re, text, anchorBegin, anchorEnd))
       <==> SearchIsExact(re, anchorBegin, anchorEnd)
  {
    hide Found, Occurs, WellFormed;
    if SearchIsExact(re, anchorBegin, anchorEnd) {
      forall text | IsDecoded(text)
        ensures Found(re, text, anchorBegin, anchorEnd) <==> Occurs(re, text, anchorBegin, anchorEnd)
      {
        SearchFinds(re, text, anchorBegin, anchorEnd);
      }
    } else {
      var c :| IsCharacter(c) && !InLanguage(re, [c]);
      MissedInOneCharacter(re, c, anchorBegin, anchorEnd);
      assert IsDecoded([c]);
    }
  }

  lemma SearchFinds(re: Re, text: Word, anchorBegin: bool, anchorEnd: bool)
    requires WellFormed(re) && SearchIsExact(re, anchorBegin, anchorEnd) && IsDecoded(text)
    ensures Found(re, text, anchorBegin, anchorEnd) <==> Occurs(re, text, anchorBegin, anchorEnd)
  {
    NullableIsEmptyWord(re);
    if text == [] {
      assert text[0..0] == [];
      if InLanguage(re, []) {
        assert HasFactor(re, text, anchorBegin, anchorEnd, 0, 0);
      }
    } else {
      EmptyOccurrence(re, text, anchorBegin, anchorEnd);
      var j := if anchorEnd then |text| - 1 else 0;
      assert text[j..j + 1] == [text[j]];
      if !(anchorBegin && anchorEnd) && InLanguage(re, [text[j]]) {
        assert HasFactor(re, text, anchorBegin, anchorEnd, j, j + 1);
      }
    }
  }

  /** The empty word occurs, and is not found. */
  lemma MissedInOneCharacter(re: Re, c: int, anchorBegin: bool, anchorEnd: bool)
    requires WellFormed(re) && Nullable(re) && !(anchorBegin && anchorEnd) && !InLanguage(re, [c])
    ensures Occurs(re, [c], anchorBegin, anchorEnd) && !Found(re, [c], anchorBegin, anchorEnd)
  {
    NullableIsEmptyWord(re);
    EmptyOccurrence(re, [c], anchorBegin, anchorEnd);
    assert [c][0..1] == [c];
  }

  lemma EmptyOccurrence(re: Re, text: Word, anchorBegin: bool, anchorEnd: bool)
    requires text != []
    ensures Occurs(re, text, anchorBegin, anchorEnd)
       <==> OccursNonEmpty(re, text, anchorBegin, anchorEnd) || (!(anchorBegin && anchorEnd) && InLanguage(re, []))
  {
    var i := if anchorBegin then 0 else |text|;
    assert text[i..i] == [];
    if !(anchorBegin && anchorEnd) && InLanguage(re, []) {
      assert HasFactor(re, text, anchorBegin, anchorEnd, i, i);
    }
    if j, k :| HasFactor(re, text, anchorBegin, anchorEnd, j, k) {
      if j == k {
        assert text[j..k] == [];
      }
    }
  }

  /** `a?` is found everywhere, for the empty word is; searched for in the text `b`, it is missed. */
  lemma NullableSearchMisses()
    ensures var re, text := Optional(Lit(97)), [98];
            Occurs(re, text, false, false) && !Found(re, text, false, false)
  {
    var re, text: Word := Optional(Lit(97)), [98];
    OptionalWords(Lit(97), []);
    assert text[0..0] == [];
    assert HasFactor(re, text, false, false, 0, 0);
    forall j, k | j < k && HasFactor(re, text, false, false, j, k)
      ensures false
    {
      assert text[j..k] == [98];
      OptionalWords(Lit(97), [98]);
    }
  }

  // ----- the simulation

  function Elements(l: seq<int>): set<int> {
    set q | q in l
  }

  ghost predicate NoRepeats(l: seq<int>) {
    forall i, j | 0 <= i < j < |l| :: l[i] != l[j]
  }

  /** The states that have read `text[j..pos]` for some admissible start `j`. */
  ghost predicate Ahead(re: Re, text: Word, pos: nat, anchorBegin: bool, v: Word)
    requires pos <= |text|
  {
    exists j | 0 <= j <= pos && (anchorBegin ==> j == 0) :: InLanguage(re, text[j..pos] + v)
  }

  lemma {:induction false} NoRepeatsBound(l: seq<int>, n: nat)
    requires NoRepeats(l) && forall q | q in l :: 0 <= q < n
    ensures |l| <= n
    decreases n
  {
    assert l != [] ==> l[0] in l;
    if n == 0 {
    } else if n - 1 in l {
      var i :| 0 <= i < |l| && l[i] == n - 1;
      var l' := l[..i] + l[i + 1..];
      forall q | q in l'
        ensures 0 <= q < n - 1
      {
        assert q in l;
        var j :| 0 <= j < |l'| && l'[j] == q;
        assert q == if j < i then l[j] else l[j + 1];
      }
      NoRepeatsBound(l', n - 1);
    } else {
      NoRepeatsBound(l, n - 1);
    }
  }

  class GenericRegexSearch {
    const a: Nfa
    const root: int
    /** One flag for each state; the program packs 32 of them in a word. */
    const stateSet: array<bool>

    ghost predicate Valid() {
      a.Valid() && stateSet.Length == |a.states|
    }

    constructor (regex: RegexCompiler.GenericRegex)
      requires regex.states != [] && RangesOk(regex.ranges)
      ensures Valid() && fresh(stateSet) && a == Nfa(regex.states, regex.ranges) && root == regex.root
    {
      a := Nfa(regex.states, regex.ranges);
      root := regex.root;
      stateSet := new bool[|regex.states|];
    }

    /** The list and the flags agree, and the list fits in the space reserved for it. */
    ghost predicate ListOk(l: seq<int>)
      requires Valid()
      reads stateSet
    {
      && NoRepeats(l) && (forall q | q in l :: IsPlain(a, q))
      && forall q | 0 <= q < stateSet.Length :: stateSet[q] <==> q in l
    }

    method ClearStateSet()
      requires Valid()
      modifies stateSet
      ensures ListOk([])
    {
      var i := 0;
      while i < stateSet.Length
        invariant 0 <= i <= stateSet.Length && forall q | 0 <= q < i :: !stateSet[q]
      {
        stateSet[i] := false;
        i := i + 1;
      }
    }

    /** A list never outgrows the `stateCount_` places reserved for it. */
    lemma ListFits(l: seq<int>)
      requires Valid() && ListOk(l)
      ensures |l| <= |a.states|
    {
      NoRepeatsBound(l, |a.states|);
    }

    /** Adds the closure of `index` to the list, and says whether the matching state is in that closure. */
    method AddState(l: seq<int>, index: int, ghost n: nat) returns (matched: bool, l': seq<int>)
      requires Valid() && ListOk(l) && a.HaltsIn(index, n)
      modifies stateSet
      ensures ListOk(l') && Elements(l') == Elements(l) + Closure(a, index, n) && |l'| <= |a.states|
      ensures matched <==> a.Accepts(index, [])
      decreases n
    {
      var s := a.states[index];
      if s.out1 != INVALID {
        var m1, m2;
        m1, l' := AddState(l, s.out, n - 1);
        m2, l' := AddState(l', s.out1, n - 1);
        matched := m2 || m1;
        SplitAccepts(a, index, s.out, s.out1, []);
      } else {
        l' := l;
        if !stateSet[index] {
          stateSet[index] := true;
          l' := l + [index];
        }
        matched := s.out == INVALID;
        PlainAcceptsNothing(a, index);
        ListFits(l');
      }
    }

    method MatchRange(rangeIndex: int, codepoint: int) returns (yes: bool)
      requires Valid() && 0 <= rangeIndex < |a.ranges|
      ensures yes == ClassHas(a.ranges, rangeIndex, codepoint)
    {
      var positive := a.ranges[rangeIndex].start < RANGE_NEGATION_FLAG;
      var i := rangeIndex;
      while i != INVALID
        invariant i == INVALID || 0 <= i < |a.ranges|
        invariant ChainHas(a.ranges, i, codepoint) == ChainHas(a.ranges, rangeIndex, codepoint)
        decreases if i == INVALID then 0 else |a.ranges| - i
      {
        var r := a.ranges[i];
        if r.start % RANGE_NEGATION_FLAG <= codepoint <= r.end {
          return positive;
        }
        i := r.next;
      }
      yes := !positive;
    }

    method Reads(q: int, codepoint: int) returns (yes: bool)
      requires Valid() && a.IsState(q) && IsCharacter(codepoint)
      ensures yes == a.Consumes(q, codepoint)
    {
      var s := a.states[q];
      yes := s.codepoint == codepoint || s.codepoint == ANY_CHARACTER_CLASS;
      if !yes && s.codepoint == RANGE_CHARACTER_CLASS && 0 <= s.rangeStart < |a.ranges| {
        yes := MatchRange(s.rangeStart, codepoint);
      }
    }

    /** One turn of the loop of `SearchWithAnchoring`: the states after one more character.  With no anchor at the
        end it stops at the first match. */
    method Advance(current: seq<int>, codepoint: int, anchorBegin: bool, anchorEnd: bool,
        ghost re: Re) returns (matched: bool, next: seq<int>)
      requires Valid() && RegexCompiler.IsCompiled(a, root, re) && Guarded(re)
      requires IsCharacter(codepoint) && forall q | q in current :: IsPlain(a, q)
      modifies stateSet
      ensures matched <==> AnyAccepts(a, Elements(current), [codepoint])
      ensures anchorEnd || !matched ==> ListOk(next) && Followed(a, root, Elements(current), codepoint, anchorBegin, Elements(next))
    {
      hide RegexCompiler.IsCompiled, Followed, AnyAccepts, Nfa.Consumes, Closure, Elements;
      ClearStateSet();
      matched, next := false, [];
      var i := 0;
      StartsEmpty(a, root, codepoint, anchorBegin);
      while i < |current|
        invariant 0 <= i <= |current| && ListOk(next)
        invariant matched <==> AnyAccepts(a, Elements(current[..i]), [codepoint])
        invariant !anchorEnd ==> !matched
        invariant Followed(a, root, Elements(current[..i]), codepoint, anchorBegin, Elements(next))
      {
        var q := current[i];
        assert q in current;
        var taken := Reads(q, codepoint);
        ghost var s, t := Elements(current[..i]), Elements(next);
        ghost var n1, n2 := StateStep(a, root, re, q, codepoint);
        OneMore(a, current, i, [codepoint]);
        if taken {
          var m;
          m, next := AddState(next, a.states[q].out, n1);
          matched := m || matched;
          if !anchorEnd && matched {
            AnyAcceptsElement(a, current, i, [codepoint]);
            return;
          }
        }
        if !anchorBegin {
          var m;
          m, next := AddState(next, root, n2);
        }
        FollowedStep(a, root, s, q, codepoint, anchorBegin, t, Elements(next), n1, n2);
        i := i + 1;
      }
      assert current[..i] == current;
    }

    /** `SearchWithAnchoring`: what it returns, for every guarded expression, every text and all four anchorings. */
    method SearchWithAnchoring(text: Word, anchorBegin: bool, anchorEnd: bool, ghost re: Re) returns (matched: bool)
      requires Valid() && RegexCompiler.IsCompiled(a, root, re) && Guarded(re) && IsDecoded(text)
      modifies stateSet
      ensures matched <==> Found(re, text, anchorBegin, anchorEnd)
    {
      hide RegexCompiler.IsCompiled, Followed, Ahead, AnyAccepts, Closure, HasFactor, InLanguage;
      ClearStateSet();
      ghost var n := RootHalts(a, root, re);
      var current;
      matched, current := AddState([], root, n);
      InitialAhead(a, root, re, text, anchorBegin, Elements(current), n);
      var pos := 0;
      while current != [] && pos < |text|
        invariant 0 <= pos <= |text| && ListOk(current)
        invariant Tracks(a, re, text, pos, anchorBegin, Elements(current))
        invariant matched <==> if pos == 0 then InLanguage(re, []) else EndsHere(re, text, anchorBegin, pos)
        invariant !anchorEnd ==> forall k | 0 < k <= pos :: !EndsHere(re, text, anchorBegin, k)
        invariant !anchorBegin ==> current != []
        decreases |text| - pos
      {
        ghost var s := Elements(current);
        assert current[0] in s;
        MatchedAhead(a, re, text, pos, anchorBegin, s);
        matched, current := Advance(current, text[pos], anchorBegin, anchorEnd, re);
        if !anchorEnd && matched {
          FoundEarly(re, text, anchorBegin, pos + 1);
          return;
        }
        NextAhead(a, root, re, text, pos, anchorBegin, s, Elements(current));
        pos := pos + 1;
      }
      if pos < |text| {
        assert current == [] && Elements(current) == {};
      }
      assert !anchorEnd ==> forall k | 0 < k <= pos :: !EndsHere(re, text, anchorBegin, k);
      SearchDone(a, re, text, pos, anchorBegin, anchorEnd, Elements(current));
    }

    method Match(text: Word, ghost re: Re) returns (matched: bool)
      requires Valid() && RegexCompiler.IsCompiled(a, root, re) && Guarded(re) && IsDecoded(text)
      modifies stateSet
      ensures matched <==> InLanguage(re, text)
    {
      matched := SearchWithAnchoring(text, true, true, re);
      FoundAnchored(re, text);
    }
  }

  // ----- one character

  /** From `t` the automaton accepts what from `s` it accepts after `c`; with a free beginning it also starts anew. */
  ghost predicate Followed(a: Nfa, root: int, s: set<int>, c: int, anchorBegin: bool, t: set<int>)
    requires a.Valid()
  {
    && (!anchorBegin && s != {} ==> t != {})
    && forall v: Word {:trigger AnyAccepts(a, t, v)} ::
         AnyAccepts(a, t, v) <==> AnyAccepts(a, s, [c] + v) || (!anchorBegin && s != {} && a.Accepts(root, v))
  }

  lemma StartsEmpty(a: Nfa, root: int, c: int, anchorBegin: bool)
    requires a.Valid()
    ensures Followed(a, root, Elements([]), c, anchorBegin, Elements([])) && !AnyAccepts(a, Elements([]), [c])
  {
  }

  /** A plain state that reads `c`: it is not the matching state, and both ways on from it end. */
  lemma StateStep(a: Nfa, root: int, re: Re, q: int, c: int) returns (n1: nat, n2: nat)
    requires RegexCompiler.IsCompiled(a, root, re) && Guarded(re) && IsPlain(a, q) && IsCharacter(c)
    ensures a.Consumes(q, c) ==> a.HaltsIn(a.states[q].out, n1)
    ensures a.HaltsIn(root, n2)
    ensures forall v: Word {:trigger a.Accepts(q, [c] + v)} :: a.Accepts(q, [c] + v) <==> a.Consumes(q, c) && a.Accepts(a.states[q].out, v)
    ensures a.Accepts(q, [c]) <==> a.Consumes(q, c) && a.Accepts(a.states[q].out, [])
  {
    AllStatesHalt(a, root, re);
    assert a.Halts(root);
    n2 :| a.HaltsIn(root, n2);
    n1 := 0;
    if a.Consumes(q, c) {
      assert q < |a.states| - 1;
      assert a.Halts(a.states[q].out);
      n1 :| a.HaltsIn(a.states[q].out, n1);
    }
    forall v: Word
      ensures a.Accepts(q, [c] + v) <==> a.Consumes(q, c) && a.Accepts(a.states[q].out, v)
    {
      PlainAcceptsStep(a, q, c, v);
    }
    assert [c] + [] == [c];
  }

  lemma OneMore(a: Nfa, l: seq<int>, i: nat, w: Word)
    requires a.Valid() && i < |l|
    ensures Elements(l[..i + 1]) == Elements(l[..i]) + {l[i]}
    ensures AnyAccepts(a, Elements(l[..i + 1]), w) <==> AnyAccepts(a, Elements(l[..i]), w) || a.Accepts(l[i], w)
  {
    assert l[..i + 1] == l[..i] + [l[i]];
    AnyAcceptsUnion(a, Elements(l[..i]), {l[i]}, w);
  }

  lemma AnyAcceptsElement(a: Nfa, l: seq<int>, i: nat, w: Word)
    requires a.Valid() && i < |l| && AnyAccepts(a, Elements(l[..i + 1]), w)
    ensures AnyAccepts(a, Elements(l), w)
  {
    var q :| q in Elements(l[..i + 1]) && a.Accepts(q, w);
    assert q in l;
  }

  lemma FollowedStep(a: Nfa, root: int, s: set<int>, q: int, c: int, anchorBegin: bool, t: set<int>, t': set<int>,
      n1: nat, n2: nat)
    requires a.Valid() && IsPlain(a, q) && Followed(a, root, s, c, anchorBegin, t)
    requires a.Consumes(q, c) ==> a.HaltsIn(a.states[q].out, n1)
    requires a.HaltsIn(root, n2)
    requires forall v: Word {:trigger a.Accepts(q, [c] + v)} :: a.Accepts(q, [c] + v) <==> a.Consumes(q, c) && a.Accepts(a.states[q].out, v)
    requires t' == t + (if a.Consumes(q, c) then Closure(a, a.states[q].out, n1) else {}) + (if anchorBegin then {} else Closure(a, root, n2))
    ensures Followed(a, root, s + {q}, c, anchorBegin, t')
  {
    var read := if a.Consumes(q, c) then Closure(a, a.states[q].out, n1) else {};
    var anew := if anchorBegin then {} else Closure(a, root, n2);
    ClosureNotEmpty(a, root, n2);
    forall v: Word
      ensures AnyAccepts(a, t', v) <==> AnyAccepts(a, s + {q}, [c] + v) || (!anchorBegin && a.Accepts(root, v))
    {
      AnyAcceptsUnion(a, t + read, anew, v);
      AnyAcceptsUnion(a, t, read, v);
      AnyAcceptsUnion(a, s, {q}, [c] + v);
      ClosureAccepts(a, root, n2, v);
      if a.Consumes(q, c) {
        ClosureAccepts(a, a.states[q].out, n1, v);
      }
      hide Nfa.Consumes, Nfa.Accepts, Closure;
    }
  }

  lemma {:induction false} ClosureNotEmpty(a: Nfa, p: int, n: nat)
    requires a.HaltsIn(p, n)
    ensures Closure(a, p, n) != {}
    decreases n
  {
    if a.states[p].out1 != INVALID {
      ClosureNotEmpty(a, a.states[p].out, n - 1);
    }
  }

  // ----- the whole text

  /** A non-empty occurrence ends at `k`. */
  ghost predicate EndsHere(re: Re, text: Word, anchorBegin: bool, k: nat)
    requires k <= |text|
  {
    exists j | 0 <= j < k && (anchorBegin ==> j == 0) :: InLanguage(re, text[j..k])
  }

  ghost predicate Tracks(a: Nfa, re: Re, text: Word, pos: nat, anchorBegin: bool, s: set<int>)
    requires a.Valid() && pos <= |text|
  {
    forall v: Word {:trigger AnyAccepts(a, s, v)} :: AnyAccepts(a, s, v) <==> Ahead(re, text, pos, anchorBegin, v)
  }

  lemma RootHalts(a: Nfa, root: int, re: Re) returns (n: nat)
    requires RegexCompiler.IsCompiled(a, root, re) && Guarded(re)
    ensures a.HaltsIn(root, n)
  {
    AllStatesHalt(a, root, re);
    assert a.Halts(root);
    n :| a.HaltsIn(root, n);
  }

  lemma InitialAhead(a: Nfa, root: int, re: Re, text: Word, anchorBegin: bool, s: set<int>, n: nat)
    requires RegexCompiler.IsCompiled(a, root, re) && a.HaltsIn(root, n) && s == Closure(a, root, n)
    ensures Tracks(a, re, text, 0, anchorBegin, s) && s != {}
    ensures a.Accepts(root, []) <==> InLanguage(re, [])
  {
    ClosureNotEmpty(a, root, n);
    RootAccepts(a, root, re, []);
    forall v: Word
      ensures AnyAccepts(a, s, v) <==> Ahead(re, text, 0, anchorBegin, v)
    {
      ClosureAccepts(a, root, n, v);
      RootAccepts(a, root, re, v);
      assert text[0..0] + v == v;
    }
  }

  /** Reading one more character moves every start along, and with a free beginning adds a new one. */
  lemma AheadStep(re: Re, text: Word, pos: nat, anchorBegin: bool, v: Word)
    requires pos < |text|
    ensures Ahead(re, text, pos + 1, anchorBegin, v)
       <==> Ahead(re, text, pos, anchorBegin, [text[pos]] + v) || (!anchorBegin && InLanguage(re, v))
  {
    var next := pos + 1;
    forall j {:trigger text[j..next]} | 0 <= j <= pos
      ensures text[j..next] + v == text[j..pos] + ([text[pos]] + v)
    {
      assert text[j..next] == text[j..pos] + [text[pos]];
    }
    assert text[pos + 1..pos + 1] + v == v;
    hide InLanguage;
    if j :| 0 <= j <= pos && (anchorBegin ==> j == 0) && InLanguage(re, text[j..pos] + ([text[pos]] + v)) {
      assert InLanguage(re, text[j..pos + 1] + v);
    }
    if j :| 0 <= j <= next && (anchorBegin ==> j == 0) && InLanguage(re, text[j..next] + v) {
      assert j <= pos ==> InLanguage(re, text[j..pos] + ([text[pos]] + v));
    }
    if !anchorBegin && InLanguage(re, v) {
      assert InLanguage(re, text[pos + 1..pos + 1] + v);
    }
  }

  lemma NextAhead(a: Nfa, root: int, re: Re, text: Word, pos: nat, anchorBegin: bool, s: set<int>, s': set<int>)
    requires RegexCompiler.IsCompiled(a, root, re) && pos < |text| && Tracks(a, re, text, pos, anchorBegin, s)
    requires Followed(a, root, s, text[pos], anchorBegin, s') && (!anchorBegin ==> s != {})
    ensures Tracks(a, re, text, pos + 1, anchorBegin, s') && (!anchorBegin ==> s' != {})
  {
    forall v: Word
      ensures AnyAccepts(a, s', v) <==> Ahead(re, text, pos + 1, anchorBegin, v)
    {
      AheadStep(re, text, pos, anchorBegin, v);
      RootAccepts(a, root, re, v);
      hide RegexCompiler.IsCompiled, Ahead, InLanguage;
    }
  }

  lemma MatchedAhead(a: Nfa, re: Re, text: Word, pos: nat, anchorBegin: bool, s: set<int>)
    requires a.Valid() && pos < |text| && Tracks(a, re, text, pos, anchorBegin, s)
    ensures AnyAccepts(a, s, [text[pos]]) <==> EndsHere(re, text, anchorBegin, pos + 1)
  {
    hide InLanguage, AnyAccepts;
    var next := pos + 1;
    forall j {:trigger text[j..pos]} | 0 <= j <= pos
      ensures text[j..pos] + [text[pos]] == text[j..next]
    {
    }
    if j :| 0 <= j < next && (anchorBegin ==> j == 0) && InLanguage(re, text[j..next]) {
      assert InLanguage(re, text[j..pos] + [text[pos]]);
    }
    if j :| 0 <= j <= pos && (anchorBegin ==> j == 0) && InLanguage(re, text[j..pos] + [text[pos]]) {
      assert InLanguage(re, text[j..pos + 1]);
    }
  }

  lemma FoundEarly(re: Re, text: Word, anchorBegin: bool, k: nat)
    requires 0 < k <= |text| && EndsHere(re, text, anchorBegin, k)
    ensures Found(re, text, anchorBegin, false)
  {
    var j :| 0 <= j < k && (anchorBegin ==> j == 0) && InLanguage(re, text[j..k]);
    assert HasFactor(re, text, anchorBegin, false, j, k);
  }

  lemma NothingLater(a: Nfa, re: Re, text: Word, pos: nat, k: nat, s: set<int>)
    requires a.Valid() && pos <= k <= |text| && Tracks(a, re, text, pos, true, s) && s == {}
    ensures !InLanguage(re, text[..k])
  {
    assert !AnyAccepts(a, s, text[pos..k]);
    assert text[0..pos] + text[pos..k] == text[..k];
    assert !Ahead(re, text, pos, true, text[pos..k]);
  }

  lemma SearchDone(a: Nfa, re: Re, text: Word, pos: nat, anchorBegin: bool, anchorEnd: bool, s: set<int>)
    requires a.Valid() && pos <= |text| && Tracks(a, re, text, pos, anchorBegin, s)
    requires pos < |text| ==> s == {} && anchorBegin
    requires !anchorEnd ==> forall k | 0 < k <= pos :: !EndsHere(re, text, anchorBegin, k)
    ensures Found(re, text, anchorBegin, anchorEnd) <==> if pos == 0 then InLanguage(re, []) else EndsHere(re, text, anchorBegin, pos)
  {
    hide InLanguage, Tracks;
    if pos < |text| {
      forall k | pos <= k <= |text|
        ensures !InLanguage(re, text[..k])
      {
        NothingLater(a, re, text, pos, k, s);
      }
      assert text[..0] == [] && text[0..pos] == text[..pos];
    }
    if j, k :| j < k && HasFactor(re, text, anchorBegin, anchorEnd, j, k) {
      assert anchorBegin ==> text[j..k] == text[..k];
      assert EndsHere(re, text, anchorBegin, k);
    }
    if 0 < pos && EndsHere(re, text, anchorBegin, pos) {
      var j :| 0 <= j < pos && (anchorBegin ==> j == 0) && InLanguage(re, text[j..pos]);
      assert anchorBegin ==> text[j..pos] == text[..pos];
      if pos == |text| {
        assert HasFactor(re, text, anchorBegin, anchorEnd, j, pos);
      }
    }
  }
}
