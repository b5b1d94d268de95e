/** The languages denoted by regular expressions: an independent definition, by sets of words, of
    what a pattern means.  Nothing here knows about automata. */
module RegexLanguage {

  /** What `DecodedStream` hands out before the end of the text: a decoded, non-zero code point. */
  predicate IsCharacter(c: int) {
    0 < c <= 0x10FFFF
  }

  type Word = seq<int>

  /** A pattern as the parser reads it; `IsDecoded` says that it came out of a decoder. */
  type Source = seq<int>

  predicate IsDecoded(src: Source) {
    forall i | 0 <= i < |src| :: IsCharacter(src[i])
  }

  /** Upper bound of a repetition; `{n,}`, `*` and `+` have none. */
  datatype Bound = AtMost(max: nat) | Unbounded

  datatype Re =
    | Lit(c: int)
    | Any
    | Class(negated: bool, ranges: seq<(int, int)>)
    | Cat(left: Re, right: Re)
    | Alt(left: Re, right: Re)
    | Rep(body: Re, least: nat, most: Bound)

  predicate Allows(most: Bound, k: nat) {
    most.Unbounded? || k <= most.max
  }

  predicate InRanges(ranges: seq<(int, int)>, c: int) {
    exists i | 0 <= i < |ranges| :: ranges[i].0 <= c <= ranges[i].1
  }

  ghost predicate InLanguage(r: Re, w: Word)
    decreases r, 0
  {
    match r
    case Lit(c) => |w| == 1 && IsCharacter(w[0]) && w[0] == c
    case Any => |w| == 1 && IsCharacter(w[0])
    case Class(negated, ranges) => |w| == 1 && IsCharacter(w[0]) && InRanges(ranges, w[0]) != negated
    case Cat(left, right) => exists i | 0 <= i <= |w| :: InLanguage(left, w[..i]) && InLanguage(right, w[i..])
    case Alt(left, right) => InLanguage(left, w) || InLanguage(right, w)
    case Rep(body, least, most) => exists k: nat | least <= k && Allows(most, k) :: InPower(body, k, w)
  }

  /** `w` is `k` words of `r`, one after the other. */
  ghost predicate InPower(r: Re, k: nat, w: Word)
    decreases r, 1, k
  {
    if k == 0 then w == []
    else exists i | 0 <= i <= |w| :: InLanguage(r, w[..i]) && InPower(r, k - 1, w[i..])
  }

  predicate Nullable(r: Re) {
    match r
    case Lit(_) => false
    case Any => false
    case Class(_, _) => false
    case Cat(left, right) => Nullable(left) && Nullable(right)
    case Alt(left, right) => Nullable(left) || Nullable(right)
    case Rep(body, least, _) => least == 0 || Nullable(body)
  }

  /** Every unbounded repetition has a body that does not match the empty word. */
  predicate Guarded(r: Re) {
    match r
    case Lit(_) => true
    case Any => true
    case Class(_, _) => true
    case Cat(left, right) => Guarded(left) && Guarded(right)
    case Alt(left, right) => Guarded(left) && Guarded(right)
    case Rep(body, _, most) => Guarded(body) && (most.Unbounded? ==> !Nullable(body))
  }

  /** Repetition bounds the compiler accepts: `{n,m}` with `n <= m`, and not `{0,0}`. */
  predicate BoundsOk(least: nat, most: Bound) {
    most.Unbounded? || (least <= most.max && 0 < most.max)
  }

  predicate WellFormed(r: Re) {
    match r
    case Lit(_) => true
    case Any => true
    case Class(_, _) => true
    case Cat(left, right) => WellFormed(left) && WellFormed(right)
    case Alt(left, right) => WellFormed(left) && WellFormed(right)
    case Rep(body, least, most) => WellFormed(body) && BoundsOk(least, most)
  }

  lemma {:induction false} NullableIsEmptyWord(r: Re)
    requires WellFormed(r)
    ensures Nullable(r) <==> InLanguage(r, [])
  {
    var e: Word := [];
    match r
    case Lit(_) =>
    case Any =>
    case Class(_, _) =>
    case Cat(left, right) =>
      NullableIsEmptyWord(left);
      NullableIsEmptyWord(right);
      assert e[..0] == e && e[0..] == e;
    case Alt(left, right) =>
      NullableIsEmptyWord(left);
      NullableIsEmptyWord(right);
    case Rep(body, least, most) =>
      NullableIsEmptyWord(body);
      if least == 0 {
        assert InPower(body, 0, e);
      } else {
        if Nullable(body) {
          EmptyPower(body, least);
        }
        forall k: nat | least <= k && InPower(body, k, e)
          ensures InLanguage(body, e)
        {
          var i :| 0 <= i <= |e| && InLanguage(body, e[..i]) && InPower(body, k - 1, e[i..]);
          assert e[..i] == e;
        }
      }
  }

  lemma {:induction false} EmptyPower(r: Re, k: nat)
    requires InLanguage(r, [])
    ensures InPower(r, k, [])
    decreases k
  {
    var e: Word := [];
    if k > 0 {
      EmptyPower(r, k - 1);
      assert e[..0] == e && e[0..] == e;
    }
  }

  lemma Slices<T>(w: seq<T>, a: nat, b: nat)
    requires a + b <= |w|
    ensures w[..a + b][..a] == w[..a] && w[..a + b][a..] == w[a..][..b] && w[a..][b..] == w[a + b..]
  {
  }

  lemma CatWord(l: Re, r: Re, w: Word, i: nat)
    requires i <= |w| && InLanguage(l, w[..i]) && InLanguage(r, w[i..])
    ensures InLanguage(Cat(l, r), w)
  {
  }

  lemma CatCut(l: Re, r: Re, w: Word) returns (i: nat)
    requires InLanguage(Cat(l, r), w)
    ensures i <= |w| && InLanguage(l, w[..i]) && InLanguage(r, w[i..])
  {
    i :| 0 <= i <= |w| && InLanguage(l, w[..i]) && InLanguage(r, w[i..]);
  }

  lemma PowerWord(r: Re, k: nat, w: Word, i: nat)
    requires i <= |w| && InLanguage(r, w[..i]) && InPower(r, k, w[i..])
    ensures InPower(r, k + 1, w)
  {
  }

  lemma PowerCut(r: Re, k: nat, w: Word) returns (i: nat)
    requires k > 0 && InPower(r, k, w)
    ensures i <= |w| && InLanguage(r, w[..i]) && InPower(r, k - 1, w[i..])
  {
    i :| 0 <= i <= |w| && InLanguage(r, w[..i]) && InPower(r, k - 1, w[i..]);
  }

  lemma {:induction false} PowerAppend(r: Re, j: nat, k: nat, u: Word, v: Word)
    requires InPower(r, j, u) && InPower(r, k, v)
    ensures InPower(r, j + k, u + v)
    decreases j, 1
  {
    if j == 0 {
      assert u + v == v;
    } else {
      PowerAppendStep(r, j, k, u, v);
    }
  }

  lemma {:induction false} PowerAppendStep(r: Re, j: nat, k: nat, u: Word, v: Word)
    requires j > 0 && InPower(r, j, u) && InPower(r, k, v)
    ensures InPower(r, j + k, u + v)
    decreases j, 0
  {
    hide InLanguage, InPower;
    var i := PowerCut(r, j, u);
    PowerAppend(r, j - 1, k, u[i..], v);
    assert (u + v)[..i] == u[..i] && (u + v)[i..] == u[i..] + v;
    PowerWord(r, j - 1 + k, u + v, i);
  }

  lemma OnePower(r: Re, w: Word)
    ensures InPower(r, 1, w) <==> InLanguage(r, w)
  {
    assert w[..|w|] == w && w[|w|..] == [];
    if InLanguage(r, w) {
      assert InPower(r, 0, w[|w|..]);
    }
    if InPower(r, 1, w) {
      var i :| 0 <= i <= |w| && InLanguage(r, w[..i]) && InPower(r, 0, w[i..]);
      assert i == |w|;
    }
  }

  // ----- what `EvalQuantifier` builds, and why it means the repetition it was asked for

  function Optional(e: Re): Re {
    Rep(e, 0, AtMost(1))
  }

  /** `e? e? ... e?`, nested to the right, as the operators on the operand stack leave it. */
  function OptionalRun(e: Re, count: nat): Re
    requires count > 0
  {
    if count == 1 then Optional(e) else Cat(Optional(e), OptionalRun(e, count - 1))
  }

  function Copies(e: Re, count: nat, tail: Re): Re {
    if count == 0 then tail else Cat(e, Copies(e, count - 1, tail))
  }

  /** The operand left on the stack for `e{n,m}`. */
  function Expansion(e: Re, least: nat, most: Bound): Re
    requires BoundsOk(least, most)
  {
    if least == 0 then
      if most.Unbounded? then Rep(e, 0, Unbounded) else OptionalRun(e, most.max)
    else if most.Unbounded? then Copies(e, least - 1, Rep(e, 1, Unbounded))
    else if most.max == least then Copies(e, least - 1, e)
    else Copies(e, least, OptionalRun(e, most.max - least))
  }

  ghost predicate SameMeaning(r: Re, s: Re) {
    && Nullable(r) == Nullable(s)
    && Guarded(r) == Guarded(s)
    && forall w: Word :: InLanguage(r, w) <==> InLanguage(s, w)
  }

  lemma OptionalWords(e: Re, w: Word)
    ensures InLanguage(Optional(e), w) <==> w == [] || InLanguage(e, w)
  {
    OnePower(e, w);
    if w == [] || InLanguage(e, w) {
      var k := if w == [] then 0 else 1;
      assert Allows(AtMost(1), k) && InPower(e, k, w);
    }
    if InLanguage(Optional(e), w) {
      var k: nat :| Allows(AtMost(1), k) && InPower(e, k, w);
      assert k == 0 || k == 1;
    }
  }

  lemma {:induction false} OptionalRunIsPower(e: Re, count: nat, w: Word)
    requires count > 0 && InLanguage(OptionalRun(e, count), w)
    ensures exists k: nat | k <= count :: InPower(e, k, w)
    decreases count
  {
    if count == 1 {
      OptionalWords(e, w);
      OnePower(e, w);
      assert InPower(e, 0, w) || InPower(e, 1, w);
    } else {
      var i :| 0 <= i <= |w| && InLanguage(Optional(e), w[..i]) && InLanguage(OptionalRun(e, count - 1), w[i..]);
      OptionalRunIsPower(e, count - 1, w[i..]);
      var k: nat :| k <= count - 1 && InPower(e, k, w[i..]);
      OptionalWords(e, w[..i]);
      OnePower(e, w[..i]);
      var j := if i == 0 then 0 else 1;
      PowerAppend(e, j, k, w[..i], w[i..]);
      assert w[..i] + w[i..] == w;
      assert InPower(e, j + k, w);
    }
  }

  lemma {:induction false} PowersInOptionalRun(e: Re, count: nat, k: nat, w: Word)
    requires 0 < count && k <= count && InPower(e, k, w)
    ensures InLanguage(OptionalRun(e, count), w)
    decreases count
  {
    if count == 1 {
      OnePower(e, w);
      OptionalWords(e, w);
    } else {
      var i := 0;
      if k == 0 {
        assert w[..0] == [] && w[0..] == [];
        assert InPower(e, 0, w[0..]);
      } else {
        i :| 0 <= i <= |w| && InLanguage(e, w[..i]) && InPower(e, k - 1, w[i..]);
      }
      OptionalWords(e, w[..i]);
      PowersInOptionalRun(e, count - 1, if k == 0 then 0 else k - 1, w[i..]);
      assert InLanguage(Optional(e), w[..i]) && InLanguage(OptionalRun(e, count - 1), w[i..]);
    }
  }

  lemma {:induction false} CopiesSplit(e: Re, count: nat, tail: Re, w: Word) returns (i: nat)
    requires InLanguage(Copies(e, count, tail), w)
    ensures i <= |w| && InPower(e, count, w[..i]) && InLanguage(tail, w[i..])
    decreases count, 1
  {
    if count == 0 {
      i := 0;
      assert w[0..] == w;
    } else {
      i := CopiesSplitStep(e, count, tail, w);
    }
  }

  lemma {:induction false} CopiesSplitStep(e: Re, count: nat, tail: Re, w: Word) returns (i: nat)
    requires count > 0 && InLanguage(Copies(e, count, tail), w)
    ensures i <= |w| && InPower(e, count, w[..i]) && InLanguage(tail, w[i..])
    decreases count, 0
  {
    hide InLanguage, InPower;
    var a := CatCut(e, Copies(e, count - 1, tail), w);
    var b := CopiesSplit(e, count - 1, tail, w[a..]);
    i := a + b;
    Slices(w, a, b);
    PowerWord(e, count - 1, w[..i], a);
  }

  lemma {:induction false} CopiesJoin(e: Re, count: nat, tail: Re, u: Word, v: Word)
    requires InPower(e, count, u) && InLanguage(tail, v)
    ensures InLanguage(Copies(e, count, tail), u + v)
    decreases count, 1
  {
    if count == 0 {
      assert u + v == v;
    } else {
      CopiesJoinStep(e, count, tail, u, v);
    }
  }

  lemma {:induction false} CopiesJoinStep(e: Re, count: nat, tail: Re, u: Word, v: Word)
    requires count > 0 && InPower(e, count, u) && InLanguage(tail, v)
    ensures InLanguage(Copies(e, count, tail), u + v)
    decreases count, 0
  {
    hide InLanguage, InPower;
    var j := PowerCut(e, count, u);
    CopiesJoin(e, count - 1, tail, u[j..], v);
    assert (u + v)[..j] == u[..j] && (u + v)[j..] == u[j..] + v;
    CatWord(e, Copies(e, count - 1, tail), u + v, j);
  }

  lemma {:induction false} OptionalRunShape(e: Re, count: nat)
    requires count > 0
    ensures Nullable(OptionalRun(e, count)) && Guarded(OptionalRun(e, count)) == Guarded(e)
  {
    if count > 1 {
      OptionalRunShape(e, count - 1);
    }
  }

  lemma {:induction false} CopiesShape(e: Re, count: nat, tail: Re)
    ensures Nullable(Copies(e, count, tail)) == ((count == 0 || Nullable(e)) && Nullable(tail))
    ensures Guarded(Copies(e, count, tail)) == ((count == 0 || Guarded(e)) && Guarded(tail))
  {
    if count > 0 {
      CopiesShape(e, count - 1, tail);
    }
  }

  function Raise(most: Bound, shift: nat): Bound {
    match most
    case Unbounded => Unbounded
    case AtMost(max) => AtMost(max + shift)
  }

  /** Copies in front of a repetition raise both of its bounds. */
  lemma {:induction false} CopiesOfPowers(e: Re, count: nat, tail: Re, low: nat, high: Bound, w: Word)
    requires forall v: Word :: InLanguage(tail, v) <==> InLanguage(Rep(e, low, high), v)
    ensures InLanguage(Copies(e, count, tail), w) <==> InLanguage(Rep(e, low + count, Raise(high, count)), w)
  {
    if InLanguage(Copies(e, count, tail), w) {
      var i := CopiesSplit(e, count, tail, w);
      assert InLanguage(Rep(e, low, high), w[i..]);
      var k: nat :| low <= k && Allows(high, k) && InPower(e, k, w[i..]);
      PowerAppend(e, count, k, w[..i], w[i..]);
      assert w[..i] + w[i..] == w;
      assert Allows(Raise(high, count), count + k) && InPower(e, count + k, w);
    }
    if InLanguage(Rep(e, low + count, Raise(high, count)), w) {
      var k: nat :| low + count <= k && Allows(Raise(high, count), k) && InPower(e, k, w);
      var i := PowerSplit(e, count, k - count, w);
      assert Allows(high, k - count);
      assert InLanguage(Rep(e, low, high), w[i..]);
      CopiesJoin(e, count, tail, w[..i], w[i..]);
      assert w[..i] + w[i..] == w;
    }
  }

  lemma {:induction false} PowerSplit(e: Re, j: nat, k: nat, w: Word) returns (i: nat)
    requires InPower(e, j + k, w)
    ensures i <= |w| && InPower(e, j, w[..i]) && InPower(e, k, w[i..])
    decreases j, 1
  {
    if j == 0 {
      i := 0;
      assert w[0..] == w;
    } else {
      i := PowerSplitStep(e, j, k, w);
    }
  }

  lemma {:induction false} PowerSplitStep(e: Re, j: nat, k: nat, w: Word) returns (i: nat)
    requires j > 0 && InPower(e, j + k, w)
    ensures i <= |w| && InPower(e, j, w[..i]) && InPower(e, k, w[i..])
    decreases j, 0
  {
    hide InLanguage, InPower;
    var a := PowerCut(e, j + k, w);
    var b := PowerSplit(e, j - 1, k, w[a..]);
    i := a + b;
    Slices(w, a, b);
    PowerWord(e, j - 1, w[..i], a);
  }

  /** The expansion built for `e{n,m}` matches exactly the words that are between `n` and `m` words of `e`,
      and it is nullable and guarded exactly when the repetition is. */
  lemma {:induction false} ExpansionMeansRepetition(e: Re, least: nat, most: Bound)
    requires BoundsOk(least, most)
    ensures SameMeaning(Expansion(e, least, most), Rep(e, least, most))
  {
    ExpansionShape(e, least, most);
    forall w: Word
      ensures InLanguage(Expansion(e, least, most), w) <==> InLanguage(Rep(e, least, most), w)
    {
      ExpansionWords(e, least, most, w);
    }
  }

  lemma ExpansionShape(e: Re, least: nat, most: Bound)
    requires BoundsOk(least, most)
    ensures Nullable(Expansion(e, least, most)) == Nullable(Rep(e, least, most))
    ensures Guarded(Expansion(e, least, most)) == Guarded(Rep(e, least, most))
  {
    if least == 0 {
      if most.AtMost? {
        OptionalRunShape(e, most.max);
      }
    } else if most.Unbounded? {
      CopiesShape(e, least - 1, Rep(e, 1, Unbounded));
    } else if most.max == least {
      CopiesShape(e, least - 1, e);
    } else {
      OptionalRunShape(e, most.max - least);
      CopiesShape(e, least, OptionalRun(e, most.max - least));
    }
  }

  lemma ExpansionWords(e: Re, least: nat, most: Bound, w: Word)
    requires BoundsOk(least, most)
    ensures InLanguage(Expansion(e, least, most), w) <==> InLanguage(Rep(e, least, most), w)
  {
    if least == 0 {
      if most.AtMost? {
        OptionalRunIsRep(e, most.max, w);
      }
    } else if most.Unbounded? {
      CopiesOfPowers(e, least - 1, Rep(e, 1, Unbounded), 1, Unbounded, w);
    } else if most.max == least {
      forall v: Word
        ensures InLanguage(e, v) <==> InLanguage(Rep(e, 1, AtMost(1)), v)
      {
        OnePower(e, v);
        assert Allows(AtMost(1), 1);
      }
      CopiesOfPowers(e, least - 1, e, 1, AtMost(1), w);
    } else {
      var extra := most.max - least;
      forall v: Word
        ensures InLanguage(OptionalRun(e, extra), v) <==> InLanguage(Rep(e, 0, AtMost(extra)), v)
      {
        OptionalRunIsRep(e, extra, v);
      }
      CopiesOfPowers(e, least, OptionalRun(e, extra), 0, AtMost(extra), w);
    }
  }

  lemma OptionalRunIsRep(e: Re, count: nat, w: Word)
    requires count > 0
    ensures InLanguage(OptionalRun(e, count), w) <==> InLanguage(Rep(e, 0, AtMost(count)), w)
  {
    if InLanguage(OptionalRun(e, count), w) {
      OptionalRunIsPower(e, count, w);
      var k: nat :| k <= count && InPower(e, k, w);
      assert Allows(AtMost(count), k);
      assert InLanguage(Rep(e, 0, AtMost(count)), w);
    }
    if InLanguage(Rep(e, 0, AtMost(count)), w) {
      var k: nat :| Allows(AtMost(count), k) && InPower(e, k, w);
      PowersInOptionalRun(e, count, k, w);
    }
  }
}
