/** Texts as sequences of codes: looking at a place in one, and decimal numerals. */
module Texts {
  import opened Ascii

  /** What is at `pos`; past the end every read gives the terminating zero. */
  function Peek(src: seq<int>, pos: nat): int {
    if pos < |src| then src[pos] else 0
  }

  /** The codes of a text that is written out. */
  function Codes(s: string): seq<int> {
    seq(|s|, i requires 0 <= i < |s| => s[i] as int)
  }

  /** `sub` is what `src` has at position `i`. */
  ghost predicate At(src: seq<int>, i: nat, sub: seq<int>): (b: bool)
    ensures b ==> i + |sub| <= |src|
  {
    i + |sub| <= |src| && src[i..i + |sub|] == sub
  }

  lemma AtSplit(src: seq<int>, i: nat, u: seq<int>, v: seq<int>)
    requires At(src, i, u + v)
    ensures At(src, i, u) && At(src, i + |u|, v)
  {
    var w := src[i..i + |u + v|];
    assert w[..|u|] == u && w[|u|..] == v;
  }

  lemma AtJoin(src: seq<int>, i: nat, u: seq<int>, v: seq<int>)
    requires At(src, i, u) && At(src, i + |u|, v)
    ensures At(src, i, u + v)
  {
    assert src[i..i + |u + v|] == src[i..i + |u|] + src[i + |u|..i + |u| + |v|];
  }

  lemma AtWhole(src: seq<int>)
    ensures At(src, 0, src)
  {
    assert src[0..|src|] == src;
  }

  lemma AtFirst(src: seq<int>, i: nat, u: seq<int>)
    requires At(src, i, u) && u != []
    ensures i < |src| && src[i] == u[0]
    ensures At(src, i + 1, u[1..])
  {
    assert src[i..i + |u|][0] == src[i];
    assert src[i + 1..i + |u|] == src[i..i + |u|][1..];
  }

  /** The decimal numeral of a number, without leading zeros. */
  function Decimal(n: nat): seq<int> {
    if n < 10 then [n + DIGIT_0] else Decimal(n / 10) + [n % 10 + DIGIT_0]
  }

  lemma {:induction false} DecimalDigits(n: nat)
    ensures |Decimal(n)| > 0 && forall k | 0 <= k < |Decimal(n)| :: IsDigit(Decimal(n)[k])
    ensures n > 0 ==> Decimal(n)[0] != DIGIT_0
  {
    if n >= 10 {
      DecimalDigits(n / 10);
    }
  }

  /** The decimal numeral of an integer. */
  function Signed(v: int): seq<int> {
    if v < 0 then [DASH] + Decimal(-v) else Decimal(v)
  }

  /** Every digit and place of a numeral, written out. */
  lemma NumeralWrittenOut()
    ensures Decimal(9) == Codes("9") && Decimal(1024) == Codes("1024") && Decimal(35768) == Codes("35768")
  {
    assert Decimal(10) == Codes("10") && Decimal(102) == Codes("102");
    assert Decimal(35) == Codes("35") && Decimal(357) == Codes("357") && Decimal(3576) == Codes("3576");
  }
}
