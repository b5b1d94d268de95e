/** Grisu2's digit generation: from an interval of scaled integers, the digits of a decimal that lies in it. */
module DigitGen {
  import opened Ascii
  import opened Limbs
  import opened BigInteger

  /** `CountDecimalDigit32`, for the numbers below 10^9 it is called with. */
  method CountDecimalDigit32(n: nat) returns (k: nat)
    requires n < 1000000000
    ensures 1 <= k <= 9 && n < Pow(10, k) && (n > 0 ==> Pow(10, k - 1) <= n)
  {
    SmallPowersOf10();
    if n < 10 { return 1; }
    if n < 100 { return 2; }
    if n < 1000 { return 3; }
    if n < 10000 { return 4; }
    if n < 100000 { return 5; }
    if n < 1000000 { return 6; }
    if n < 10000000 { return 7; }
    if n < 100000000 { return 8; }
    return 9;
  }

  lemma SmallPowersOf10()
    ensures Pow(10, 0) == 1 && Pow(10, 1) == 10 && Pow(10, 2) == 100 && Pow(10, 3) == 1000 && Pow(10, 4) == 10000
    ensures Pow(10, 5) == 100000 && Pow(10, 6) == 1000000 && Pow(10, 7) == 10000000 && Pow(10, 8) == 100000000
    ensures Pow(10, 9) == 1000000000
  {
    assert Pow(10, 4) == 10000;
    PowAdd(10, 4, 4);
  }

  /** `kPow10` */
  function Pow10Of(k: nat): (p: nat)
    requires k <= 9
  {
    match k
    case 0 => 1
    case 1 => 10
    case 2 => 100
    case 3 => 1000
    case 4 => 10000
    case 5 => 100000
    case 6 => 1000000
    case 7 => 10000000
    case 8 => 100000000
    case _ => 1000000000
  }

  lemma Pow10IsPow(k: nat)
    requires k <= 9
    ensures Pow10Of(k) == Pow(10, k)
  {
    SmallPowersOf10();
  }

  // ----- rounding

  /** The digits in use. */
  predicate DigitsIn(buffer: array<int>, len: nat)
    reads buffer
  {
    len <= buffer.Length && AllDigits(buffer[..len])
  }

  /** Whether a step down stays in the interval and comes closer to the value aimed at, in wrapping arithmetic. */
  predicate Closer(delta: nat, rest: nat, tenKappa: nat, wpw: nat) {
    && rest < wpw && (delta - rest) % B >= tenKappa
    && ((rest + tenKappa) % B < wpw || (wpw - rest) % B > (rest + tenKappa - wpw) % B)
  }

  lemma CloserFits(delta: nat, rest: nat, tenKappa: nat, wpw: nat)
    requires rest <= delta < B && Closer(delta, rest, tenKappa, wpw)
    ensures delta - rest >= tenKappa && (rest + tenKappa) % B == rest + tenKappa
  {
  }

  /** What remains after `i` steps down. */
  function Rest(rest0: nat, tenKappa: nat, i: nat): nat {
    rest0 + i * tenKappa
  }

  function Distance(a: int, b: int): nat {
    if a < b then b - a else a - b
  }

  /** Whether to go on is whether one step more stays in the interval and comes closer. */
  lemma CloserMeans(delta: nat, rest: nat, tenKappa: nat, wpw: nat)
    requires rest <= delta < B && wpw < B && 0 < tenKappa
    ensures Closer(delta, rest, tenKappa, wpw) ==> Distance(wpw, rest + tenKappa) < Distance(wpw, rest)
    ensures !Closer(delta, rest, tenKappa, wpw) ==>
              forall r: nat | rest + tenKappa <= r <= delta :: Distance(wpw, rest) <= Distance(wpw, r)
  {
  }

  lemma NoneFurtherDown(delta: nat, rest0: nat, tenKappa: nat, wpw: nat, j: nat)
    requires Rest(rest0, tenKappa, j) <= delta < B && wpw < B && 0 < tenKappa
    requires !Closer(delta, Rest(rest0, tenKappa, j), tenKappa, wpw)
    ensures forall i: nat | i > j && Rest(rest0, tenKappa, i) <= delta ::
              Distance(wpw, Rest(rest0, tenKappa, j)) <= Distance(wpw, Rest(rest0, tenKappa, i))
  {
    CloserMeans(delta, Rest(rest0, tenKappa, j), tenKappa, wpw);
    hide Closer, Distance;
    forall i: nat | i > j && Rest(rest0, tenKappa, i) <= delta
      ensures Distance(wpw, Rest(rest0, tenKappa, j)) <= Distance(wpw, Rest(rest0, tenKappa, i))
    {
      MulMonotone(j + 1, i, tenKappa);
      assert (j + 1) * tenKappa == j * tenKappa + tenKappa;
    }
  }

  /** `GrisuRound`: the last digit goes down by some `j`, which keeps `rest + j * tenKappa` within `delta`; it cannot
      go below zero, and nothing wraps around.  No other number of steps within `delta` ends closer to `wpw`, and
      fewer end further away. */
  method GrisuRound(buffer: array<int>, len: nat, delta: nat, rest0: nat, tenKappa: nat,
      wpw: nat) returns (ghost j: nat)
    requires 0 < len && DigitsIn(buffer, len)
    requires delta < B && rest0 <= delta && 0 < tenKappa && wpw < B
    requires delta <= rest0 + (buffer[len - 1] - DIGIT_0) * tenKappa
    modifies buffer
    ensures DigitsIn(buffer, len) && j <= old(buffer[len - 1]) - DIGIT_0
    ensures buffer[..len] == old(buffer[..len])[len - 1 := old(buffer[len - 1]) - j] && Rest(rest0, tenKappa, j) <= delta
    ensures forall i: nat | Rest(rest0, tenKappa, i) <= delta ::
              Distance(wpw, Rest(rest0, tenKappa, j)) <= Distance(wpw, Rest(rest0, tenKappa, i))
    ensures forall i: nat | i < j :: Distance(wpw, Rest(rest0, tenKappa, j)) < Distance(wpw, Rest(rest0, tenKappa, i))
  {
    hide Closer, Distance;
    j := 0;
    var rest := rest0;
    ghost var d := buffer[len - 1] - DIGIT_0;
    while Closer(delta, rest, tenKappa, wpw)
      invariant rest == Rest(rest0, tenKappa, j) <= delta && j <= d
      invariant DigitsIn(buffer, len) && buffer[..len] == old(buffer[..len])[len - 1 := DIGIT_0 + d - j]
      invariant forall i: nat | i < j :: Distance(wpw, rest) < Distance(wpw, Rest(rest0, tenKappa, i))
      decreases delta - rest
    {
      CloserFits(delta, rest, tenKappa, wpw);
      CloserMeans(delta, rest, tenKappa, wpw);
      OneLess(rest0, j, d, tenKappa, delta);
      buffer[len - 1] := buffer[len - 1] - 1;
      rest := (rest + tenKappa) % B;
      j := j + 1;
    }
    NoneFurtherDown(delta, rest0, tenKappa, wpw, j);
  }

  /** While another step fits below `delta`, the digit is not zero yet. */
  lemma OneLess(rest0: nat, j: nat, d: int, tenKappa: nat, delta: nat)
    requires tenKappa > 0 && j <= d && delta <= rest0 + d * tenKappa && delta - (rest0 + j * tenKappa) >= tenKappa
    ensures j < d && Rest(rest0, tenKappa, j + 1) == Rest(rest0, tenKappa, j) + tenKappa
  {
    assert (j + 1) * tenKappa == j * tenKappa + tenKappa;
  }

  lemma {:induction false} LastDigitDown(s: seq<int>, j: nat)
    requires AllDigits(s) && s != [] && j <= s[|s| - 1] - DIGIT_0
    ensures var t := s[|s| - 1 := s[|s| - 1] - j];
            AllDigits(t) && DecimalValue(t) == DecimalValue(s) - j && j <= DecimalValue(s)
  {
    var t := s[|s| - 1 := s[|s| - 1] - j];
    assert t[..|t| - 1] == s[..|s| - 1];
    assert IsDigit(s[|s| - 1]);
  }

  lemma DigitAppended(s: seq<int>, d: nat)
    requires AllDigits(s) && d < 10
    ensures AllDigits(s + [DIGIT_0 + d]) && DecimalValue(s + [DIGIT_0 + d]) == DecimalValue(s) * 10 + d
  {
    assert (s + [DIGIT_0 + d])[..|s|] == s;
  }

  // ----- the interval

  /** The decimal `d * 10^kappa`, in units of the last place of a number with `shift` bits after the point, lies
      between `f - delta` and `f`. */
  predicate InInterval(f: nat, delta: nat, shift: nat, d: nat, kappa: int) {
    if kappa >= 0 then f - delta <= d * Pow(10, kappa) * Pow(2, shift) <= f
    else (f - delta) * Pow(10, -kappa) <= d * Pow(2, shift) <= f * Pow(10, -kappa)
  }

  /** The digit generation stops at such a decimal: behind the point it wants more than the lower end. */
  predicate Stops(f: nat, delta: nat, shift: nat, d: nat, kappa: int) {
    InInterval(f, delta, shift, d, kappa) && (kappa < 0 ==> (f - delta) * Pow(10, -kappa) < d * Pow(2, shift))
  }

  ghost predicate NoneStops(f: nat, delta: nat, shift: nat, kappa: int) {
    forall d: nat :: !Stops(f, delta, shift, d, kappa)
  }

  /** No decimal with fewer digits would do. */
  ghost predicate IsShortest(f: nat, delta: nat, shift: nat, kappa: int) {
    forall k: int | k > kappa :: NoneStops(f, delta, shift, k)
  }

  /** How far a decimal is from the value aimed at, which is `wpw` below `f`. */
  function OffTarget(f: nat, shift: nat, wpw: nat, d: nat, kappa: int): nat {
    if kappa >= 0 then Distance(d * Pow(10, kappa) * Pow(2, shift), f - wpw)
    else Distance(d * Pow(2, shift), (f - wpw) * Pow(10, -kappa))
  }

  /** No decimal of this many digits in the interval is closer to the value aimed at. */
  ghost predicate IsNearest(f: nat, delta: nat, shift: nat, wpw: nat, d: nat, kappa: int) {
    forall e: nat | InInterval(f, delta, shift, e, kappa) :: OffTarget(f, shift, wpw, d, kappa) <= OffTarget(f, shift, wpw, e, kappa)
  }

  ghost predicate IsGreatest(f: nat, delta: nat, shift: nat, d: nat, kappa: int) {
    forall e: nat | InInterval(f, delta, shift, e, kappa) :: e <= d
  }

  /** The greatest multiple of `t` up to `f` is below the interval, and so are the others. */
  lemma NoMultiple(f: nat, D: nat, t: nat, left: nat, delta: nat, e: nat)
    requires f == D * t + left && left < t && e * t <= f
    ensures e <= D && e * t <= f - left
  {
    assert (D + 1) * t == D * t + t;
    if e <= D {
      MulMonotone(e, D, t);
    } else {
      MulMonotone(D + 1, e, t);
    }
  }

  /** Of the multiples of `t` in the interval, none is closer to the value aimed at. */
  lemma NearestMultiple(f: nat, D: nat, t: nat, left: nat, delta: nat, wpw: nat, j: nat, e: nat)
    requires f == D * t + left && left < t && j <= D && f - delta <= e * t <= f
    requires forall i: nat | Rest(left, t, i) <= delta :: Distance(wpw, Rest(left, t, j)) <= Distance(wpw, Rest(left, t, i))
    ensures Distance((D - j) * t, f - wpw) <= Distance(e * t, f - wpw)
  {
    NoMultiple(f, D, t, left, delta, e);
    StepsDown(f, D, t, left, wpw, j);
    StepsDown(f, D, t, left, wpw, D - e);
    hide Rest, Distance;
    assert D - (D - e) == e;
  }

  lemma StepsDown(f: nat, D: nat, t: nat, left: nat, wpw: nat, i: nat)
    requires f == D * t + left && i <= D
    ensures Rest(left, t, i) == f - (D - i) * t && Distance(wpw, Rest(left, t, i)) == Distance((D - i) * t, f - wpw)
  {
    assert (D - i) * t == D * t - i * t;
  }

  /** Appends a digit, unless it is a leading zero. */
  method PutDigit(buffer: array<int>, len: nat, d: nat) returns (len': nat)
    requires d < 10 && len < buffer.Length && DigitsIn(buffer, len)
    modifies buffer
    ensures len <= len' <= len + 1 && DigitsIn(buffer, len')
    ensures DecimalValue(buffer[..len']) == DecimalValue(old(buffer[..len])) * 10 + d
    ensures if d > 0 || len > 0 then len' == len + 1 && buffer[len' - 1] == DIGIT_0 + d else len' == len
  {
    len' := len;
    if d != 0 || len != 0 {
      DigitAppended(buffer[..len], d);
      buffer[len] := DIGIT_0 + d;
      len' := len + 1;
      assert buffer[..len'] == old(buffer[..len]) + [DIGIT_0 + d];
    } else {
      assert buffer[..len] == [];
    }
  }

  /** Without leading zeros, a number has as many digits as its size says. */
  predicate Leads(D: nat, len: nat) {
    len > 0 ==> Pow(10, len - 1) <= D
  }

  lemma NothingLeads()
    ensures Leads(0, 0)
  {
  }

  /** One more digit, unless it is a leading zero. */
  lemma LeadsMore(D: nat, d: nat, len: nat)
    requires Leads(D, len) && d < 10
    ensures Leads(D * 10 + d, if d > 0 || len > 0 then len + 1 else len)
  {
    if len > 0 {
      PowNext10(len - 1);
    }
  }

  /** The digits before the point: the quotient and remainder by a power of ten. */
  method SplitDigit(p1: nat, kappa: nat) returns (d: nat, rest: nat)
    requires 1 <= kappa <= 9 && p1 < Pow(10, kappa)
    ensures d < 10 && rest < Pow(10, kappa - 1) && p1 == d * Pow(10, kappa - 1) + rest
  {
    hide Pow;
    SmallPowersOf10();
    match kappa
    case 9 => d, rest := p1 / 100000000, p1 % 100000000;
    case 8 => d, rest := p1 / 10000000, p1 % 10000000;
    case 7 => d, rest := p1 / 1000000, p1 % 1000000;
    case 6 => d, rest := p1 / 100000, p1 % 100000;
    case 5 => d, rest := p1 / 10000, p1 % 10000;
    case 4 => d, rest := p1 / 1000, p1 % 1000;
    case 3 => d, rest := p1 / 100, p1 % 100;
    case 2 => d, rest := p1 / 10, p1 % 10;
    case _ => d, rest := p1, 0;
  }

  lemma ShiftSize(shift: nat)
    requires shift <= 60
    ensures 0 < Pow(2, shift) <= 0x1000_0000_0000_0000
  {
    PowPositive(2, shift);
    PowMonotone(2, shift, 60);
    SixtyBits();
    hide Pow;
  }

  lemma SixtyBits()
    ensures Pow(2, 60) == 0x1000_0000_0000_0000
  {
    BaseIsPower();
    PowAdd(2, 60, 4);
    assert Pow(2, 4) == 16;
  }

  /** Division by a power of two, as a shift and a mask. */
  method Split(x: nat, one: nat, ghost n: nat) returns (q: nat, r: nat)
    requires one > 0 && x < n * one
    ensures x == q * one + r && r < one && q < n && (q == 0 ==> r == x)
  {
    QuotientBelow(x, one, n);
    q, r := x / one, x % one;
  }

  lemma QuotientBelow(f: nat, one: nat, n: nat)
    requires one > 0 && f < n * one
    ensures f / one < n && f == f / one * one + f % one && f % one < one
  {
    if f / one >= n {
      MulMonotone(n, f / one, one);
    }
  }

  lemma PowNext10(k: nat)
    ensures Pow(10, k + 1) == 10 * Pow(10, k) && Pow(10, k) > 0 && Pow(10, 0) == 1
  {
    PowPositive(10, k);
  }

  /** The state of the loop over the digits before the point: `D` has been written, `p1` remains of the integer
      part and `p2` of the fraction, and what remains is more than `delta`. */
  predicate IntegerState(f: nat, delta: nat, one: nat, D: nat, kappa: nat, p1: nat, p2: nat) {
    && p1 < Pow(10, kappa) && p2 < one && f == (D * Pow(10, kappa) + p1) * one + p2 && p1 * one + p2 > delta
  }

  /** After one more digit. */
  predicate IntegerDigit(f: nat, delta: nat, one: nat, D: nat, kappa: nat, p1: nat, p2: nat, d: nat) {
    var t := Pow(10, kappa) * one;
    && p1 < Pow(10, kappa) && p2 < one && f == D * t + (p1 * one + p2) && d * t + (p1 * one + p2) > delta
    && p1 * one + p2 <= f && (d > 0 ==> 0 < t <= f)
  }

  lemma DigitTimes(D: nat, d: nat, p: nat)
    ensures (D * 10 + d) * p == D * (10 * p) + d * p
  {
  }

  lemma Expand(a: nat, b: nat, c: nat)
    ensures (a + b) * c == a * c + b * c
  {
  }

  lemma Reassociate(a: nat, b: nat, c: nat)
    ensures a * b * c == a * (b * c)
  {
  }

  lemma NotNegative(a: nat, b: nat)
    ensures a * b >= 0 && (a > 0 && b > 0 ==> a * b > 0)
  {
  }

  lemma IntegerStep(f: nat, delta: nat, one: nat, D: nat, kappa: nat, p1: nat, p2: nat, d: nat, rest: nat)
    requires IntegerState(f, delta, one, D, kappa + 1, p1, p2)
    requires p1 == d * Pow(10, kappa) + rest && rest < Pow(10, kappa)
    ensures IntegerDigit(f, delta, one, D * 10 + d, kappa, rest, p2, d)
  {
    hide Pow;
    PowNext10(kappa);
    var p := Pow(10, kappa);
    DigitTimes(D, d, p);
    Expand((D * 10 + d) * p, rest, one);
    Expand(d * p, rest, one);
    Reassociate(D * 10 + d, p, one);
    Reassociate(d, p, one);
    NotNegative(D * 10 + d, p * one);
    if d > 0 {
      MulMonotone(d, D * 10 + d, p * one);
      OneTimes(d, p * one, f);
      NotNegative(p, one);
    }
  }

  /** Going on, where what remains is still more than `delta`. */
  lemma IntegerGoesOn(f: nat, delta: nat, one: nat, D: nat, kappa: nat, p1: nat, p2: nat, d: nat)
    requires IntegerDigit(f, delta, one, D, kappa, p1, p2, d) && Left(p1, p2, one) > delta
    ensures IntegerState(f, delta, one, D, kappa, p1, p2)
  {
    hide Pow;
    assert D * (Pow(10, kappa) * one) == D * Pow(10, kappa) * one;
    assert (D * Pow(10, kappa) + p1) * one == D * Pow(10, kappa) * one + p1 * one;
  }

  lemma OneTimes(d: nat, t: nat, f: nat)
    requires 0 < d && d * t <= f
    ensures t <= f
  {
    MulMonotone(1, d, t);
  }

  /** While more than `delta` remains, no decimal of this many digits is in the interval. */
  lemma IntegerNone(f: nat, delta: nat, shift: nat, D: nat, kappa: nat, p1: nat, p2: nat)
    requires IntegerState(f, delta, Pow(2, shift), D, kappa, p1, p2)
    ensures NoneStops(f, delta, shift, kappa)
  {
    hide Pow;
    var p, one := Pow(10, kappa), Pow(2, shift);
    var t, left := p * one, p1 * one + p2;
    LeftIsLess(p1, p, one, p2);
    Expand(D * p, p1, one);
    Reassociate(D, p, one);
    forall e: nat
      ensures !Stops(f, delta, shift, e, kappa)
    {
      Reassociate(e, p, one);
      if e * t <= f {
        NoMultiple(f, D, t, left, delta, e);
      }
    }
  }

  lemma LeftIsLess(p1: nat, p: nat, one: nat, p2: nat)
    requires p1 < p && p2 < one
    ensures p1 * one + p2 < p * one
  {
    MulMonotone(p1 + 1, p, one);
    assert (p1 + 1) * one == p1 * one + one;
  }

  /** A number with fewer digits than that is no multiple of a higher power of ten, and zero is below the interval. */
  lemma NoneAbove(f: nat, delta: nat, shift: nat, kappa: nat, p1: nat, p2: nat)
    requires p1 < Pow(10, kappa) && p2 < Pow(2, shift) && f == p1 * Pow(2, shift) + p2 && delta < f
    ensures IsShortest(f, delta, shift, kappa - 1)
  {
    hide Pow;
    var one := Pow(2, shift);
    forall k: int | k > kappa - 1
      ensures NoneStops(f, delta, shift, k)
    {
      PowMonotone(10, kappa, k);
      LeftIsLess(p1, Pow(10, k), one, p2);
      hide IsShortest;
      forall e: nat
        ensures !Stops(f, delta, shift, e, k)
      {
        Reassociate(e, Pow(10, k), one);
        if e > 0 {
          MulMonotone(1, e, Pow(10, k) * one);
        } else {
          assert 0 * (Pow(10, k) * one) == 0;
        }
      }
    }
  }

  lemma OneLessShort(f: nat, delta: nat, shift: nat, kappa: int)
    requires IsShortest(f, delta, shift, kappa) && NoneStops(f, delta, shift, kappa)
    ensures IsShortest(f, delta, shift, kappa - 1)
  {
    hide NoneStops;
    forall k: int | k > kappa - 1
      ensures NoneStops(f, delta, shift, k)
    {
      assert k == kappa || k > kappa;
    }
  }

  /** Rounding before the point gives the nearest decimal. */
  lemma IntegerNearest(f: nat, delta: nat, shift: nat, wpw: nat, D: nat, j: nat, kappa: nat, tmp: nat)
    requires var t := Pow(10, kappa) * Pow(2, shift);
             && f == D * t + tmp && tmp < t && j <= D
             && forall i: nat | Rest(tmp, t, i) <= delta :: Distance(wpw, Rest(tmp, t, j)) <= Distance(wpw, Rest(tmp, t, i))
    ensures IsNearest(f, delta, shift, wpw, D - j, kappa)
  {
    hide Pow, Distance, Rest;
    var p, one := Pow(10, kappa), Pow(2, shift);
    Reassociate(D - j, p, one);
    forall e: nat | InInterval(f, delta, shift, e, kappa)
      ensures OffTarget(f, shift, wpw, D - j, kappa) <= OffTarget(f, shift, wpw, e, kappa)
    {
      Reassociate(e, p, one);
      NearestMultiple(f, D, p * one, tmp, delta, wpw, j, e);
    }
  }

  /** After rounding before the point. */
  lemma IntegerRounded(f: nat, delta: nat, shift: nat, D: nat, j: nat, kappa: nat, tmp: nat)
    requires var t := Pow(10, kappa) * Pow(2, shift);
             f == D * t + tmp && Rest(tmp, t, j) <= delta && j <= D
    ensures InInterval(f, delta, shift, D - j, kappa)
  {
    hide Pow;
    var p, one := Pow(10, kappa), Pow(2, shift);
    assert (D - j) * p * one == (D - j) * (p * one);
    assert (D - j) * (p * one) == D * (p * one) - j * (p * one);
    PowPositive(2, shift);
    PowPositive(10, kappa);
    assert j * (p * one) >= 0;
  }

  lemma FractionNone(f: nat, delta0: nat, shift: nat, D: nat, m: nat, p2: nat, delta: nat)
    requires FractionState(f, delta0, Pow(2, shift), D, m, p2, delta) && delta <= p2 < Pow(2, shift) && 0 < m && delta0 <= f
    ensures NoneStops(f, delta0, shift, 0 - m)
  {
    hide Pow;
    var one, t, kappa := Pow(2, shift), Pow(10, m), 0 - m;
    assert (f - delta0) * t == f * t - delta0 * t;
    forall e: nat
      ensures !Stops(f, delta0, shift, e, kappa)
    {
      if e * one <= f * t {
        NoMultiple(f * t, D, one, p2, delta, e);
      }
    }
  }

  /** Rounding behind the point gives the nearest decimal. */
  lemma FractionNearest(f: nat, delta0: nat, shift: nat, wpw: nat, D: nat, j: nat, m: nat, p2: nat, delta: nat)
    requires FractionState(f, delta0, Pow(2, shift), D, m, p2, delta) && p2 < Pow(2, shift) && 0 < m && delta0 <= f && j <= D
    requires var w := wpw * Pow(10, m); forall i: nat | Rest(p2, Pow(2, shift), i) <= delta ::
               Distance(w, Rest(p2, Pow(2, shift), j)) <= Distance(w, Rest(p2, Pow(2, shift), i))
    ensures IsNearest(f, delta0, shift, wpw, D - j, 0 - m)
  {
    hide Pow, Distance, Rest;
    var one, t, kappa := Pow(2, shift), Pow(10, m), 0 - m;
    assert (f - delta0) * t == f * t - delta0 * t && (f - wpw) * t == f * t - wpw * t;
    forall e: nat | InInterval(f, delta0, shift, e, kappa)
      ensures OffTarget(f, shift, wpw, D - j, kappa) <= OffTarget(f, shift, wpw, e, kappa)
    {
      NearestMultiple(f * t, D, one, p2, delta, wpw * t, j, e);
    }
  }

  lemma FractionGreatest(f: nat, delta0: nat, shift: nat, D: nat, m: nat, p2: nat, delta: nat)
    requires FractionState(f, delta0, Pow(2, shift), D, m, p2, delta) && p2 < Pow(2, shift) && 0 < m
    ensures IsGreatest(f, delta0, shift, D, 0 - m)
  {
    hide Pow;
    var one, t, kappa := Pow(2, shift), Pow(10, m), 0 - m;
    forall e: nat | InInterval(f, delta0, shift, e, kappa)
      ensures e <= D
    {
      NoMultiple(f * t, D, one, p2, delta, e);
    }
  }

  /** Up to eight digits behind the point, the distance to the value aimed at is scaled as it should. */
  lemma ScaledExactly(wpw: nat, delta0: nat, m: nat)
    requires wpw <= delta0 && m < 9 && delta0 * Pow(10, m) < B
    ensures ScaledDistance(wpw, m) == wpw * Pow(10, m)
  {
    hide Pow, Pow10Of;
    Pow10IsPow(m);
    MulMonotone(wpw, delta0, Pow(10, m));
  }

  /** When the distance is given up, the digit stays. */
  lemma NotRoundedAt(rest0: nat, tenKappa: nat, j: nat)
    requires forall i: nat | i < j :: Distance(0, Rest(rest0, tenKappa, j)) < Distance(0, Rest(rest0, tenKappa, i))
    ensures j == 0
  {
    assert Rest(rest0, tenKappa, 0) <= Rest(rest0, tenKappa, j) by {
      NotNegative(j, tenKappa);
    }
  }

  /** After rounding behind the point. */
  lemma FractionRounded(f: nat, delta0: nat, shift: nat, D: nat, j: nat, m: nat, rest: nat)
    requires 0 < m && delta0 <= f && j <= D
    requires f * Pow(10, m) == D * Pow(2, shift) + rest && Rest(rest, Pow(2, shift), j) <= delta0 * Pow(10, m)
    ensures InInterval(f, delta0, shift, D - j, 0 - m)
  {
    hide Pow;
    var one, t := Pow(2, shift), Pow(10, m);
    assert (D - j) * one == D * one - j * one;
    assert (f - delta0) * t == f * t - delta0 * t;
    assert j * one >= 0;
  }

  /** `DigitGen`, for a scaled number `f` with `shift` bits after the point, an interval of `delta` below it, and
      the distance `wpw` to the value aimed at.  No decimal with fewer digits would do.  Of those with as many digits
      it is the nearest to the value aimed at, up to eight digits behind the point; with more it is not rounded. */
  method DigitGen(f: nat, delta: nat, shift: nat, wpw: nat, buffer: array<int>, K: int) returns (len: nat, K': int)
    requires f < B && 0 < delta < f && 32 <= shift <= 60 && f < 1000000000 * Pow(2, shift) && wpw < B
    requires buffer.Length >= 21
    modifies buffer
    ensures 0 < len <= 21 && DigitsIn(buffer, len)
    ensures InInterval(f, delta, shift, DecimalValue(buffer[..len]), K' - K) && IsShortest(f, delta, shift, K' - K)
    ensures wpw <= delta && K' - K > -9 ==> IsNearest(f, delta, shift, wpw, DecimalValue(buffer[..len]), K' - K)
    ensures K' - K <= -9 ==> IsGreatest(f, delta, shift, DecimalValue(buffer[..len]), K' - K)
  {
    hide Pow, DecimalValue, InInterval, IntegerState, IntegerDigit, Left, Leads, IsShortest, NoneStops, IsNearest, IsGreatest;
    ShiftSize(shift);
    var one := Pow(2, shift);
    var p1, p2 := Split(f, one, 1000000000);
    var kappa: int := CountDecimalDigit32(p1);
    ghost var D: nat := 0;
    NoDecimals();
    NothingLeads();
    assert buffer[..0] == [];
    IntegerBegins(f, delta, one, kappa, p1, p2);
    NoneAbove(f, delta, shift, kappa, p1, p2);
    len := 0;
    while kappa > 0
      invariant 0 <= kappa && len + kappa <= 9 && DigitsIn(buffer, len) && D == DecimalValue(buffer[..len])
      invariant IntegerState(f, delta, one, D, kappa, p1, p2) && Leads(D, len) && IsShortest(f, delta, shift, kappa - 1)
    {
      var d, tmp;
      d, p1, tmp := NextInteger(f, delta, one, D, kappa - 1, p1, p2);
      LeadsMore(D, d, len);
      len := PutDigit(buffer, len, d);
      D := D * 10 + d;
      kappa := kappa - 1;
      if tmp <= delta {
        RoundInteger(f, delta, shift, wpw, buffer, len, kappa, p1, p2, tmp, D, d);
        K' := K + kappa;
        return;
      }
      IntegerGoesOn(f, delta, one, D, kappa, p1, p2, d);
      IntegerNone(f, delta, shift, D, kappa, p1, p2);
      OneLessShort(f, delta, shift, kappa);
    }
    IntegerEnds(f, delta, one, D, p1, p2);
    len, K' := FractionDigits(f, delta, shift, p2, wpw, buffer, len, K);
  }

  /** What is left of the number, in units of the last place. */
  function Left(p1: nat, p2: nat, one: nat): nat {
    p1 * one + p2
  }

  /** The arithmetic of one turn of the first loop. */
  method NextInteger(f: nat, ghost delta: nat, one: nat, ghost D: nat, kappa: nat, p1: nat, p2: nat)
    returns (d: nat, rest: nat, tmp: nat)
    requires f < B && kappa <= 8 && IntegerState(f, delta, one, D, kappa + 1, p1, p2)
    ensures d < 10 && IntegerDigit(f, delta, one, D * 10 + d, kappa, rest, p2, d)
    ensures tmp == Left(rest, p2, one) && (tmp <= delta ==> d > 0)
  {
    hide Pow, IntegerState, IntegerDigit;
    IntegerPart(f, delta, one, D, kappa + 1, p1, p2);
    d, rest := SplitDigit(p1, kappa + 1);
    IntegerStep(f, delta, one, D, kappa, p1, p2, d, rest);
    NoDigitYet(d, rest, p1, one, p2, Pow(10, kappa));
    TmpFits(f, delta, one, D * 10 + d, kappa, rest, p2, d);
    tmp := (rest * one + p2) % B;
  }

  lemma IntegerBegins(f: nat, delta: nat, one: nat, kappa: nat, p1: nat, p2: nat)
    requires p1 < Pow(10, kappa) && p2 < one && f == p1 * one + p2 && delta < f
    ensures IntegerState(f, delta, one, 0, kappa, p1, p2)
  {
    assert 0 * Pow(10, kappa) == 0;
  }

  lemma IntegerPart(f: nat, delta: nat, one: nat, D: nat, kappa: nat, p1: nat, p2: nat)
    requires IntegerState(f, delta, one, D, kappa, p1, p2)
    ensures p1 < Pow(10, kappa) && p1 * one + p2 > delta
  {
  }

  lemma NoDigitYet(d: nat, rest: nat, p1: nat, one: nat, p2: nat, p: nat)
    requires p1 == d * p + rest
    ensures d == 0 ==> rest * one + p2 == p1 * one + p2
  {
  }

  lemma TmpFits(f: nat, delta: nat, one: nat, D: nat, kappa: nat, p1: nat, p2: nat, d: nat)
    requires IntegerDigit(f, delta, one, D, kappa, p1, p2, d) && f < B
    ensures (p1 * one + p2) % B == p1 * one + p2
  {
    hide Pow;
    SmallPart(f - (p1 * one + p2), p1 * one + p2, f);
  }

  lemma IntegerEnds(f: nat, delta: nat, one: nat, D: nat, p1: nat, p2: nat)
    requires IntegerState(f, delta, one, D, 0, p1, p2)
    ensures delta < p2 < one && f == D * one + p2
  {
  }

  /** The end of `DigitGen` when what remains is within `delta` before the point is reached. */
  method RoundInteger(f: nat, delta: nat, shift: nat, wpw: nat, buffer: array<int>, len: nat, kappa: nat,
      ghost p1: nat, ghost p2: nat,
      tmp: nat, ghost D: nat, ghost d: nat)
    requires f < B && delta < B && wpw < B && kappa <= 8
    requires 0 < len && DigitsIn(buffer, len) && D == DecimalValue(buffer[..len])
    requires IntegerDigit(f, delta, Pow(2, shift), D, kappa, p1, p2, d) && tmp == Left(p1, p2, Pow(2, shift)) <= delta
    requires buffer[len - 1] == DIGIT_0 + d && d > 0
    modifies buffer
    ensures DigitsIn(buffer, len) && InInterval(f, delta, shift, DecimalValue(buffer[..len]), kappa)
    ensures IsNearest(f, delta, shift, wpw, DecimalValue(buffer[..len]), kappa)
  {
    hide Pow, DecimalValue, InInterval, Rest, Distance, IsNearest;
    Pow10IsPow(kappa);
    ghost var digits := buffer[..len];
    SmallPart(f - Pow(10, kappa) * Pow(2, shift), Pow(10, kappa) * Pow(2, shift), f);
    ghost var j := GrisuRound(buffer, len, delta, tmp, Pow10Of(kappa) * Pow(2, shift) % B, wpw);
    LastDigitDown(digits, j);
    IntegerRounded(f, delta, shift, D, j, kappa, tmp);
    LeftIsLess(p1, Pow(10, kappa), Pow(2, shift), p2);
    IntegerNearest(f, delta, shift, wpw, D, j, kappa, tmp);
  }

  lemma SmallPart(a: nat, b: nat, f: nat)
    requires f == a + b && f < B
    ensures b % B == b <= f
  {
  }

  /** The second loop of `DigitGen`: the digits behind the point. */
  method FractionDigits(f: nat, delta0: nat, shift: nat, p2_0: nat, wpw: nat, buffer: array<int>, len0: nat, K: int)
    returns (len: nat, K': int)
    requires 0 < delta0 < p2_0 < Pow(2, shift) <= 0x1000_0000_0000_0000 && delta0 <= f && wpw < B
    requires f < B && len0 <= 9 && buffer.Length >= 21 && DigitsIn(buffer, len0)
    requires f == DecimalValue(buffer[..len0]) * Pow(2, shift) + p2_0 && Leads(DecimalValue(buffer[..len0]), len0)
    requires IsShortest(f, delta0, shift, -1)
    modifies buffer
    ensures 0 < len <= 21 && DigitsIn(buffer, len)
    ensures InInterval(f, delta0, shift, DecimalValue(buffer[..len]), K' - K) && IsShortest(f, delta0, shift, K' - K)
    ensures wpw <= delta0 && K' - K > -9 ==> IsNearest(f, delta0, shift, wpw, DecimalValue(buffer[..len]), K' - K)
    ensures K' - K <= -9 ==> IsGreatest(f, delta0, shift, DecimalValue(buffer[..len]), K' - K)
  {
    hide Pow, DecimalValue, InInterval, FractionState, FractionDigit, ScaledDistance, Leads, IsShortest, NoneStops, IsNearest,
         IsGreatest;
    var one: nat, p2: nat, delta: nat := Pow(2, shift), p2_0, delta0;
    var kappa: int := 0;
    ghost var m: nat, D: nat := 0, DecimalValue(buffer[..len0]);
    len := len0;
    FractionBegins(f, delta0, one, D, p2);
    while true
      invariant kappa + m == 0 && Leads(D, len) && DigitsIn(buffer, len) && D == DecimalValue(buffer[..len])
      invariant FractionState(f, delta0, one, D, m, p2, delta) && 0 < delta <= p2 < one && IsShortest(f, delta0, shift, kappa - 1)
      decreases one - delta
    {
      NotTooMany(f, delta0, one, D, m, p2, delta, len);
      var d;
      d, p2, delta := NextFraction(f, delta0, one, D, m, p2, delta);
      LeadsMore(D, d, len);
      len := PutDigit(buffer, len, d);
      D := D * 10 + d;
      kappa := kappa - 1;
      m := m + 1;
      if p2 < delta {
        var index := -kappa;
        RoundFraction(f, delta0, shift, buffer, len, p2, delta, ScaledDistance(wpw, index), D, d, m, wpw);
        K' := K + kappa;
        return;
      }
      FractionGoesOn(f, delta0, one, D, m, p2, delta, d);
      FractionNone(f, delta0, shift, D, m, p2, delta);
      OneLessShort(f, delta0, shift, kappa);
    }
  }

  /** The distance to the value aimed at, scaled like the interval, in wrapping arithmetic; too far behind the point
      it is given up, and nothing is rounded. */
  function ScaledDistance(wpw: nat, index: nat): (r: nat)
    ensures r < B
  {
    wpw * (if index < 9 then Pow10Of(index) else 0) % B
  }

  /** The arithmetic of one turn of the second loop: nothing wraps. */
  method NextFraction(ghost f: nat, ghost delta0: nat, one: nat, ghost D: nat, ghost m: nat, p2: nat, delta: nat)
    returns (d: nat, p2': nat, delta': nat)
    requires FractionState(f, delta0, one, D, m, p2, delta) && 0 < delta <= p2 < one <= 0x1000_0000_0000_0000
    ensures d < 10 && p2' < one && delta' == delta * 10 < B
    ensures FractionDigit(f, delta0, one, D * 10 + d, m + 1, p2', delta', d) && (p2' < delta' ==> d > 0)
  {
    hide Pow, FractionState, FractionDigit;
    TenTimes(p2, one);
    TenTimes(delta, one);
    p2', delta' := p2 * 10 % B, delta * 10 % B;
    d, p2' := Split(p2', one, 10);
    FractionStep(f, delta0, one, D, m, p2, delta, d, p2');
  }

  /** The state of the loop over the digits behind the point: `m` of them have been written. */
  predicate FractionState(f: nat, delta0: nat, one: nat, D: nat, m: nat, p2: nat, delta: nat) {
    f * Pow(10, m) == D * one + p2 && delta == delta0 * Pow(10, m)
  }

  /** After one more digit `d`. */
  predicate FractionDigit(f: nat, delta0: nat, one: nat, D: nat, m: nat, p2: nat, delta: nat, d: nat) {
    FractionState(f, delta0, one, D, m, p2, delta) && delta <= p2 + d * one
  }

  lemma FractionBegins(f: nat, delta0: nat, one: nat, D: nat, p2: nat)
    requires f == D * one + p2
    ensures FractionState(f, delta0, one, D, 0, p2, delta0)
  {
    assert Pow(10, 0) == 1 && f * 1 == f && delta0 * 1 == delta0;
  }

  lemma FractionGoesOn(f: nat, delta0: nat, one: nat, D: nat, m: nat, p2: nat, delta: nat, d: nat)
    requires FractionDigit(f, delta0, one, D, m, p2, delta, d)
    ensures FractionState(f, delta0, one, D, m, p2, delta)
  {
  }

  /** The end of `DigitGen` behind the point. */
  method RoundFraction(f: nat, delta0: nat, shift: nat, buffer: array<int>, len: nat, p2: nat, delta: nat, wpw: nat,
      ghost D: nat, ghost d: nat, ghost m: nat, ghost wpw0: nat)
    requires 0 < len && DigitsIn(buffer, len) && D == DecimalValue(buffer[..len]) && 0 < m && delta0 <= f
    requires FractionDigit(f, delta0, Pow(2, shift), D, m, p2, delta, d) && p2 < delta < B && p2 < Pow(2, shift)
    requires wpw == ScaledDistance(wpw0, m)
    requires buffer[len - 1] == DIGIT_0 + d
    modifies buffer
    ensures DigitsIn(buffer, len) && InInterval(f, delta0, shift, DecimalValue(buffer[..len]), 0 - m)
    ensures wpw0 <= delta0 && m < 9 ==> IsNearest(f, delta0, shift, wpw0, DecimalValue(buffer[..len]), 0 - m)
    ensures m >= 9 ==> IsGreatest(f, delta0, shift, DecimalValue(buffer[..len]), 0 - m)
  {
    hide Pow, DecimalValue, InInterval, IsNearest, IsGreatest, Rest, Distance;
    ghost var digits := buffer[..len];
    ghost var j := GrisuRound(buffer, len, delta, p2, Pow(2, shift), wpw);
    LastDigitDown(digits, j);
    FractionRounded(f, delta0, shift, D, j, m, p2);
    if m >= 9 {
      assert wpw == 0;
      NotRoundedAt(p2, Pow(2, shift), j);
      FractionGreatest(f, delta0, shift, D, m, p2, delta);
    } else if wpw0 <= delta0 {
      ScaledExactly(wpw0, delta0, m);
      hide ScaledDistance;
      FractionNearest(f, delta0, shift, wpw0, D, j, m, p2, delta);
    }
  }

  lemma FractionStep(f: nat, delta0: nat, one: nat, D: nat, m: nat, p2: nat, delta: nat, d: nat, r: nat)
    requires FractionState(f, delta0, one, D, m, p2, delta) && delta <= p2 && p2 * 10 == d * one + r
    ensures FractionDigit(f, delta0, one, D * 10 + d, m + 1, r, delta * 10, d)
  {
    PowNext10(m);
    hide Pow;
    var t := Pow(10, m);
    assert f * (10 * t) == 10 * (f * t) && delta0 * (10 * t) == 10 * (delta0 * t);
    assert (D * 10 + d) * one == 10 * (D * one) + d * one;
  }

  lemma TenTimes(x: nat, one: nat)
    requires x < one <= 0x1000_0000_0000_0000
    ensures x * 10 % B == x * 10 < 10 * one
  {
  }

  /** No more than twenty digits have been put before the last: they are those of a number below `f`. */
  lemma NotTooMany(f: nat, delta0: nat, one: nat, D: nat, m: nat, p2: nat, delta: nat, len: nat)
    requires FractionState(f, delta0, one, D, m, p2, delta) && 0 < delta <= p2 < one && f < B && Leads(D, len)
    ensures len <= 20
  {
    hide Pow;
    var t := Pow(10, m);
    PowPositive(10, m);
    DeltaIsLarge(delta0, t, delta);
    MulMonotone(t, one, f);
    Cancel(D, f, one);
    TenTo20();
    if len > 20 {
      PowMonotone(10, 20, len - 1);
    }
  }

  lemma Cancel(a: nat, b: nat, c: nat)
    requires a * c <= b * c && c > 0
    ensures a <= b
  {
    if a > b {
      MulMonotone(b + 1, a, c);
    }
  }

  lemma DeltaIsLarge(delta0: nat, t: nat, delta: nat)
    requires delta == delta0 * t && delta > 0
    ensures t <= delta
  {
    assert delta0 > 0 by {
      assert 0 * t == 0;
    }
    MulMonotone(1, delta0, t);
  }

  lemma TenTo20()
    ensures Pow(10, 20) == 100000000000000000000
  {
    SmallPowersOf10();
    PowAdd(10, 9, 9);
    PowAdd(10, 18, 2);
  }

  // ----- where it is not rounded

  const UNROUNDED_F: nat := 142335987504270787
  const UNROUNDED_DELTA: nat := 3458764514
  const UNROUNDED_WPW: nat := 2882303761

  /** One digit after another of the fraction that is not rounded. */
  lemma UnroundedDigits(m: nat)
    requires 1 <= m <= 8
    ensures NoneStops(UNROUNDED_F, UNROUNDED_DELTA, 60, 0 - m)
  {
    SixtyBits();
    SmallPowersOf10();
    hide Pow, NoneStops;
    match m
    case 1 => FractionNone(UNROUNDED_F, UNROUNDED_DELTA, 60, 1, m, 270438370435860894, 34587645140);
    case 2 => FractionNone(UNROUNDED_F, UNROUNDED_DELTA, 60, 12, m, 398540695144914988, 345876451400);
    case 3 => FractionNone(UNROUNDED_F, UNROUNDED_DELTA, 60, 123, m, 526642437628608952, 3458764514000);
    case 4 => FractionNone(UNROUNDED_F, UNROUNDED_DELTA, 60, 1234, m, 654738357858701616, 34587645140000);
    case 5 => FractionNone(UNROUNDED_F, UNROUNDED_DELTA, 60, 12345, m, 782776055552781280, 345876451400000);
    case 6 => FractionNone(UNROUNDED_F, UNROUNDED_DELTA, 60, 123456, m, 910231527886730944, 3458764514000000);
    case 7 => FractionNone(UNROUNDED_F, UNROUNDED_DELTA, 60, 1234567, m, 1031864746619380608, 34587645140000000);
    case 8 => FractionNone(UNROUNDED_F, UNROUNDED_DELTA, 60, 12345678, m, 1095275429339030272, 345876451400000000);
  }

  /** With nine digits behind the point the decimal is not rounded, and another of nine digits can be nearer to the
      value aimed at: here `f` stands for about 0.1234567895, and the value aimed at is about 0.123456787. */
  lemma NinthDigitIsNotRounded()
    ensures UNROUNDED_WPW <= UNROUNDED_DELTA < UNROUNDED_F < 1000000000 * Pow(2, 60)
    ensures IsShortest(UNROUNDED_F, UNROUNDED_DELTA, 60, -9)
    ensures InInterval(UNROUNDED_F, UNROUNDED_DELTA, 60, 123456789, -9) && IsGreatest(UNROUNDED_F, UNROUNDED_DELTA, 60, 123456789, -9)
    ensures !IsNearest(UNROUNDED_F, UNROUNDED_DELTA, 60, UNROUNDED_WPW, 123456789, -9)
  {
    SixtyBits();
    SmallPowersOf10();
    NoneAbove(UNROUNDED_F, UNROUNDED_DELTA, 60, 0, 0, UNROUNDED_F);
    hide Pow;
    FractionGreatest(UNROUNDED_F, UNROUNDED_DELTA, 60, 123456789, 9, 576460751928679936, UNROUNDED_DELTA * 1000000000);
    assert InInterval(UNROUNDED_F, UNROUNDED_DELTA, 60, 123456787, -9);
    assert OffTarget(UNROUNDED_F, 60, UNROUNDED_WPW, 123456787, -9) < OffTarget(UNROUNDED_F, 60, UNROUNDED_WPW, 123456789, -9);
    hide NoneStops, InInterval;
    forall k: int | k > -9
      ensures NoneStops(UNROUNDED_F, UNROUNDED_DELTA, 60, k)
    {
      if k < 0 {
        UnroundedDigits(-k);
      }
    }
  }
}
