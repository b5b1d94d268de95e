/** The last step of reading a floating-point number: comparing a decimal with the middle between two doubles, in
    exact arithmetic, and rounding to the nearest. */
module Strtod {
  import opened Ascii
  import opened Limbs
  import opened BigInteger

  // ----- real powers

  function PowR(b: real, e: int): (r: real)
    requires b > 0.0
    ensures r > 0.0
    decreases if e < 0 then -e else e
  {
    if e == 0 then 1.0
    else if e > 0 then MulPositive(b, PowR(b, e - 1)); b * PowR(b, e - 1)
    else DivPositive(PowR(b, e + 1), b); PowR(b, e + 1) / b
  }

  lemma MulPositive(x: real, y: real)
    requires x > 0.0 && y > 0.0
    ensures x * y > 0.0
  {
  }

  lemma DivPositive(x: real, y: real)
    requires x > 0.0 && y > 0.0
    ensures x / y > 0.0 && (x / y) * y == x
  {
  }

  /** One more in the exponent, whatever its sign. */
  lemma PowRNext(b: real, e: int)
    requires b > 0.0
    ensures PowR(b, e + 1) == b * PowR(b, e)
  {
    if e < 0 {
      DivPositive(PowR(b, e + 1), b);
    }
  }

  lemma {:induction false} PowRAdd(b: real, m: int, n: int)
    requires b > 0.0
    ensures PowR(b, m + n) == PowR(b, m) * PowR(b, n)
    decreases if m < 0 then -m else m
  {
    hide PowR;
    if m == 0 {
      PowRZero(b);
    } else if m > 0 {
      PowRAdd(b, m - 1, n);
      PowRNext(b, m - 1 + n);
      PowRNext(b, m - 1);
      assert m - 1 + n + 1 == m + n && m - 1 + 1 == m;
      AssocR(b, PowR(b, m - 1), PowR(b, n));
    } else {
      PowRAdd(b, m + 1, n);
      PowRNext(b, m + n);
      PowRNext(b, m);
      assert m + n + 1 == m + 1 + n;
      AssocR(b, PowR(b, m), PowR(b, n));
      CancelR(b, PowR(b, m + n), PowR(b, m) * PowR(b, n));
    }
  }

  lemma PowRZero(b: real)
    requires b > 0.0
    ensures PowR(b, 0) == 1.0
  {
  }

  lemma AssocR(a: real, b: real, c: real)
    ensures (a * b) * c == a * (b * c)
  {
  }

  lemma CancelR(b: real, x: real, y: real)
    requires b > 0.0 && b * x == b * y
    ensures x == y
  {
    assert b * (x - y) == 0.0;
  }

  lemma {:induction false} PowRIsPow(b: nat, e: nat)
    requires b > 0
    ensures PowR(b as real, e) == Pow(b, e) as real
    decreases e
  {
    if e > 0 {
      PowRIsPow(b, e - 1);
      assert (b * Pow(b, e - 1)) as real == (b as real) * (Pow(b, e - 1) as real);
    }
  }

  // ----- doubles

  /** A double that is not negative, by its 64 bits. */
  type Bits = nat

  const SIGNIFICAND_SIZE := 52
  const HIDDEN_BIT: nat := 0x0010_0000_0000_0000
  const INFINITY_BITS: nat := 0x7FF0_0000_0000_0000

  function Significand(u: Bits): nat {
    u % HIDDEN_BIT
  }

  function ExponentBits(u: Bits): nat {
    u / HIDDEN_BIT
  }

  predicate IsNormal(u: Bits) {
    ExponentBits(u) != 0 || Significand(u) == 0
  }

  function IntegerSignificand(u: Bits): nat {
    if IsNormal(u) then Significand(u) + HIDDEN_BIT else Significand(u)
  }

  function IntegerExponent(u: Bits): int {
    (if IsNormal(u) then ExponentBits(u) - 0x3FF else 1 - 0x3FF) - SIGNIFICAND_SIZE
  }

  /** The number a double stands for, by IEEE 754; the bits of infinity stand for the first power of two that is out
      of range. */
  function DoubleValue(u: Bits): real {
    if ExponentBits(u) == 0 then Significand(u) as real * PowR(2.0, -1074)
    else (Significand(u) + HIDDEN_BIT) as real * PowR(2.0, ExponentBits(u) - 1075)
  }

  /** What `IntegerSignificand` and `IntegerExponent` say of a double, except of zero. */
  lemma IntegerParts(u: Bits)
    requires u > 0
    ensures DoubleValue(u) == IntegerSignificand(u) as real * PowR(2.0, IntegerExponent(u)) && IntegerSignificand(u) > 0
  {
    assert u == ExponentBits(u) * HIDDEN_BIT + Significand(u);
  }

  /** The number that significand and exponent make up: that of the double, but for zero, which `IsNormal` counts among
      the normal numbers. */
  function PartsValue(u: Bits): real {
    if u == 0 then PowR(2.0, -1023) else DoubleValue(u)
  }

  lemma PartsMeanValue(u: Bits)
    ensures PartsValue(u) == IntegerSignificand(u) as real * PowR(2.0, IntegerExponent(u))
  {
    if u == 0 {
      hide PowR;
      PowRAdd(2.0, 52, -1075);
      PowRIsPow(2, 52);
      TwoTo52();
    } else {
      IntegerParts(u);
    }
  }

  lemma TwoTo52()
    ensures Pow(2, 52) == HIDDEN_BIT
  {
    PowAdd(2, 26, 26);
    assert Pow(2, 26) == 0x400_0000 by {
      PowAdd(2, 13, 13);
      assert Pow(2, 13) == 0x2000;
    }
  }

  /** `NextPositiveDouble` is one unit in the last place further. */
  lemma NextIsOneUlp(u: Bits)
    requires u > 0
    ensures DoubleValue(u + 1) == DoubleValue(u) + PowR(2.0, IntegerExponent(u))
  {
    hide PowR;
    var e: int, s := ExponentBits(u), Significand(u);
    NextBits(u);
    if s == HIDDEN_BIT - 1 {
      if e > 0 {
        PowRNext(2.0, e - 1075);
        DoubleUlps(PowR(2.0, e - 1075));
      } else {
        OneMoreUlp(s, PowR(2.0, -1074));
      }
    } else if e == 0 {
      OneMoreUlp(s, PowR(2.0, -1074));
    } else {
      OneMoreUlp(s + HIDDEN_BIT, PowR(2.0, e - 1075));
    }
  }

  lemma NextBits(u: Bits)
    ensures var e, s := ExponentBits(u), Significand(u);
            if s == HIDDEN_BIT - 1 then ExponentBits(u + 1) == e + 1 && Significand(u + 1) == 0
            else ExponentBits(u + 1) == e && Significand(u + 1) == s + 1
  {
  }

  lemma OneMoreUlp(s: nat, p: real)
    ensures (s + 1) as real * p == s as real * p + p
  {
    assert (s + 1) as real == s as real + 1.0;
  }

  lemma DoubleUlps(p: real)
    ensures HIDDEN_BIT as real * (2.0 * p) == (HIDDEN_BIT - 1 + HIDDEN_BIT) as real * p + p
  {
  }

  lemma {:induction false} DoublesIncrease(u: Bits, v: Bits)
    requires 0 < u <= v
    ensures DoubleValue(u) <= DoubleValue(v)
    decreases v
  {
    if u < v {
      DoublesIncrease(u, v - 1);
      NextIsOneUlp(v - 1);
    }
  }

  lemma ZeroIsLeast(v: Bits)
    requires v > 0
    ensures DoubleValue(0) == 0.0 < DoubleValue(v)
  {
    IntegerParts(v);
    MulPositive(IntegerSignificand(v) as real, PowR(2.0, IntegerExponent(v)));
    assert Significand(0) == 0 && ExponentBits(0) == 0;
  }

  // ----- scaling to integers

  function Plus(x: int): nat {
    if x > 0 then x else 0
  }

  function Min3(a: int, b: int, c: int): int {
    var m := if a > b then b else a;
    if m > c then c else m
  }

  /** `n * 5^e5 * 2^e2` */
  function Scaled(n: nat, e5: nat, e2: nat): nat {
    n * Pow(5, e5) * Pow(2, e2)
  }

  /** The exponents of two and five with which the decimal, the double and half its last place become integers. */
  datatype Scale = Scale(d2: nat, d5: nat, b2: nat, b5: nat, h2: nat, h5: nat)

  function ScaleOf(dExp: int, bExp: int): Scale {
    var d2, b2, h2 := Plus(dExp) + Plus(-bExp) + Plus(1 - bExp), Plus(-dExp) + Plus(bExp) + Plus(1 - bExp), Plus(-dExp) + Plus(-bExp) + Plus(bExp - 1);
    var common := Min3(d2, b2, h2);
    Scale(d2 - common, Plus(dExp), b2 - common, Plus(-dExp), h2 - common, Plus(-dExp))
  }

  lemma TenIsTwoTimesFive(z: int)
    ensures PowR(10.0, z) == PowR(2.0, z) * PowR(5.0, z)
    decreases if z < 0 then -z else z
  {
    hide PowR;
    if z == 0 {
      PowRZero(10.0);
      PowRZero(2.0);
      PowRZero(5.0);
    } else {
      var w := if z > 0 then z - 1 else z;
      TenIsTwoTimesFive(if z > 0 then z - 1 else z + 1);
      PowRNext(10.0, w);
      PowRNext(2.0, w);
      PowRNext(5.0, w);
      assert (2.0 * PowR(2.0, w)) * (5.0 * PowR(5.0, w)) == 10.0 * (PowR(2.0, w) * PowR(5.0, w));
    }
  }

  /** An integer scaled up is the number it was made from, times a factor that does not depend on the number. */
  lemma ScaledReal(n: nat, e5: nat, e2: nat, z: int, y: int, x5: int, x2: int)
    requires e5 == z + x5 && e2 == z + y + x2
    ensures Scaled(n, e5, e2) as real == (n as real * PowR(10.0, z) * PowR(2.0, y)) * (PowR(2.0, x2) * PowR(5.0, x5))
  {
    hide PowR, Pow;
    PowRIsPow(5, e5);
    PowRIsPow(2, e2);
    PowRAdd(5.0, z, x5);
    PowRAdd(2.0, z + y, x2);
    PowRAdd(2.0, z, y);
    TenIsTwoTimesFive(z);
    ScaledProduct(n, Pow(5, e5), Pow(2, e2));
    Rearranged(n as real, PowR(5.0, z), PowR(5.0, x5), PowR(2.0, z), PowR(2.0, y), PowR(2.0, x2));
  }

  lemma ScaledProduct(n: nat, p: nat, q: nat)
    ensures (n * p * q) as real == (n as real * p as real) * q as real
  {
    assert (n * p) as real == n as real * p as real;
  }

  lemma Rearranged(n: real, f: real, f': real, t: real, t': real, t'': real)
    ensures (n * (f * f')) * ((t * t') * t'') == (n * (t * f) * t') * (t'' * f')
  {
    var a, b := n * f, t * t';
    assert n * (f * f') == a * f';
    assert (a * f') * (b * t'') == (a * b) * (f' * t'');
    assert n * (t * f) * t' == a * b;
  }

  function SignI(x: int): int {
    if x < 0 then -1 else if x > 0 then 1 else 0
  }

  function SignR(x: real): int {
    if x < 0.0 then -1 else if x > 0.0 then 1 else 0
  }

  function Distance(x: nat, y: nat): nat {
    if x < y then y - x else x - y
  }

  function DistanceR(x: real, y: real): real {
    if x < y then y - x else x - y
  }

  /** Scaling keeps the order. */
  lemma OrderScaled(x: real, y: real, x': real, y': real, m: real)
    requires m > 0.0 && x == x' * m && y == y' * m
    ensures SignR(x - y) == SignR(x' - y')
  {
    if x' > y' {
      MulPositive(x' - y', m);
    } else if x' < y' {
      MulPositive(y' - x', m);
    }
  }

  /** The comparison may be made on the integers. */
  lemma SignScaled(x: nat, y: nat, h: nat, x': real, y': real, h': real, m: real)
    requires m > 0.0 && x as real == x' * m && y as real == y' * m && h as real == h' * m
    ensures SignI(Distance(x, y) - h) == SignR(DistanceR(x', y') - h')
  {
    OrderScaled(x as real, y as real, x', y', m);
    Distribute(x', y', m);
    Distribute(y', x', m);
    OrderScaled(Distance(x, y) as real, h as real, DistanceR(x', y'), h', m);
  }

  lemma Distribute(a: real, b: real, m: real)
    ensures (a - b) * m == a * m - b * m
  {
  }

  // ----- the limbs of a number

  /** The limbs of a number, without leading zeros. */
  function LimbList(n: nat): (s: seq<int>)
    ensures AreLimbs(s) && IsTrim(s)
  {
    if n < B then [n] else [n % B] + LimbList(n / B)
  }

  lemma {:induction false} LimbListIsUnique(s: seq<int>)
    requires AreLimbs(s) && IsTrim(s)
    ensures LimbList(ValueOf(s)) == s
    decreases |s|
  {
    assert IsLimb(s[0]);
    if |s| == 1 {
      assert s[1..] == [];
    } else {
      LimbListIsUnique(s[1..]);
      AllZero(s[1..]);
      assert s[1..][|s| - 2] != 0;
      var v := ValueOf(s[1..]);
      assert (s[0] + B * v) / B == v && (s[0] + B * v) % B == s[0];
    }
  }

  /** What lost borrows add to the difference of two numbers. */
  function LostBetween(x: nat, y: nat): nat {
    if x < y then Lost(LimbList(y), LimbList(x), 0) else if y < x then Lost(LimbList(x), LimbList(y), 0) else 0
  }

  // ----- the comparison

  /** A scaled number, and what its computation needs, fit. */
  predicate Fits(n: nat, e5: nat, e2: nat) {
    Scaled(n, e5, e2) < Pow(B, CAPACITY - 1)
  }

  method ScaleUp(x: BigInteger, e5: nat, e2: nat)
    requires x.Valid() && Fits(x.N(), e5, e2)
    modifies x`count, x.digits
    ensures x.Valid() && x.N() == Scaled(old(x.N()), e5, e2)
  {
    hide ValueOf, Pow, IsTrim, AreLimbs;
    ghost var n := x.N();
    PowPositive(2, e2);
    MulMonotone(1, Pow(2, e2), n * Pow(5, e5));
    PowMonotone(B, CAPACITY - 1, CAPACITY);
    x.MultiplyPow5(e5);
    RoomToShift(x.digits[..x.count], e2);
    x.ShiftLeft(e2);
  }

  /** A number that stays below the greatest but one list of limbs can be shifted. */
  lemma RoomToShift(s: seq<int>, e2: nat)
    requires AreLimbs(s) && IsTrim(s) && ValueOf(s) * Pow(2, e2) < Pow(B, CAPACITY - 1)
    ensures e2 % 64 != 0 && s != [0] ==> |s| + e2 / 64 < CAPACITY
  {
    hide ValueOf, Pow, AreLimbs;
    if s != [0] {
      ValueBounds(s);
      assert s[|s| - 1] != 0;
      PowOfBase(e2 / 64);
      PowMonotone(2, 64 * (e2 / 64), e2);
      PowPositive(B, |s| - 1);
      MulMonotone(Pow(B, |s| - 1), ValueOf(s), Pow(2, e2));
      MulMonotone(Pow(B, e2 / 64), Pow(2, e2), Pow(B, |s| - 1));
      PowAdd(B, |s| - 1, e2 / 64);
      if |s| + e2 / 64 >= CAPACITY {
        PowMonotone(B, CAPACITY - 1, |s| - 1 + e2 / 64);
      }
    }
  }

  /** The three scaled numbers fit, for the decimal `n * 10^dExp` and the double `b`. */
  predicate AllFit(n: nat, dExp: int, b: Bits) {
    var s := ScaleOf(dExp, IntegerExponent(b));
    Fits(n, s.d5, s.d2) && Fits(IntegerSignificand(b), s.b5, s.b2) && Fits(1, s.h5, s.h2)
  }

  function ScaledDecimal(n: nat, dExp: int, b: Bits): nat {
    var s := ScaleOf(dExp, IntegerExponent(b));
    Scaled(n, s.d5, s.d2)
  }

  function ScaledDouble(dExp: int, b: Bits): nat {
    var s := ScaleOf(dExp, IntegerExponent(b));
    Scaled(IntegerSignificand(b), s.b5, s.b2)
  }

  function ScaledHalf(dExp: int, b: Bits): nat {
    var s := ScaleOf(dExp, IntegerExponent(b));
    Scaled(1, s.h5, s.h2)
  }

  /** What lost borrows add to the scaled distance. */
  function LostInDistance(n: nat, dExp: int, b: Bits): nat {
    LostBetween(ScaledDecimal(n, dExp, b), ScaledDouble(dExp, b))
  }

  function Decimal(n: nat, dExp: int): real {
    n as real * PowR(10.0, dExp)
  }

  /** How the distance between the decimal and the double compares with half a unit in the double's last place; for
      zero, with its parts taken for those of a normal number. */
  function DistanceToHalfUlp(n: nat, dExp: int, b: Bits): int {
    SignR(DistanceR(Decimal(n, dExp), PartsValue(b)) - PowR(2.0, IntegerExponent(b) - 1))
  }

  /** `CheckWithinHalfULP`: the order of the distance between the decimal and the double, and half a unit in the
      double's last place; exact when no borrow is lost. */
  method CheckWithinHalfULP(b: Bits, d: BigInteger, dExp: int) returns (r: int)
    requires d.Valid() && AllFit(d.N(), dExp, b)
    ensures r == SignI(Distance(ScaledDecimal(d.N(), dExp, b), ScaledDouble(dExp, b)) + LostInDistance(d.N(), dExp, b) - ScaledHalf(dExp, b))
    ensures LostInDistance(d.N(), dExp, b) == 0 ==> r == DistanceToHalfUlp(d.N(), dExp, b)
  {
    hide ValueOf, Pow, PowR, Scaled, Fits, Lost, LimbList, IsTrim, AreLimbs, PartsValue, ScaleOf, SignI,
         DistanceToHalfUlp, Distance;
    var bInt, bExp := IntegerSignificand(b), IntegerExponent(b);
    SignificandIsLimb(b);
    var dS2, dS5, bS2, bS5, hS2, hS5 := ScaleExponents(dExp, bExp);
    var dS := new BigInteger.Copy(d);
    ScaleUp(dS, dS5, dS2);
    var bS := ScaledNumber(bInt, bS5, bS2);
    var hS := ScaledNumber(1, hS5, hS2);
    HalfUlpSign(b, d.N(), dExp);
    r := CompareDistance(dS, bS, hS);
  }

  lemma SignificandIsLimb(b: Bits)
    ensures IntegerSignificand(b) < B
  {
  }

  method ScaledNumber(n: nat, e5: nat, e2: nat) returns (x: BigInteger)
    requires n < B && Fits(n, e5, e2)
    ensures fresh(x) && fresh(x.digits) && x.Valid() && x.N() == Scaled(n, e5, e2)
  {
    hide ValueOf, Scaled, Fits, IsTrim, AreLimbs;
    x := new BigInteger(n);
    ScaleUp(x, e5, e2);
  }

  /** The end of `CheckWithinHalfULP`. */
  method CompareDistance(dS: BigInteger, bS: BigInteger, hS: BigInteger) returns (r: int)
    requires dS.Valid() && bS.Valid() && hS.Valid()
    ensures r == SignI(Distance(dS.N(), bS.N()) + LostBetween(dS.N(), bS.N()) - hS.N())
  {
    hide ValueOf, Lost, LimbList, IsTrim, AreLimbs;
    var delta := new BigInteger(0);
    LimbListIsUnique(dS.digits[..dS.count]);
    LimbListIsUnique(bS.digits[..bS.count]);
    var less := dS.Difference(bS, delta);
    r := delta.Compare(hS);
  }

  /** The exponents, as `CheckWithinHalfULP` adjusts them step by step. */
  method ScaleExponents(dExp: int, bExp: int) returns (dS2: int, dS5: int, bS2: int, bS5: int, hS2: int, hS5: int)
    ensures 0 <= dS2 && 0 <= dS5 && 0 <= bS2 && 0 <= bS5 && 0 <= hS2 && 0 <= hS5
    ensures Scale(dS2, dS5, bS2, bS5, hS2, hS5) == ScaleOf(dExp, bExp)
  {
    var hExp := bExp - 1;
    dS2, dS5, bS2, bS5, hS2, hS5 := 0, 0, 0, 0, 0, 0;
    if dExp >= 0 {
      dS2, dS5 := dS2 + dExp, dS5 + dExp;
    } else {
      bS2, bS5, hS2, hS5 := bS2 - dExp, bS5 - dExp, hS2 - dExp, hS5 - dExp;
    }
    if bExp >= 0 {
      bS2 := bS2 + bExp;
    } else {
      dS2, hS2 := dS2 - bExp, hS2 - bExp;
    }
    if hExp >= 0 {
      hS2 := hS2 + hExp;
    } else {
      dS2, bS2 := dS2 - hExp, bS2 - hExp;
    }
    var common := Min3(dS2, bS2, hS2);
    dS2, bS2, hS2 := dS2 - common, bS2 - common, hS2 - common;
  }

  /** The real meaning of the scaled comparison. */
  lemma HalfUlpSign(b: Bits, n: nat, dExp: int)
    ensures SignI(Distance(ScaledDecimal(n, dExp, b), ScaledDouble(dExp, b)) - ScaledHalf(dExp, b)) == DistanceToHalfUlp(n, dExp, b)
  {
    hide PowR, Pow, Scaled, SignI, SignR, PartsValue, Distance, DistanceR;
    var x, y, h := ScaledDecimal(n, dExp, b), ScaledDouble(dExp, b), ScaledHalf(dExp, b);
    var bExp, s := IntegerExponent(b), ScaleOf(dExp, IntegerExponent(b));
    var x5 := Plus(-dExp);
    var x2 := s.b2 - bExp;
    ScaledReal(n, s.d5, s.d2, dExp, 0, x5, x2);
    ScaledReal(IntegerSignificand(b), s.b5, s.b2, 0, bExp, x5, x2);
    ScaledReal(1, s.h5, s.h2, 0, bExp - 1, x5, x2);
    PowRZero(2.0);
    PowRZero(10.0);
    PartsMeanValue(b);
    var m := PowR(2.0, x2) * PowR(5.0, x5);
    var dec, p, q := Decimal(n, dExp), PowR(2.0, bExp), PowR(2.0, bExp - 1);
    var i := IntegerSignificand(b) as real;
    assert dec * 1.0 == dec && i * 1.0 * p == i * p && 1.0 * 1.0 * q == q;
    MulPositive(PowR(2.0, x2), PowR(5.0, x5));
    assert x as real == dec * m && h as real == q * m;
    assert y as real == PartsValue(b) * m;
    SignScaled(x, y, h, dec, PartsValue(b), q, m);
    assert DistanceToHalfUlp(n, dExp, b) == SignR(DistanceR(dec, PartsValue(b)) - q);
  }

  // ----- rounding

  /** No double is nearer to `x` than `r`, and where another is as near, `r` is the one with the even significand. */
  ghost predicate IsNearestEven(x: real, r: Bits) {
    forall v: Bits :: v != r ==>
      || DistanceR(x, DoubleValue(r)) < DistanceR(x, DoubleValue(v))
      || (DistanceR(x, DoubleValue(r)) == DistanceR(x, DoubleValue(v)) && Significand(r) % 2 == 0)
  }

  /** Of two neighbours with `x` between them, the nearer one is the nearest of all. */
  lemma NeighboursSuffice(x: real, a: Bits, r: Bits)
    requires a > 0 && DoubleValue(a) <= x <= DoubleValue(a + 1) && (r == a || r == a + 1)
    requires var other := if r == a then a + 1 else a;
             || DistanceR(x, DoubleValue(r)) < DistanceR(x, DoubleValue(other))
             || (DistanceR(x, DoubleValue(r)) == DistanceR(x, DoubleValue(other)) && Significand(r) % 2 == 0)
    ensures IsNearestEven(x, r)
  {
    hide DoubleValue;
    forall v: Bits | v != r
      ensures || DistanceR(x, DoubleValue(r)) < DistanceR(x, DoubleValue(v))
              || (DistanceR(x, DoubleValue(r)) == DistanceR(x, DoubleValue(v)) && Significand(r) % 2 == 0)
    {
      FurtherAway(x, a, v);
    }
  }

  /** No double is strictly between neighbours; those outside are further from what is between. */
  lemma FurtherAway(x: real, a: Bits, v: Bits)
    requires a > 0 && DoubleValue(a) <= x <= DoubleValue(a + 1)
    ensures v <= a && v != a ==> DistanceR(x, DoubleValue(a)) < DistanceR(x, DoubleValue(v))
    ensures v > a + 1 ==> DistanceR(x, DoubleValue(a + 1)) < DistanceR(x, DoubleValue(v))
  {
    hide DoubleValue;
    if v == 0 {
      ZeroIsLeast(a);
    } else if v < a {
      StrictlyIncrease(v, a);
    } else if v > a + 1 {
      StrictlyIncrease(a + 1, v);
    }
  }

  lemma StrictlyIncrease(u: Bits, v: Bits)
    requires 0 < u < v
    ensures DoubleValue(u) < DoubleValue(v)
  {
    hide DoubleValue;
    DoublesIncrease(u, v - 1);
    NextIsOneUlp(v - 1);
  }

  lemma NextParity(u: Bits)
    ensures Significand(u) % 2 == 1 ==> Significand(u + 1) % 2 == 0
  {
    NextBits(u);
  }

  /** A decimal between zero and the least double: `CheckWithinHalfULP` always finds it far away from zero. */
  lemma FarFromZero(n: nat, dExp: int)
    requires 0.0 <= Decimal(n, dExp) <= DoubleValue(1)
    ensures DistanceToHalfUlp(n, dExp, 0) == 1
    ensures IsNearestEven(Decimal(n, dExp), 1) <==> Decimal(n, dExp) > PowR(2.0, -1075)
  {
    hide PowR, Decimal, DoubleValue, IsNearestEven;
    PowersAtZero();
    LeastDouble();
    NearestToLeast(Decimal(n, dExp));
  }

  lemma PowersAtZero()
    ensures var p := PowR(2.0, -1076);
            p > 0.0 && PowR(2.0, -1074) == 4.0 * p && PowR(2.0, -1023) >= 8.0 * p
  {
    hide PowR, Pow;
    PowRNext(2.0, -1076);
    PowRNext(2.0, -1075);
    PowRAdd(2.0, 53, -1076);
    PowRIsPow(2, 53);
    PowMonotone(2, 3, 53);
    TwoTo3();
    EightTimes(PowR(2.0, 53), PowR(2.0, -1076));
  }

  lemma TwoTo3()
    ensures Pow(2, 3) == 8
  {
  }

  lemma EightTimes(q: real, p: real)
    requires q >= 8.0 && p > 0.0
    ensures q * p >= 8.0 * p
  {
    assert (q - 8.0) * p >= 0.0;
  }

  lemma LeastDouble()
    ensures DoubleValue(1) == PowR(2.0, -1074) && DoubleValue(0) == 0.0 && Significand(1) == 1
    ensures IntegerExponent(0) == -1075
  {
    assert Significand(1) == 1 && ExponentBits(1) == 0;
    ZeroIsLeast(1);
  }

  lemma NearestToLeast(x: real)
    requires 0.0 <= x <= DoubleValue(1)
    ensures IsNearestEven(x, 1) <==> x > PowR(2.0, -1075)
  {
    hide DoubleValue, PowR;
    LeastDouble();
    PowRNext(2.0, -1075);
    forall v: Bits | v > 1
      ensures DistanceR(x, DoubleValue(1)) < DistanceR(x, DoubleValue(v))
    {
      StrictlyIncrease(1, v);
    }
    assert DistanceR(x, DoubleValue(0)) == x;
    if IsNearestEven(x, 1) {
      var v: Bits := 0;
      assert v != 1;
      assert DistanceR(x, DoubleValue(1)) < DistanceR(x, DoubleValue(v));
    } else {
      var v: Bits :| v != 1 && !(DistanceR(x, DoubleValue(1)) < DistanceR(x, DoubleValue(v)));
      assert v == 0;
    }
  }

  lemma FiveToThe28()
    ensures Pow(2, 65) <= Pow(5, 28) && Pow(2, 37) <= Pow(5, 16)
  {
    assert Pow(5, 7) == 78125 && Pow(5, 2) == 25;
    PowAdd(5, 7, 7);
    PowAdd(5, 14, 14);
    PowAdd(5, 14, 2);
    BaseIsPower();
    PowAdd(2, 64, 1);
    assert Pow(2, 10) == 1024 && Pow(2, 7) == 128;
    PowAdd(2, 10, 10);
    PowAdd(2, 20, 10);
    PowAdd(2, 30, 7);
  }

  lemma NoPower()
    ensures Pow(2, 0) == 1
  {
  }

  lemma {:induction false} PowersOf28(m: nat)
    ensures Pow(2, 65 * m) <= Pow(5, 28 * m)
    decreases m
  {
    hide Pow;
    if m == 0 {
      PowPositive(5, 0);
      NoPower();
    } else {
      PowersOf28(m - 1);
      FiveToThe28();
      PowAdd(2, 65, 65 * (m - 1));
      PowAdd(5, 28, 28 * (m - 1));
      MulMonotone(Pow(2, 65), Pow(5, 28), Pow(2, 65 * (m - 1)));
      MulMonotone(Pow(2, 65 * (m - 1)), Pow(5, 28 * (m - 1)), Pow(5, 28));
    }
  }

  /** 2^1075 is below 10^324. */
  lemma PowersCompared()
    ensures Pow(2, 751) <= Pow(5, 324) && Pow(2, 1075) == Pow(2, 324) * Pow(2, 751)
  {
    hide Pow;
    PowersOf28(11);
    FiveToThe28();
    PowAdd(5, 308, 16);
    PowAdd(2, 715, 37);
    PowAdd(2, 324, 751);
    PowMonotone(2, 751, 752);
    MulMonotone(Pow(2, 715), Pow(5, 308), Pow(2, 37));
    MulMonotone(Pow(2, 37), Pow(5, 16), Pow(5, 308));
  }

  lemma Reciprocals(x: real, y: real, x': real, y': real)
    requires x * x' == 1.0 && y * y' == 1.0 && 0.0 < x <= y && x' > 0.0 && y' > 0.0
    ensures y' <= x'
  {
    MulAtMost(x, y, y');
    MulAtMost(x * y', 1.0, x');
    assert (x * y') * x' == (x * x') * y';
  }

  lemma MulAtMost(a: real, b: real, c: real)
    requires a <= b && c > 0.0
    ensures a * c <= b * c
  {
    assert (b - a) * c >= 0.0;
  }

  /** 10^-324 is nearer to zero than to the least double, which is what it is rounded to. */
  lemma LeastDoubleIsTooLarge()
    ensures 0.0 < Decimal(1, -324) <= PowR(2.0, -1075) < DoubleValue(1)
    ensures DistanceToHalfUlp(1, -324, 0) == 1 && !IsNearestEven(Decimal(1, -324), 1)
  {
    hide PowR, Pow, DoubleValue, IsNearestEven, DistanceToHalfUlp;
    PowersCompared();
    PowRIsPow(2, 1075);
    PowRIsPow(2, 324);
    PowRIsPow(5, 324);
    TenIsTwoTimesFive(324);
    PowRAdd(10.0, 324, -324);
    PowRAdd(2.0, 1075, -1075);
    PowRZero(10.0);
    PowRZero(2.0);
    MulMonotone(Pow(2, 751), Pow(5, 324), Pow(2, 324));
    assert Pow(2, 1075) as real <= (Pow(5, 324) * Pow(2, 324)) as real == Pow(5, 324) as real * Pow(2, 324) as real;
    Reciprocals(PowR(2.0, 1075), PowR(10.0, 324), PowR(2.0, -1075), PowR(10.0, -324));
    assert Decimal(1, -324) == PowR(10.0, -324);
    PowRNext(2.0, -1075);
    LeastDouble();
    FarFromZero(1, -324);
  }

  // ----- the guards before

  lemma {:induction false} PowBelow(b: nat, k: nat, m: nat)
    requires b <= Pow(2, k)
    ensures Pow(b, m) <= Pow(2, k * m)
    decreases m
  {
    if m > 0 {
      PowBelow(b, k, m - 1);
      PowAdd(2, k, k * (m - 1));
      assert k + k * (m - 1) == k * m;
      MulMonotone(b, Pow(2, k), Pow(b, m - 1));
      MulMonotone(Pow(b, m - 1), Pow(2, k * (m - 1)), Pow(2, k));
    } else {
      assert k * 0 == 0;
    }
  }

  lemma ScaledBelow(n: nat, k: nat, e5: nat, e2: nat)
    requires n <= Pow(2, k)
    ensures Scaled(n, e5, e2) <= Pow(2, k + 3 * e5 + e2)
  {
    assert Pow(2, 3) == 8;
    PowBelow(5, 3, e5);
    hide Pow;
    PowAdd(2, k, 3 * e5);
    PowAdd(2, k + 3 * e5, e2);
    MulMonotone(n, Pow(2, k), Pow(5, e5));
    MulMonotone(Pow(5, e5), Pow(2, 3 * e5), Pow(2, k));
    MulMonotone(n * Pow(5, e5), Pow(2, k + 3 * e5), Pow(2, e2));
  }

  lemma SmallFits(n: nat, k: nat, e5: nat, e2: nat)
    requires n <= Pow(2, k) && k <= 3072 && e5 <= 1100 && e2 <= 4000
    ensures Fits(n, e5, e2)
  {
    hide Pow, Scaled;
    ScaledBelow(n, k, e5, e2);
    PowOfBase(CAPACITY - 1);
    PowMonotone(2, k + 3 * e5 + e2, 64 * (CAPACITY - 1) - 1);
    PowTwoNext(64 * (CAPACITY - 1) - 1);
  }

  lemma PowTwoNext(e: nat)
    ensures Pow(2, e) < Pow(2, e + 1)
  {
    PowPositive(2, e);
  }

  lemma ScaleIsSmall(dExp: int, bExp: int)
    requires -1092 < dExp <= 308 && -1075 <= bExp <= 971
    ensures var s := ScaleOf(dExp, bExp);
            s.d5 <= 1100 && s.b5 <= 1100 && s.h5 <= 1100 && s.d2 <= 4000 && s.b2 <= 4000 && s.h2 <= 4000
  {
  }

  lemma SignificandIsSmall(b: Bits)
    requires b < INFINITY_BITS
    ensures -1075 <= IntegerExponent(b) <= 971 && IntegerSignificand(b) <= Pow(2, 64)
  {
    BaseIsPower();
    SignificandIsLimb(b);
    hide Pow;
  }

  lemma {:induction false} DecimalBelow(s: seq<int>)
    requires AllDigits(s)
    ensures DecimalValue(s) < Pow(10, |s|)
    decreases |s|
  {
    if s != [] {
      DecimalBelow(s[..|s| - 1]);
      assert IsDigit(s[|s| - 1]);
    }
  }

  /** Where `StrtodBigInteger` is called, at most 768 digits are left and the decimal is not out of range; then all
      numbers fit. */
  lemma GuardsSuffice(decimals: seq<int>, dExp: int, b: Bits)
    requires 0 < |decimals| <= 768 && AllDigits(decimals) && b < INFINITY_BITS
    requires -324 < |decimals| + dExp <= 309
    ensures DecimalValue(decimals) < Pow(B, CAPACITY - 1) && AllFit(DecimalValue(decimals), dExp, b)
  {
    hide DecimalValue, Pow, Scaled, ScaleOf, Fits, IntegerSignificand, IntegerExponent;
    var n, s := DecimalValue(decimals), ScaleOf(dExp, IntegerExponent(b));
    DecimalBelow(decimals);
    TenBelowSixteen();
    PowBelow(10, 4, |decimals|);
    SignificandIsSmall(b);
    ScaleIsSmall(dExp, IntegerExponent(b));
    SmallFits(n, 4 * |decimals|, s.d5, s.d2);
    SmallFits(IntegerSignificand(b), 64, s.b5, s.b2);
    PowPositive(2, 0);
    SmallFits(1, 0, s.h5, s.h2);
    SmallFits(n, 4 * |decimals|, 0, 0);
    Unscaled(n);
  }

  lemma TenBelowSixteen()
    ensures 10 <= Pow(2, 4)
  {
  }

  lemma Unscaled(n: nat)
    requires Fits(n, 0, 0)
    ensures n < Pow(B, CAPACITY - 1)
  {
    assert Pow(5, 0) == 1 && Pow(2, 0) == 1;
  }

  /** `StrtodBigInteger`: if the decimal lies between the approximation and the next double, and no borrow is lost, the
      result is the nearest double, ties to even; but next to zero it is always the least double, which is right for
      decimals above half of that only. */
  method StrtodBigInteger(approx: Bits, decimals: seq<int>, dExp: int) returns (r: Bits)
    requires approx < INFINITY_BITS
    requires |decimals| > 0 && AllDigits(decimals) && DecimalValue(decimals) < Pow(B, CAPACITY - 1)
    requires AllFit(DecimalValue(decimals), dExp, approx)
    ensures r == approx || r == approx + 1
    ensures LostInDistance(DecimalValue(decimals), dExp, approx) == 0
         && DoubleValue(approx) <= Decimal(DecimalValue(decimals), dExp) <= DoubleValue(approx + 1)
        ==> if approx > 0 then IsNearestEven(Decimal(DecimalValue(decimals), dExp), r)
            else r == 1 && (IsNearestEven(Decimal(DecimalValue(decimals), dExp), r)
                            <==> Decimal(DecimalValue(decimals), dExp) > PowR(2.0, -1075))
  {
    hide *;
    var dInt := new BigInteger.FromDecimals(decimals);
    var cmp := CheckWithinHalfULP(approx, dInt, dExp);
    if cmp < 0 {
      r := approx;
    } else if cmp == 0 {
      r := if Significand(approx) % 2 == 1 then approx + 1 else approx;
    } else {
      r := approx + 1;
    }
    RoundedNearest(DecimalValue(decimals), dExp, approx, cmp, r);
  }

  lemma RoundedNearest(n: nat, dExp: int, a: Bits, cmp: int, r: Bits)
    requires r == if cmp < 0 then a else if cmp == 0 then if Significand(a) % 2 == 1 then a + 1 else a else a + 1
    ensures cmp == DistanceToHalfUlp(n, dExp, a) && DoubleValue(a) <= Decimal(n, dExp) <= DoubleValue(a + 1)
        ==> if a > 0 then IsNearestEven(Decimal(n, dExp), r)
            else r == 1 && (IsNearestEven(Decimal(n, dExp), r) <==> Decimal(n, dExp) > PowR(2.0, -1075))
  {
    hide DoubleValue, PowR, Decimal, IsNearestEven;
    var x, e := Decimal(n, dExp), IntegerExponent(a);
    if cmp == DistanceToHalfUlp(n, dExp, a) && DoubleValue(a) <= x <= DoubleValue(a + 1) {
      if a == 0 {
        LeastDouble();
        FarFromZero(n, dExp);
      } else {
        NextIsOneUlp(a);
        PowRNext(2.0, e - 1);
        NextParity(a);
        NeighboursSuffice(x, a, r);
      }
    }
  }
}
