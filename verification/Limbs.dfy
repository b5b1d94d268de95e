/** Numbers as lists of 64-bit limbs, least significant first, and what the loops over limbs compute. */
module Limbs {
  /** The base of a limb, 2^64. */
  const B: nat := 0x1_0000_0000_0000_0000

  predicate IsLimb(x: int) {
    0 <= x < B
  }

  predicate AreLimbs(s: seq<int>) {
    forall i | 0 <= i < |s| :: IsLimb(s[i])
  }

  /** The number a list of limbs stands for. */
  function ValueOf(s: seq<int>): nat
    requires AreLimbs(s)
  {
    if s == [] then 0 else assert IsLimb(s[0]); s[0] + B * ValueOf(s[1..])
  }

  /** No leading zero limb; zero has one limb. */
  predicate IsTrim(s: seq<int>) {
    s != [] && (|s| == 1 || s[|s| - 1] != 0)
  }

  function Pow(b: nat, e: nat): nat {
    if e == 0 then 1 else b * Pow(b, e - 1)
  }

  lemma {:induction false} PowPositive(b: nat, e: nat)
    requires b > 0
    ensures Pow(b, e) > 0
    decreases e
  {
    if e > 0 {
      PowPositive(b, e - 1);
      assert b * Pow(b, e - 1) > 0;
    }
  }

  lemma {:induction false} PowAdd(b: nat, m: nat, n: nat)
    ensures Pow(b, m + n) == Pow(b, m) * Pow(b, n)
    decreases m
  {
    if m > 0 {
      PowAdd(b, m - 1, n);
      assert b * (Pow(b, m - 1) * Pow(b, n)) == (b * Pow(b, m - 1)) * Pow(b, n);
    }
  }

  lemma {:induction false} PowMonotone(b: nat, m: nat, n: nat)
    requires b > 0 && m <= n
    ensures Pow(b, m) <= Pow(b, n)
    decreases n
  {
    if m < n {
      PowMonotone(b, m, n - 1);
      assert Pow(b, n - 1) <= b * Pow(b, n - 1);
    }
  }

  // ----- size and order

  /** A list is below the power of the base with as many limbs; a trim one is not below the power with one less. */
  lemma {:induction false} ValueBounds(s: seq<int>)
    requires AreLimbs(s)
    ensures ValueOf(s) < Pow(B, |s|)
    ensures s != [] && s[|s| - 1] != 0 ==> Pow(B, |s| - 1) <= ValueOf(s)
    decreases |s|
  {
    if s != [] {
      assert IsLimb(s[0]);
      ValueBounds(s[1..]);
    }
  }

  lemma LongerIsGreater(a: seq<int>, b: seq<int>)
    requires AreLimbs(a) && AreLimbs(b) && IsTrim(a) && IsTrim(b) && |a| < |b|
    ensures ValueOf(a) < ValueOf(b)
  {
    ValueBounds(a);
    ValueBounds(b);
    PowMonotone(B, |a|, |b| - 1);
    hide ValueOf, Pow;
  }

  /** The order of lists of equal length is decided by the highest limb in which they differ. */
  lemma {:induction false} HighestDecides(a: seq<int>, b: seq<int>, k: nat)
    requires AreLimbs(a) && AreLimbs(b) && |a| == |b| && k < |a|
    requires a[k] < b[k] && forall i | k < i < |a| :: a[i] == b[i]
    ensures ValueOf(a) < ValueOf(b)
    decreases |a|
  {
    assert IsLimb(a[0]) && IsLimb(b[0]);
    if k == 0 {
      assert a[1..] == b[1..];
    } else {
      HighestDecides(a[1..], b[1..], k - 1);
    }
  }

  lemma {:induction false} ValueOfCat(a: seq<int>, b: seq<int>)
    requires AreLimbs(a) && AreLimbs(b)
    ensures AreLimbs(a + b) && ValueOf(a + b) == ValueOf(a) + Pow(B, |a|) * ValueOf(b)
    decreases |a|
  {
    if a == [] {
      assert a + b == b;
    } else {
      assert (a + b)[1..] == a[1..] + b && IsLimb(a[0]);
      ValueOfCat(a[1..], b);
      hide Pow;
      PowStep(|a|);
      Assoc(Pow(B, |a| - 1), ValueOf(b));
    }
  }

  lemma PowStep(n: nat)
    requires n > 0
    ensures Pow(B, n) == B * Pow(B, n - 1)
  {
  }

  lemma Assoc(p: nat, v: nat)
    ensures B * (p * v) == (B * p) * v
  {
  }

  // ----- addition and multiplication

  /** `s` times `u` plus `k`, limb by limb with a carry: what all the multiplication and addition loops compute. */
  function MulAdd(s: seq<int>, u: nat, k: nat): (r: seq<int>)
    requires AreLimbs(s) && u < B && k < B
    ensures AreLimbs(r) && (|r| == |s| || |r| == |s| + 1)
    decreases |s|
  {
    if s == [] then if k == 0 then [] else [k]
    else
      assert IsLimb(s[0]);
      var t := s[0] * u + k;
      CarryFits(s[0], u, k);
      [t % B] + MulAdd(s[1..], u, t / B)
  }

  lemma MulMonotone(x: nat, y: nat, u: nat)
    requires x <= y
    ensures x * u <= y * u
  {
    assert (y - x) * u >= 0;
  }

  lemma CarryFits(x: nat, u: nat, k: nat)
    requires x < B && u < B && k < B
    ensures (x * u + k) / B < B && x * u + k < B * B
  {
    MulMonotone(x, B - 1, u);
    assert x * u + k <= (B - 1) * u + k <= (B - 1) * B;
    Quotient(x * u + k, B);
  }

  /** A number below `B * b` has a quotient below `b`. */
  lemma Quotient(x: nat, b: nat)
    requires x < B * b
    ensures x / B < b
  {
  }

  lemma {:induction false} MulAddValue(s: seq<int>, u: nat, k: nat)
    requires AreLimbs(s) && u < B && k < B
    ensures ValueOf(MulAdd(s, u, k)) == ValueOf(s) * u + k
    decreases |s|
  {
    if s == [] {
      if k != 0 {
        assert [k][1..] == [];
      }
    } else {
      assert IsLimb(s[0]);
      var t, v := s[0] * u + k, ValueOf(s[1..]);
      CarryFits(s[0], u, k);
      MulAddValue(s[1..], u, t / B);
      var r := MulAdd(s, u, k);
      assert r[0] == t % B && r[1..] == MulAdd(s[1..], u, t / B);
      assert ValueOf(r) == t % B + B * (v * u + t / B);
      Distribute(s[0], v, u);
    }
  }

  lemma Distribute(x: nat, v: nat, u: nat)
    ensures (x + B * v) * u == x * u + B * (v * u)
  {
  }

  lemma {:induction false} MulAddHighest(s: seq<int>, u: nat, k: nat)
    requires AreLimbs(s) && u < B && k < B && u > 0 && s != [] && s[|s| - 1] != 0
    ensures MulAdd(s, u, k)[|MulAdd(s, u, k)| - 1] != 0
    decreases |s|
  {
    assert IsLimb(s[0]);
    var t := s[0] * u + k;
    CarryFits(s[0], u, k);
    if |s| == 1 {
      MulMonotone(1, s[0], u);
      assert s[1..] == [];
    } else {
      MulAddHighest(s[1..], u, t / B);
    }
  }

  lemma MulAddTrim(s: seq<int>, u: nat, k: nat)
    requires AreLimbs(s) && u < B && k < B && u > 0
    ensures s != [] && s[|s| - 1] != 0 ==> MulAdd(s, u, k)[|MulAdd(s, u, k)| - 1] != 0
    ensures IsTrim(s) ==> IsTrim(MulAdd(s, u, k))
  {
    if s != [] && s[|s| - 1] != 0 {
      MulAddHighest(s, u, k);
    } else if IsTrim(s) {
      assert IsLimb(s[0]) && s[1..] == [] && s[0] * u == 0;
      assert MulAdd(s, u, k) == [k];
    }
    hide MulAdd;
  }

  // ----- shifting by less than a limb

  /** `u` is a power of two below the base, and `w` the base divided by it. */
  predicate Divides(u: nat, w: nat) {
    0 < u && 0 < w && u * w == B
  }

  /** What a limb times `u` leaves in its place and what it hands on, as shifts to the left and to the right. */
  lemma ShiftParts(x: nat, u: nat, w: nat)
    requires x < B && Divides(u, w)
    ensures x * u / B == x / w && x * u % B == x % w * u && x / w < u && x % w * u + u <= B
  {
    var q, r := x / w, x % w;
    assert x == q * w + r;
    assert x * u == q * (w * u) + r * u;
    assert r * u + u <= w * u by {
      MulMonotone(r + 1, w, u);
    }
    assert q * (w * u) == q * B;
    if q >= u {
      MulMonotone(u, q, w);
    }
  }

  /** A carry below `u` does not carry further. */
  lemma CarryStops(x: nat, u: nat, w: nat, k: nat)
    requires x < B && Divides(u, w) && k < u
    ensures (x * u + k) / B == x / w && (x * u + k) % B == x % w * u + k
  {
    ShiftParts(x, u, w);
  }

  /** The limbs of a shifted number, one by one: each has the low part of its own limb and the high part of the one
      before. */
  lemma {:induction false} MulAddLimb(s: seq<int>, u: nat, w: nat, k: nat, i: nat)
    requires AreLimbs(s) && u < B && Divides(u, w) && k < u && i < |s|
    ensures IsLimb(s[i]) && (i > 0 ==> IsLimb(s[i - 1]))
    ensures MulAdd(s, u, k)[i] == s[i] % w * u + if i == 0 then k else s[i - 1] / w
    decreases |s|
  {
    assert IsLimb(s[0]) && IsLimb(s[i]) && (i > 0 ==> IsLimb(s[i - 1]));
    CarryStops(s[0], u, w, k);
    if i > 0 {
      ShiftParts(s[0], u, w);
      MulAddLimb(s[1..], u, w, s[0] / w, i - 1);
    }
  }

  /** The limb above the last, if there is one. */
  lemma {:induction false} MulAddTop(s: seq<int>, u: nat, w: nat, k: nat)
    requires AreLimbs(s) && u < B && Divides(u, w) && k < u && s != []
    ensures IsLimb(s[|s| - 1])
    ensures var top := s[|s| - 1] / w;
            var r := MulAdd(s, u, k);
            if top == 0 then |r| == |s| else |r| == |s| + 1 && r[|s|] == top
    decreases |s|
  {
    assert IsLimb(s[0]) && IsLimb(s[|s| - 1]);
    CarryStops(s[0], u, w, k);
    if |s| > 1 {
      ShiftParts(s[0], u, w);
      MulAddTop(s[1..], u, w, s[0] / w);
    } else {
      assert s[1..] == [];
    }
  }

  // ----- zeros below

  function Zeros(n: nat): (z: seq<int>)
    ensures |z| == n && AreLimbs(z)
  {
    seq(n, i => 0)
  }

  lemma {:induction false} ZerosValue(n: nat, s: seq<int>)
    requires AreLimbs(s)
    ensures AreLimbs(Zeros(n) + s) && ValueOf(Zeros(n) + s) == Pow(B, n) * ValueOf(s)
    decreases n
  {
    if n == 0 {
      assert Zeros(0) + s == s;
    } else {
      assert (Zeros(n) + s)[1..] == Zeros(n - 1) + s;
      ZerosValue(n - 1, s);
      assert B * (Pow(B, n - 1) * ValueOf(s)) == Pow(B, n) * ValueOf(s);
    }
  }

  // ----- subtraction, with the borrow the code computes

  /** Limb `i`, or zero above the last. */
  function LimbAt(s: seq<int>): int {
    if s == [] then 0 else s[0]
  }

  function RestOf(s: seq<int>): seq<int> {
    if s == [] then [] else s[1..]
  }

  /** One limb less another and a borrow, modulo the base. */
  function SubLimb(x: int, y: int, borrow: int): int {
    (x - borrow - y) % B
  }

  /** The borrow as it is recognized: by the limb having grown. */
  function NextBorrow(x: int, y: int, borrow: int): int {
    if SubLimb(x, y, borrow) > x then 1 else 0
  }

  /** That fails for one pair: nothing is recognized when a borrow meets a limb of all ones, and the limb stays as
      it is. */
  predicate LosesBorrow(y: int, borrow: int) {
    borrow == 1 && y == B - 1
  }

  lemma BorrowRecognized(x: int, y: int, borrow: int)
    requires IsLimb(x) && IsLimb(y) && (borrow == 0 || borrow == 1)
    ensures var d := SubLimb(x, y, borrow);
            && IsLimb(d)
            && d + y + borrow == x + B * (NextBorrow(x, y, borrow) + if LosesBorrow(y, borrow) then 1 else 0)
  {
  }

  function Sub(a: seq<int>, b: seq<int>, borrow: int): (d: seq<int>)
    ensures |d| == |a|
    decreases |a|
  {
    if a == [] then []
    else [SubLimb(a[0], LimbAt(b), borrow)] + Sub(a[1..], RestOf(b), NextBorrow(a[0], LimbAt(b), borrow))
  }

  /** What the lost borrows add up to: 2^(64(i+1)) for each limb `i` at which one is lost. */
  function Lost(a: seq<int>, b: seq<int>, borrow: int): nat
    decreases |a|
  {
    if a == [] then 0
    else (if LosesBorrow(LimbAt(b), borrow) then B else 0) + B * Lost(a[1..], RestOf(b), NextBorrow(a[0], LimbAt(b), borrow))
  }

  /** The borrow that comes into limb `i`. */
  function BorrowInto(a: seq<int>, b: seq<int>, borrow: int, i: nat): int
    requires i <= |a|
    decreases i
  {
    if i == 0 then borrow else BorrowInto(a[1..], RestOf(b), NextBorrow(a[0], LimbAt(b), borrow), i - 1)
  }

  lemma LimbsOf(s: seq<int>)
    requires AreLimbs(s)
    ensures IsLimb(LimbAt(s)) && AreLimbs(RestOf(s)) && ValueOf(s) == LimbAt(s) + B * ValueOf(RestOf(s))
  {
  }

  /** The limbs that the subtraction leaves: the difference, and the lost borrows on top. */
  lemma {:induction false} SubValue(a: seq<int>, b: seq<int>, borrow: int)
    requires AreLimbs(a) && AreLimbs(b) && |b| <= |a| && (borrow == 0 || borrow == 1)
    ensures AreLimbs(Sub(a, b, borrow))
    ensures ValueOf(Sub(a, b, borrow)) + ValueOf(b) + borrow
         == ValueOf(a) + Lost(a, b, borrow) + Pow(B, |a|) * BorrowInto(a, b, borrow, |a|)
    decreases |a|
  {
    if a != [] {
      LimbsOf(a);
      LimbsOf(b);
      var next := NextBorrow(a[0], LimbAt(b), borrow);
      BorrowRecognized(a[0], LimbAt(b), borrow);
      SubValue(a[1..], RestOf(b), next);
      var d := Sub(a, b, borrow);
      assert d[0] == SubLimb(a[0], LimbAt(b), borrow) && d[1..] == Sub(a[1..], RestOf(b), next);
      SubStep(ValueOf(d[1..]), ValueOf(RestOf(b)), next, ValueOf(a[1..]), Lost(a[1..], RestOf(b), next),
              Pow(B, |a| - 1), BorrowInto(a[1..], RestOf(b), next, |a| - 1));
    }
  }

  lemma SubStep(d: nat, b: nat, next: int, a: nat, lost: nat, p: nat, last: int)
    requires d + b + next == a + lost + p * last
    ensures B * d + B * b + B * next == B * a + B * lost + (B * p) * last
  {
    assert B * (p * last) == (B * p) * last;
  }

  /** No borrow is lost exactly when none of those that come in meets a limb of all ones. */
  lemma {:induction false} NothingLost(a: seq<int>, b: seq<int>, borrow: int)
    requires |b| <= |a|
    ensures Lost(a, b, borrow) == 0 <==> forall i | 0 <= i < |b| :: !LosesBorrow(b[i], BorrowInto(a, b, borrow, i))
    decreases |a|
  {
    if a != [] {
      var next := NextBorrow(a[0], LimbAt(b), borrow);
      NothingLost(a[1..], RestOf(b), next);
      if b != [] {
        forall i | 0 <= i < |b| - 1
          ensures b[1..][i] == b[i + 1] && BorrowInto(a[1..], b[1..], next, i) == BorrowInto(a, b, borrow, i + 1)
        {
        }
        assert Lost(a, b, borrow) == 0 <==> !LosesBorrow(b[0], borrow) && Lost(a[1..], b[1..], next) == 0;
        if forall i | 0 <= i < |b| - 1 :: !LosesBorrow(b[1..][i], BorrowInto(a[1..], b[1..], next, i)) {
          forall i | 1 <= i < |b|
            ensures !LosesBorrow(b[i], BorrowInto(a, b, borrow, i))
          {
            assert !LosesBorrow(b[1..][i - 1], BorrowInto(a[1..], b[1..], next, i - 1));
          }
        }
      }
    }
  }
}
