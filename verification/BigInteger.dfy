/** `BigInteger`: unsigned integers in an array of 64-bit limbs, updated in place. */
module BigInteger {
  import opened Ascii
  import opened Limbs

  /** `kCapacity` */
  const CAPACITY: nat := 416

  /** `MulAdd64` where the compiler has 128-bit integers. */
  method MulAdd64(a: nat, b: nat, k: nat) returns (low: nat, high: nat)
    requires a < B && b < B && k < B
    ensures low < B && high < B && high * B + low == a * b + k
  {
    CarryFits(a, b, k);
    var p := a * b + k;
    low, high := p % B, p / B;
  }

  const HALF: nat := 0x1_0000_0000

  /** The portable version of `MulAdd64`, in wrapping 64-bit arithmetic, computes the same. */
  method MulAdd64Portable(a: nat, b: nat, k: nat) returns (low: nat, high: nat)
    requires a < B && b < B && k < B
    ensures low < B && high < B && high * B + low == a * b + k
  {
    var a0, a1, b0, b1 := a % HALF, a / HALF, b % HALF, b / HALF;
    HalfProduct(a0, b0);
    HalfProduct(a0, b1);
    HalfProduct(a1, b0);
    HalfProduct(a1, b1);
    Schoolbook(a0, a1, b0, b1);
    CarryFits(a, b, k);
    var x0, x1, x2, x3 := a0 * b0, a0 * b1, a1 * b0, a1 * b1;
    low, high := AddProducts(x0, x1, x2, x3, k);
  }

  /** The part of `MulAdd64` after the four products of halves. */
  method AddProducts(p0: nat, p1: nat, p2: nat, p3: nat, k: nat) returns (low: nat, high: nat)
    requires p0 <= (HALF - 1) * (HALF - 1) && p1 <= (HALF - 1) * (HALF - 1)
    requires p2 <= (HALF - 1) * (HALF - 1) && p3 <= (HALF - 1) * (HALF - 1) && k < B
    requires p3 * B + (p1 + p2) * HALF + p0 + k < B * B
    ensures low < B && high < B && high * B + low == p3 * B + (p1 + p2) * HALF + p0 + k
  {
    var x1, x3 := (p1 + p0 / HALF) % B, p3;
    NoWrap(p0, p1);
    ghost var y1 := x1;
    x1 := (x1 + p2) % B;
    WrapOnce(y1, p2);
    ghost var carry := if x1 < p2 then 1 else 0;
    Combined(p0, p1, p2, p3, p0 / HALF, p0 % HALF, x1, x1 / HALF, x1 % HALF, carry);
    LowPart(x1, p0 % HALF);
    HighFits(p3 + carry * HALF + x1 / HALF, x1 % HALF * HALF + p0 % HALF);
    if x1 < p2 {
      Unwrapped(x3 + HALF);
      x3 := (x3 + HALF) % B;
    }
    low := (x1 * HALF + p0 % HALF) % B;
    Unwrapped(x3 + x1 / HALF);
    high := (x3 + x1 / HALF) % B;
    ghost var hi, lo := high, low;
    low := (low + k) % B;
    CarryOut(hi, lo, k, low);
    if low < k {
      Unwrapped(high + 1);
      high := (high + 1) % B;
    }
  }

  lemma NoWrap(p0: nat, p1: nat)
    requires p0 <= (HALF - 1) * (HALF - 1) && p1 <= (HALF - 1) * (HALF - 1)
    ensures (p1 + p0 / HALF) % B == p1 + p0 / HALF < B
    ensures p0 == p0 / HALF * HALF + p0 % HALF
  {
  }

  lemma Unwrapped(x: nat)
    ensures x < B ==> x % B == x
  {
  }

  lemma WrapOnce(x: nat, y: nat)
    requires x < B && y < B
    ensures var s := (x + y) % B;
            s < B && s + (if s < y then B else 0) == x + y && s == s / HALF * HALF + s % HALF
  {
  }

  lemma Combined(p0: nat, p1: nat, p2: nat, p3: nat, q0: nat, r0: nat, x1: nat, q1: nat, r1: nat, carry: nat)
    requires p0 == q0 * HALF + r0 && x1 == q1 * HALF + r1 && x1 + carry * B == p1 + q0 + p2
    ensures (p3 + carry * HALF + q1) * B + (r1 * HALF + r0) == p3 * B + (p1 + p2) * HALF + p0
  {
  }

  lemma HighFits(hi: nat, lo: nat)
    ensures hi * B + lo < B * B ==> hi < B
  {
  }

  lemma LowPart(x1: nat, r0: nat)
    requires r0 < HALF
    ensures (x1 * HALF + r0) % B == x1 % HALF * HALF + r0
  {
    assert x1 * HALF + r0 == x1 / HALF * B + (x1 % HALF * HALF + r0);
  }

  lemma CarryOut(hi: nat, lo: nat, k: nat, low: nat)
    requires lo < B && k < B && hi * B + lo + k < B * B && low == (lo + k) % B
    ensures var high := if low < k then hi + 1 else hi;
            high < B && high * B + low == hi * B + lo + k
  {
  }

  lemma HalfProduct(x: nat, y: nat)
    requires x < HALF && y < HALF
    ensures x * y <= (HALF - 1) * (HALF - 1)
  {
    MulMonotone(x, HALF - 1, y);
  }

  lemma Schoolbook(a0: nat, a1: nat, b0: nat, b1: nat)
    ensures (a1 * HALF + a0) * (b1 * HALF + b0) == a1 * b1 * B + (a0 * b1 + a1 * b0) * HALF + a0 * b0
  {
    assert B == HALF * HALF;
    assert (a1 * HALF + a0) * (b1 * HALF + b0) == (a1 * HALF) * (b1 * HALF) + (a1 * HALF) * b0 + a0 * (b1 * HALF) + a0 * b0;
    assert (a1 * HALF) * (b1 * HALF) == a1 * b1 * (HALF * HALF);
    assert (a1 * HALF) * b0 == a1 * b0 * HALF && a0 * (b1 * HALF) == a0 * b1 * HALF;
  }

  class BigInteger {
    const digits: array<int>
    var count: nat

    /** The limbs in use: none above the first is a leading zero. */
    ghost predicate Valid()
      reads this, digits
    {
      digits.Length == CAPACITY && 1 <= count <= CAPACITY && AreLimbs(digits[..count]) && IsTrim(digits[..count])
    }

    ghost function Limbs(): seq<int>
      requires Valid()
      reads this, digits
    {
      digits[..count]
    }

    /** The number. */
    ghost function N(): nat
      requires Valid()
      reads this, digits
    {
      ValueOf(digits[..count])
    }

    constructor (u: nat)
      requires u < B
      ensures Valid() && fresh(digits) && N() == u && count == 1
    {
      digits := new int[CAPACITY](_ => 0);
      count := 1;
      new;
      digits[0] := u;
      OneLimb(digits[..1]);
    }

    constructor Copy(rhs: BigInteger)
      requires rhs.Valid()
      ensures Valid() && fresh(digits) && N() == rhs.N()
    {
      digits := new int[CAPACITY](_ => 0);
      count := rhs.count;
      new;
      var i := 0;
      while i < count
        invariant 0 <= i <= count == rhs.count && rhs.Valid() && digits[..i] == rhs.digits[..i]
        invariant rhs.digits[..] == old(rhs.digits[..]) && rhs.count == old(rhs.count)
      {
        digits[i] := rhs.digits[i];
        i := i + 1;
      }
    }

    /** `*this = u` */
    method Assign(u: nat)
      requires Valid() && u < B
      modifies this`count, digits
      ensures Valid() && N() == u && count == 1
    {
      digits[0] := u;
      count := 1;
      OneLimb(digits[..1]);
    }

    predicate IsZero()
      requires digits.Length > 0
      reads this, digits
    {
      count == 1 && digits[0] == 0
    }

    /** `*this == u` for a single limb. */
    predicate Is(u: nat)
      requires digits.Length > 0
      reads this, digits
    {
      count == 1 && digits[0] == u
    }

    method PushBack(digit: nat)
      requires digits.Length == CAPACITY && count < CAPACITY
      modifies this`count, digits
      ensures count == old(count) + 1 && digits[..count] == old(digits[..count]) + [digit]
    {
      digits[count] := digit;
      count := count + 1;
    }

    /** The state after an operation that leaves these limbs. */
    ghost predicate Holds(s: seq<int>)
      reads this, digits
    {
      digits.Length == CAPACITY && count <= CAPACITY && digits[..count] == s
    }

    /** `+=` */
    method Add(u: nat)
      requires Valid() && u < B && N() + u < Pow(B, CAPACITY)
      modifies this`count, digits
      ensures Valid() && N() == old(N()) + u
    {
      ghost var s := digits[..count];
      AddedLimbs(s, u);
      Propagate(u);
    }

    /** The loop of `+=`. */
    method Propagate(u: nat)
      requires Valid() && u < B && |MulAdd(digits[..count], 1, u)| <= CAPACITY
      modifies this`count, digits
      ensures Holds(MulAdd(old(digits[..count]), 1, u))
    {
      hide ValueOf, Pow, MulAdd, IsTrim;
      ghost var s, r := digits[..count], MulAdd(digits[..count], 1, u);
      var backup := digits[0];
      AddFirst(s, u);
      digits[0] := (digits[0] + u) % B;
      assert digits[..1] == [digits[0]] && IsLimb(s[0]);
      var i := 0;
      while i < count - 1
        invariant 0 <= i <= count - 1 && count == |s| && backup == s[i]
        invariant forall k | i < k < count :: digits[k] == s[k]
        invariant digits[..i + 1] + MulAdd(s[i + 1..], 1, if digits[i] < backup then 1 else 0) == r
      {
        if digits[i] >= backup {
          NoCarry(s[i + 1..]);
          assert digits[..count] == digits[..i + 1] + s[i + 1..];
          return;
        }
        backup := digits[i + 1];
        ghost var before := digits[..i + 1];
        CarryOne(s, i + 1, before, r);
        digits[i + 1] := (digits[i + 1] + 1) % B;
        assert digits[..i + 2] == before + [digits[i + 1]];
        i := i + 1;
      }
      assert s[i + 1..] == [] && digits[..count] == digits[..i + 1];
      CarryLast(if digits[i] < backup then 1 else 0);
      if digits[count - 1] < backup {
        PushBack(1);
      } else {
        assert digits[..i + 1] + [] == digits[..i + 1];
      }
    }

    // ----- multiplication

    /** `*=` by a 64-bit number */
    method Mul(u: nat)
      requires Valid() && u < B && N() * u < Pow(B, CAPACITY)
      modifies this`count, digits
      ensures Valid() && N() == old(N()) * u
    {
      ghost var s := digits[..count];
      if u == 0 {
        Assign(0);
        return;
      }
      if u == 1 {
        return;
      }
      if Is(1) {
        OneLimb(s);
        Assign(u);
        return;
      }
      MultipliedLimbs(s, u);
      MulLoop(u);
    }

    /** The loop of `*=` by a 64-bit number. */
    method MulLoop(u: nat)
      requires Valid() && u < B && |MulAdd(digits[..count], u, 0)| <= CAPACITY
      modifies this`count, digits
      ensures Holds(MulAdd(old(digits[..count]), u, 0))
    {
      hide ValueOf, Pow, MulAdd, IsTrim;
      ghost var s, r := digits[..count], MulAdd(digits[..count], u, 0);
      var k: nat := 0;
      var i := 0;
      assert s[0..] == s && digits[..0] + r == r;
      while i < count
        invariant 0 <= i <= count == |s| && k < B
        invariant forall j | i <= j < count :: digits[j] == s[j]
        invariant digits[..i] + MulAdd(s[i..], u, k) == r
      {
        ghost var before, x := digits[..i], s[i];
        assert IsLimb(s[i]);
        var low, high := MulAdd64(digits[i], u, k);
        MulStep(s, i, u, k, low, high, before, r);
        digits[i] := low;
        assert digits[..i + 1] == before + [low];
        k := high;
        i := i + 1;
      }
      MulEnds(s, u, k);
      assert digits[..count] + [] == digits[..count];
      if k > 0 {
        PushBack(k);
      }
    }

    /** `*=` by a 32-bit number */
    method Mul32(u: nat)
      requires Valid() && u < HALF && N() * u < Pow(B, CAPACITY)
      modifies this`count, digits
      ensures Valid() && N() == old(N()) * u
    {
      hide Pow, MulAdd;
      ghost var s := digits[..count];
      if u == 0 {
        Assign(0);
        return;
      }
      if u == 1 {
        return;
      }
      if Is(1) {
        OneLimb(s);
        Assign(u);
        return;
      }
      MultipliedLimbs(s, u);
      Mul32Loop(u);
    }

    /** The loop of `*=` by a 32-bit number, in 64-bit arithmetic that does not wrap. */
    method Mul32Loop(u: nat)
      requires Valid() && u < HALF && |MulAdd(digits[..count], u, 0)| <= CAPACITY
      modifies this`count, digits
      ensures Holds(MulAdd(old(digits[..count]), u, 0))
    {
      hide ValueOf, Pow, MulAdd, IsTrim;
      ghost var s, r := digits[..count], MulAdd(digits[..count], u, 0);
      var k: nat := 0;
      var i := 0;
      assert s[0..] == s && digits[..0] + r == r;
      while i < count
        invariant 0 <= i <= count == |s| && k < HALF
        invariant forall j | i <= j < count :: digits[j] == s[j]
        invariant digits[..i] + MulAdd(s[i..], u, k) == r
      {
        ghost var before := digits[..i];
        assert IsLimb(s[i]);
        var low, high := MulHalves(digits[i], u, k);
        MulStep(s, i, u, k, low, high, before, r);
        digits[i] := low;
        assert digits[..i + 1] == before + [low];
        k := high;
        i := i + 1;
      }
      MulEnds(s, u, k);
      assert digits[..count] + [] == digits[..count];
      if k > 0 {
        PushBack(k);
      }
    }

    /** `MultiplyPow5` */
    method MultiplyPow5(exp: nat)
      requires Valid() && N() * Pow(5, exp) < Pow(B, CAPACITY)
      modifies this`count, digits
      ensures Valid() && N() == old(N()) * Pow(5, exp)
    {
      hide ValueOf, Pow;
      var e: nat := exp;
      PowersOf5();
      PowZero(5);
      while e >= 27
        invariant Valid() && e <= exp && N() * Pow(5, e) == old(N()) * Pow(5, exp)
      {
        FactorOut(N(), e, 27, Pow(B, CAPACITY));
        Mul(0x6765C793_FA10079D);
        e := e - 27;
      }
      while e >= 13
        invariant Valid() && e < 27 && N() * Pow(5, e) == old(N()) * Pow(5, exp)
      {
        FactorOut(N(), e, 13, Pow(B, CAPACITY));
        Mul32(1220703125);
        e := e - 13;
      }
      if e > 0 {
        SmallPowersOf5(e);
        Mul32(Pow5Table(e - 1));
      } else {
        assert N() * 1 == N();
      }
    }

    // ----- shifting

    /** `<<=`; a shift that is not by whole limbs needs one limb more than are in use afterwards. */
    method ShiftLeft(shift: nat)
      requires Valid() && N() * Pow(2, shift) < Pow(B, CAPACITY)
      requires !IsZero() && shift % 64 != 0 ==> count + shift / 64 < CAPACITY
      modifies this`count, digits
      ensures Valid() && N() == old(N()) * Pow(2, shift)
    {
      hide ValueOf, Pow, MulAdd, IsTrim, AreLimbs, Zeros;
      ghost var s := digits[..count];
      if IsZero() || shift == 0 {
        OneLimbIf(s);
        PowZero(2);
        return;
      }
      var offset, interShift := shift / 64, shift % 64;
      NotZero(s);
      ShiftedLimbs(s, shift, offset, interShift);
      ghost var high := HighLimbs(s, interShift);
      if interShift == 0 {
        MoveUp(offset);
        count := count + offset;
      } else {
        ShiftUp(offset, interShift);
      }
      ghost var all := digits[..];
      Clear(offset);
      JoinedLimbs(all, digits[..], offset, count, high);
    }

    /** Moves the limbs in use up by `offset` places, the highest first. */
    method MoveUp(offset: nat)
      requires Valid() && count + offset <= CAPACITY
      modifies digits
      ensures digits[offset..offset + count] == old(digits[..count])
    {
      var i := count;
      while i > 0
        invariant 0 <= i <= count
        invariant forall j | 0 <= j < i :: digits[j] == old(digits[j])
        invariant forall j | i <= j < count :: digits[j + offset] == old(digits[j])
      {
        i := i - 1;
        digits[i + offset] := digits[i];
      }
    }

    /** Moves the limbs up by `offset` places and `interShift` bits, the highest first.  The two parts that the
        program joins with a bitwise or have no bits in common, so they are added here. */
    method ShiftUp(offset: nat, interShift: nat)
      requires Valid() && 0 < interShift < 64 && count + offset < CAPACITY
      modifies this`count, digits
      ensures digits.Length == CAPACITY && offset <= count <= CAPACITY
      ensures 0 < Pow(2, interShift) < B && digits[offset..count] == MulAdd(old(digits[..count]), Pow(2, interShift), 0)
    {
      hide ValueOf, Pow, MulAdd, AreLimbs, IsTrim, ShiftedLimb;
      ghost var s := digits[..count];
      PowersOf2(interShift);
      var u, w := Pow(2, interShift), Pow(2, 64 - interShift);
      digits[count] := 0;
      var i := count;
      while i > 0
        invariant 0 <= i <= count == |s|
        invariant forall j | 0 <= j <= i :: digits[j] == if j == |s| then 0 else s[j]
        invariant forall j | i < j <= count :: digits[j + offset] == ShiftedLimb(s, u, w, j)
      {
        ShiftedLimbIs(s, u, w, i);
        digits[i + offset] := digits[i] * u % B + digits[i - 1] / w;
        i := i - 1;
      }
      ShiftedLimbIs(s, u, w, 0);
      digits[offset] := digits[0] * u % B;
      assert forall j | 0 <= j <= |s| :: digits[offset..offset + |s| + 1][j] == ShiftedLimb(s, u, w, j);
      ShiftedAll(s, u, w, digits[offset..offset + |s| + 1]);
      count := count + offset;
      if digits[count] != 0 {
        count := count + 1;
      }
    }

    /** `memset` of the lowest limbs */
    method Clear(n: nat)
      requires digits.Length == CAPACITY && n <= CAPACITY
      modifies digits
      ensures digits[..n] == Zeros(n) && digits[n..] == old(digits[n..])
    {
      var i := 0;
      while i < n
        invariant 0 <= i <= n && (forall j | 0 <= j < i :: digits[j] == 0)
        invariant forall j | n <= j < CAPACITY :: digits[j] == old(digits[j])
      {
        digits[i] := 0;
        i := i + 1;
      }
    }

    // ----- order and difference

    /** `Compare` is the order of the numbers. */
    method Compare(rhs: BigInteger) returns (c: int)
      requires Valid() && rhs.Valid()
      ensures c == if N() < rhs.N() then -1 else if N() > rhs.N() then 1 else 0
      ensures c == 0 ==> Limbs() == rhs.Limbs()
    {
      hide ValueOf, AreLimbs;
      if count != rhs.count {
        if count < rhs.count {
          LongerIsGreater(digits[..count], rhs.digits[..rhs.count]);
          return -1;
        }
        LongerIsGreater(rhs.digits[..rhs.count], digits[..count]);
        return 1;
      }
      var i := count;
      while i > 0
        invariant 0 <= i <= count && forall j | i <= j < count :: digits[j] == rhs.digits[j]
      {
        i := i - 1;
        if digits[i] != rhs.digits[i] {
          if digits[i] < rhs.digits[i] {
            HighestDecides(digits[..count], rhs.digits[..rhs.count], i);
            return -1;
          }
          HighestDecides(rhs.digits[..rhs.count], digits[..count], i);
          return 1;
        }
      }
      assert digits[..count] == rhs.digits[..rhs.count];
      c := 0;
    }

    /** `Difference`, for operands that need not differ, as when assertions are off: then nothing but zeros is
        written and the count stays as it was.  For operands that do differ, every borrow that is lost adds its
        weight to the result. */
    method Difference(rhs: BigInteger, out: BigInteger) returns (less: bool)
      requires Valid() && rhs.Valid() && out.Valid()
      requires out.digits != digits && out.digits != rhs.digits && out != this && out != rhs
      modifies out`count, out.digits
      ensures Valid() && rhs.Valid() && less == (N() < rhs.N())
      ensures N() > rhs.N() ==> out.Valid() && out.N() == N() - rhs.N() + Lost(Limbs(), rhs.Limbs(), 0)
      ensures N() < rhs.N() ==> out.Valid() && out.N() == rhs.N() - N() + Lost(rhs.Limbs(), Limbs(), 0)
      ensures N() == rhs.N() && old(out.count) == 1 ==> out.Valid() && out.N() == 0
    {
      hide ValueOf, Lost, AreLimbs, IsTrim;
      var cmp := Compare(rhs);
      if cmp < 0 {
        GreaterIsLonger(digits[..count], rhs.digits[..rhs.count]);
        SubtractLimbs(rhs, this, out);
        less := true;
      } else {
        GreaterIsLonger(rhs.digits[..rhs.count], digits[..count]);
        SubtractLimbs(this, rhs, out);
        less := false;
      }
    }

    /** The loop of `Difference`. */
    static method SubtractLimbs(a: BigInteger, b: BigInteger, out: BigInteger)
      requires a.Valid() && b.Valid() && out.Valid() && b.count <= a.count
      requires out.digits != a.digits && out.digits != b.digits && out != a && out != b
      modifies out`count, out.digits
      ensures a.Valid() && b.Valid()
      ensures b.N() < a.N() ==> out.Valid() && out.N() == a.N() - b.N() + Lost(a.Limbs(), b.Limbs(), 0)
      ensures a.Limbs() == b.Limbs() && old(out.count) == 1 ==> out.Valid() && out.N() == 0
    {
      hide ValueOf, Lost, AreLimbs, IsTrim, Sub, LastSet;
      ghost var s, t := a.digits[..a.count], b.digits[..b.count];
      out.StoreDifference(a, b);
      DifferenceLimbs(s, t, old(out.count), out.count);
      if b.N() < a.N() {
        assert out.digits[..out.count] == out.digits[..|s|][..out.count];
      }
      if s == t && old(out.count) == 1 {
        assert out.digits[..1] == out.digits[..|s|][..1];
      }
    }

    /** Stores the limbs of a difference here. */
    method StoreDifference(a: BigInteger, b: BigInteger)
      requires a.Valid() && b.Valid() && Valid() && b.count <= a.count
      requires digits != a.digits && digits != b.digits && this != a && this != b
      modifies this`count, digits
      ensures digits[..a.count] == Sub(old(a.digits[..a.count]), old(b.digits[..b.count]), 0)
      ensures LastSet(digits[..a.count], old(count), count)
    {
      hide ValueOf, Sub, SubLimb, NextBorrow, IsTrim, LastSet, Above;
      ghost var s, t := a.digits[..a.count], b.digits[..b.count];
      ghost var d := Sub(s, t, 0);
      var borrow, i := 0, 0;
      SubBegins(s, t, old(count));
      assert digits[..0] == [] && [] + d == d;
      while i < a.count
        invariant 0 <= i <= a.count
        invariant digits[..i] + Sub(s[i..], Above(t, i), borrow) == d
        invariant LastSet(digits[..i], old(count), count)
      {
        ghost var before := digits[..i];
        SubOneMore(s, t, i, borrow, before, d);
        var x := a.digits[i];
        var digit := (x - borrow) % B;
        if i < b.count {
          digit := (digit - b.digits[i]) % B;
        }
        TwoSteps(x, if i < |t| then t[i] else 0, borrow);
        LastSetMore(before, digit, old(count), count);
        borrow := if digit > x then 1 else 0;
        digits[i] := digit;
        assert digits[..i + 1] == before + [digit];
        if digit != 0 {
          count := i + 1;
        }
        i := i + 1;
      }
      SubEnds(s, t, borrow);
      assert digits[..i] + [] == digits[..i];
    }

    // ----- decimals

    /** The constructor from a string of decimal digits; nineteen at a time. */
    constructor FromDecimals(decimals: seq<int>)
      requires |decimals| > 0 && AllDigits(decimals) && DecimalValue(decimals) < Pow(B, CAPACITY - 1)
      ensures Valid() && fresh(digits) && N() == DecimalValue(decimals)
    {
      digits := new int[CAPACITY](_ => 0);
      count := 1;
      new;
      hide ValueOf, Pow, DecimalValue;
      digits[0] := 0;
      OneLimb(digits[..1]);
      NoDecimals();
      assert decimals[..0] == [];
      var i, length := 0, |decimals|;
      while length >= 19
        invariant Valid() && 0 <= i && 0 <= length && i + length == |decimals| && N() == DecimalValue(decimals[..i]) && fresh(digits)
      {
        DecimalsMore(decimals, i, i + 19);
        AppendDecimal64(decimals[i..i + 19]);
        length := length - 19;
        i := i + 19;
      }
      if length > 0 {
        DecimalsMore(decimals, i, i + length);
        AppendDecimal64(decimals[i..i + length]);
        assert decimals[..i + length] == decimals;
      } else {
        assert decimals[..i] == decimals;
      }
    }

    /** `*this = *this * 10^n + u`, where `u` has `n` digits */
    method AppendDecimal64(part: seq<int>)
      requires Valid() && 0 < |part| <= 19 && AllDigits(part)
      requires N() * Pow(10, |part|) + DecimalValue(part) < Pow(B, CAPACITY - 1)
      modifies this`count, digits
      ensures Valid() && N() == old(N()) * Pow(10, |part|) + DecimalValue(part)
    {
      hide ValueOf, Pow, DecimalValue, IsTrim;
      var u := ParseUint64(part);
      ghost var n, e := N(), |part|;
      if IsZero() {
        OneLimb(digits[..1]);
        Assign(u);
        assert 0 * Pow(10, e) == 0;
      } else {
        PowersOf10(n, e, Pow(B, CAPACITY - 1));
        PowMonotone(B, CAPACITY - 1, CAPACITY);
        MultiplyPow5(|part|);
        ShortEnough(digits[..count]);
        ShiftLeft(|part|);
        Add(u);
      }
    }

    static method ParseUint64(part: seq<int>) returns (r: nat)
      requires |part| <= 19 && AllDigits(part)
      ensures r == DecimalValue(part) < B
    {
      hide DecimalValue, Pow;
      r := 0;
      NoDecimals();
      assert part[..0] == [];
      var p := 0;
      while p < |part|
        invariant 0 <= p <= |part| && r == DecimalValue(part[..p]) < Pow(10, p)
      {
        OneDecimal(part, p);
        NineteenDigits(p + 1);
        r := (r * 10 + (part[p] - DIGIT_0)) % B;
        p := p + 1;
      }
      assert part[..p] == part;
      NineteenDigits(p);
    }
  }

  lemma AddedLimbs(s: seq<int>, u: nat)
    requires AreLimbs(s) && IsTrim(s) && u < B && ValueOf(s) + u < Pow(B, CAPACITY)
    ensures var r := MulAdd(s, 1, u);
            IsTrim(r) && |r| <= CAPACITY && ValueOf(r) == ValueOf(s) + u
  {
    hide ValueOf, Pow, MulAdd, IsTrim, AreLimbs;
    MulAddValue(s, 1, u);
    MulAddTrim(s, 1, u);
    assert ValueOf(s) * 1 == ValueOf(s);
    FitsCapacity(MulAdd(s, 1, u));
  }

  method MulHalves(x: nat, u: nat, k: nat) returns (low: nat, high: nat)
    requires x < B && u < HALF && k < HALF
    ensures low < B && high < HALF && high * B + low == x * u + k
  {
    var c, d := x / HALF, x % HALF;
    HalfProduct(u, c);
    HalfProduct(u, d);
    HalvesProduct(x, u, c, d);
    var uc, ud := u * c, u * d;
    HalfSum(ud, k);
    var p0 := (ud + k) % B;
    HalfSum(uc, p0 / HALF);
    var p1 := (uc + p0 / HALF) % B;
    LowPart(p1, 0);
    low := p0 % HALF + p1 * HALF % B;
    high := p1 / HALF;
  }

  /** A product of halves and a half do not wrap. */
  lemma HalfSum(p: nat, k: nat)
    requires p <= (HALF - 1) * (HALF - 1) && k < HALF
    ensures var s := p + k;
            s % B == s && s / HALF < HALF && s == s / HALF * HALF + s % HALF
  {
  }

  lemma HalvesProduct(x: nat, u: nat, c: nat, d: nat)
    requires x == c * HALF + d
    ensures x * u == u * c * HALF + u * d
  {
    assert (c * HALF) * u == u * c * HALF;
  }

  lemma OneLimb(s: seq<int>)
    requires |s| == 1 && IsLimb(s[0])
    ensures AreLimbs(s) && IsTrim(s) && ValueOf(s) == s[0]
  {
    assert s[1..] == [];
  }

  /** A trim list of limbs whose value is below the greatest the array can hold fits in it. */
  lemma FitsCapacity(s: seq<int>)
    requires AreLimbs(s) && IsTrim(s) && ValueOf(s) < Pow(B, CAPACITY)
    ensures |s| <= CAPACITY
  {
    hide ValueOf, Pow, IsTrim, AreLimbs;
    ValueBounds(s);
    TrimTop(s);
    if |s| > CAPACITY {
      PowMonotone(B, CAPACITY, |s| - 1);
    }
  }

  lemma TrimTop(s: seq<int>)
    requires IsTrim(s)
    ensures s != [] && (|s| > 1 ==> s[|s| - 1] != 0)
  {
  }

  lemma AddFirst(s: seq<int>, u: nat)
    requires AreLimbs(s) && s != [] && u < B
    ensures var d := (s[0] + u) % B;
            [d] + MulAdd(s[1..], 1, if d < s[0] then 1 else 0) == MulAdd(s, 1, u)
  {
    assert IsLimb(s[0]);
  }

  lemma CarryLast(k: nat)
    requires k < B
    ensures MulAdd([], 1, k) == if k == 0 then [] else [k]
  {
  }

  lemma {:induction false} NoCarry(s: seq<int>)
    requires AreLimbs(s)
    ensures MulAdd(s, 1, 0) == s
    decreases |s|
  {
    if s != [] {
      assert IsLimb(s[0]);
      NoCarry(s[1..]);
      assert s[0] * 1 + 0 == s[0];
      assert s == [s[0]] + s[1..];
    }
  }

  lemma CarryOne(s: seq<int>, i: nat, before: seq<int>, all: seq<int>)
    requires AreLimbs(s) && i < |s| && before + MulAdd(s[i..], 1, 1) == all
    ensures IsLimb(s[i])
    ensures var d := (s[i] + 1) % B;
            before + [d] + MulAdd(s[i + 1..], 1, if d < s[i] then 1 else 0) == all
  {
    assert IsLimb(s[i]) && s[i..][0] == s[i] && s[i..][1..] == s[i + 1..];
    AddFirst(s[i..], 1);
  }

  lemma MultipliedLimbs(s: seq<int>, u: nat)
    requires AreLimbs(s) && IsTrim(s) && 0 < u < B && ValueOf(s) * u < Pow(B, CAPACITY)
    ensures var r := MulAdd(s, u, 0);
            IsTrim(r) && |r| <= CAPACITY && ValueOf(r) == ValueOf(s) * u
  {
    hide ValueOf, Pow, MulAdd, IsTrim, AreLimbs;
    MulAddValue(s, u, 0);
    MulAddTrim(s, u, 0);
    FitsCapacity(MulAdd(s, u, 0));
  }

  /** One turn of a multiplication loop. */
  lemma MulStep(s: seq<int>, i: nat, u: nat, k: nat, low: nat, high: nat, before: seq<int>, r: seq<int>)
    requires AreLimbs(s) && i < |s| && u < B && k < B && IsLimb(s[i])
    requires low < B && high < B && high * B + low == s[i] * u + k
    requires before + MulAdd(s[i..], u, k) == r
    ensures before + [low] + MulAdd(s[i + 1..], u, high) == r
  {
    var t := s[i..];
    assert t[0] == s[i] && t[1..] == s[i + 1..];
    var p := s[i] * u + k;
    assert p % B == low && p / B == high;
    assert MulAdd(t, u, k) == [low] + MulAdd(t[1..], u, high);
  }

  lemma MulEnds(s: seq<int>, u: nat, k: nat)
    requires AreLimbs(s) && u < B && k < B
    ensures MulAdd(s[|s|..], u, k) == if k == 0 then [] else [k]
  {
    assert s[|s|..] == [];
  }

  // ----- powers

  lemma PowZero(b: nat)
    ensures Pow(b, 0) == 1
  {
  }

  lemma {:induction false} PowTable5(n: nat, p: nat)
    requires n > 0 && Pow(5, n - 1) == p
    ensures Pow(5, n) == 5 * p
  {
  }

  /** `kPow5` */
  function Pow5Table(i: nat): nat
    requires i < 12
  {
    match i
    case 0 => 5
    case 1 => 25
    case 2 => 125
    case 3 => 625
    case 4 => 3125
    case 5 => 15625
    case 6 => 78125
    case 7 => 390625
    case 8 => 1953125
    case 9 => 9765625
    case 10 => 48828125
    case _ => 244140625
  }

  lemma {:induction false} SmallPowersOf5(e: nat)
    requires 0 < e <= 12
    ensures Pow5Table(e - 1) == Pow(5, e)
  {
    if e > 1 {
      SmallPowersOf5(e - 1);
    }
  }

  lemma PowersOf5()
    ensures Pow(5, 13) == 1220703125 && Pow(5, 27) == 0x6765C793_FA10079D
  {
    SmallPowersOf5(12);
    PowTable5(13, 244140625);
    PowAdd(5, 13, 13);
    PowTable5(27, 1220703125 * 1220703125);
  }

  lemma PowersOf2(k: nat)
    requires 0 < k < 64
    ensures Divides(Pow(2, k), Pow(2, 64 - k)) && Pow(2, k) < B
  {
    BaseIsPower();
    PowAdd(2, k, 64 - k);
    PowPositive(2, k);
    PowPositive(2, 63 - k);
    assert Pow(2, 64 - k) == 2 * Pow(2, 63 - k);
    MulMonotone(2, Pow(2, 64 - k), Pow(2, k));
  }

  lemma BaseIsPower()
    ensures Pow(2, 64) == B
  {
    assert Pow(2, 4) == 16;
    PowAdd(2, 4, 4);
    PowAdd(2, 8, 8);
    PowAdd(2, 16, 16);
    PowAdd(2, 32, 32);
  }

  lemma {:induction false} PowOfBase(k: nat)
    ensures Pow(2, 64 * k) == Pow(B, k)
    decreases k
  {
    if k > 0 {
      BaseIsPower();
      PowOfBase(k - 1);
      PowAdd(2, 64, 64 * (k - 1));
    }
  }

  /** Multiplying by a part of a power first. */
  lemma FactorOut(n: nat, e: nat, m: nat, limit: nat)
    requires m <= e
    ensures n * Pow(5, m) * Pow(5, e - m) == n * Pow(5, e)
    ensures n * Pow(5, e) < limit ==> n * Pow(5, m) < limit
  {
    hide Pow;
    PowAdd(5, m, e - m);
    var p, q := Pow(5, m), Pow(5, e - m);
    assert n * p * q == n * (p * q);
    PowPositive(5, e - m);
    MulMonotone(1, q, n * p);
  }

  // ----- shifts

  lemma OneLimbIf(s: seq<int>)
    requires AreLimbs(s)
    ensures |s| == 1 && s[0] == 0 ==> ValueOf(s) == 0
  {
    if |s| == 1 {
      OneLimb(s);
    }
  }

  /** Limb `j` of a number shifted by less than a limb; one limb more than the number has. */
  function ShiftedLimb(s: seq<int>, u: nat, w: nat, j: nat): int
    requires j <= |s| && w > 0
  {
    (if j == |s| then 0 else s[j] * u % B) + if j == 0 then 0 else s[j - 1] / w
  }

  lemma ShiftedLimbIs(s: seq<int>, u: nat, w: nat, j: nat)
    requires j <= |s| && w > 0
    ensures ShiftedLimb(s, u, w, j) == (if j == |s| then 0 else s[j] * u % B) + if j == 0 then 0 else s[j - 1] / w
    ensures 0 * u % B == 0
  {
  }

  lemma ShiftedAll(s: seq<int>, u: nat, w: nat, d: seq<int>)
    requires AreLimbs(s) && s != [] && u < B && Divides(u, w) && |d| == |s| + 1
    requires forall j | 0 <= j <= |s| :: d[j] == ShiftedLimb(s, u, w, j)
    ensures MulAdd(s, u, 0) == if d[|s|] == 0 then d[..|s|] else d
  {
    var r := MulAdd(s, u, 0);
    MulAddTop(s, u, w, 0);
    forall j | 0 <= j < |s|
      ensures r[j] == d[j]
    {
      MulAddLimb(s, u, w, 0, j);
      ShiftParts(s[j], u, w);
    }
    hide MulAdd;
  }

  lemma NotZero(s: seq<int>)
    requires IsTrim(s) && !(|s| == 1 && s[0] == 0)
    ensures s != [] && s[|s| - 1] != 0
  {
  }

  /** Zeros below, and above what was there before. */
  lemma JoinedLimbs(before: seq<int>, after: seq<int>, offset: nat, count: nat, high: seq<int>)
    requires offset <= count <= |before| == |after| && before[offset..count] == high
    requires after[..offset] == Zeros(offset) && after[offset..] == before[offset..]
    ensures after[..count] == Zeros(offset) + high
  {
    assert after[offset..count] == after[offset..][..count - offset] == before[offset..count];
    assert after[..count] == after[..offset] + after[offset..count];
  }

  lemma SmallPower(k: nat)
    requires k < 64
    ensures 0 < Pow(2, k) < B && (k == 0 ==> Pow(2, k) == 1)
  {
    if k > 0 {
      PowersOf2(k);
    }
  }

  lemma Reorder(n: nat, p: nat, u: nat)
    ensures p * (n * u) == n * (p * u)
  {
  }

  lemma TrimOnZeros(n: nat, s: seq<int>)
    requires s != [] && s[|s| - 1] != 0
    ensures IsTrim(Zeros(n) + s)
  {
  }

  /** The limbs in use after a shift, above the zeros. */
  function HighLimbs(s: seq<int>, interShift: nat): seq<int>
    requires AreLimbs(s) && interShift < 64 && 0 < Pow(2, interShift) < B
  {
    if interShift == 0 then s else MulAdd(s, Pow(2, interShift), 0)
  }

  lemma HighLimbsValue(s: seq<int>, interShift: nat)
    requires AreLimbs(s) && s != [] && s[|s| - 1] != 0 && interShift < 64
    ensures 0 < Pow(2, interShift) < B
    ensures var high := HighLimbs(s, interShift);
            AreLimbs(high) && high != [] && high[|high| - 1] != 0 && ValueOf(high) == ValueOf(s) * Pow(2, interShift)
  {
    hide ValueOf, Pow, MulAdd, IsTrim, AreLimbs;
    SmallPower(interShift);
    if interShift == 0 {
      assert ValueOf(s) * 1 == ValueOf(s);
    } else {
      MulAddValue(s, Pow(2, interShift), 0);
      MulAddTrim(s, Pow(2, interShift), 0);
    }
  }

  /** The limbs after a shift. */
  lemma ShiftedLimbs(s: seq<int>, shift: nat, offset: nat, interShift: nat)
    requires AreLimbs(s) && s != [] && s[|s| - 1] != 0 && ValueOf(s) * Pow(2, shift) < Pow(B, CAPACITY)
    requires offset == shift / 64 && interShift == shift % 64
    ensures 0 < Pow(2, interShift) < B
    ensures var r := Zeros(offset) + HighLimbs(s, interShift);
            AreLimbs(r) && IsTrim(r) && |r| <= CAPACITY && ValueOf(r) == ValueOf(s) * Pow(2, shift)
  {
    hide ValueOf, Pow, MulAdd, IsTrim, AreLimbs, HighLimbs, Zeros;
    HighLimbsValue(s, interShift);
    var high := HighLimbs(s, interShift);
    PowOfBase(offset);
    PowAdd(2, 64 * offset, interShift);
    ZerosValue(offset, high);
    Reorder(ValueOf(s), Pow(B, offset), Pow(2, interShift));
    TrimOnZeros(offset, high);
    FitsCapacity(Zeros(offset) + high);
  }

  // ----- differences

  lemma GreaterIsLonger(a: seq<int>, b: seq<int>)
    requires AreLimbs(a) && AreLimbs(b) && IsTrim(a) && IsTrim(b) && ValueOf(a) <= ValueOf(b)
    ensures |a| <= |b|
  {
    if |a| > |b| {
      LongerIsGreater(b, a);
    }
    hide ValueOf;
  }

  /** The limbs from the `i`-th on. */
  function Above(t: seq<int>, i: nat): seq<int> {
    if i <= |t| then t[i..] else []
  }

  lemma SubOneMore(s: seq<int>, t: seq<int>, i: nat, borrow: int, before: seq<int>, d: seq<int>)
    requires i < |s| && before + Sub(s[i..], Above(t, i), borrow) == d
    ensures var y := if i < |t| then t[i] else 0;
            before + [SubLimb(s[i], y, borrow)] + Sub(s[i + 1..], Above(t, i + 1), NextBorrow(s[i], y, borrow)) == d
  {
    assert s[i..][0] == s[i] && s[i..][1..] == s[i + 1..];
    assert RestOf(Above(t, i)) == Above(t, i + 1) && LimbAt(Above(t, i)) == if i < |t| then t[i] else 0;
    hide SubLimb, NextBorrow;
  }

  /** Subtracting the borrow and then the limb, each modulo the base. */
  lemma TwoSteps(x: int, y: int, borrow: int)
    ensures ((x - borrow) % B - y) % B == SubLimb(x, y, borrow)
    ensures SubLimb(x, 0, borrow) == (x - borrow) % B
    ensures NextBorrow(x, y, borrow) == if SubLimb(x, y, borrow) > x then 1 else 0
  {
  }

  lemma SubBegins(s: seq<int>, t: seq<int>, count: nat)
    ensures s[0..] == s && Above(t, 0) == t && LastSet([], count, count)
  {
  }

  lemma SubEnds(s: seq<int>, t: seq<int>, borrow: int)
    ensures Sub(s[|s|..], Above(t, |s|), borrow) == []
  {
  }

  /** The count that the loop keeps: just above the last limb that is not zero, if there is one. */
  predicate LastSet(d: seq<int>, initial: nat, count: nat) {
    if forall j | 0 <= j < |d| :: d[j] == 0 then count == initial
    else 0 < count <= |d| && d[count - 1] != 0 && forall j | count <= j < |d| :: d[j] == 0
  }

  lemma LastSetMore(d: seq<int>, digit: int, initial: nat, count: nat)
    requires LastSet(d, initial, count)
    ensures LastSet(d + [digit], initial, if digit != 0 then |d| + 1 else count)
  {
    var e := d + [digit];
    assert e[|d|] == digit;
    if digit == 0 && (forall j | 0 <= j < |d| :: d[j] == 0) {
      assert forall j | 0 <= j < |e| :: e[j] == 0;
    }
    if j :| 0 <= j < |d| && d[j] != 0 {
      assert e[j] != 0;
    }
  }

  lemma {:induction false} AllZero(d: seq<int>)
    requires AreLimbs(d)
    ensures ValueOf(d) == 0 <==> forall j | 0 <= j < |d| :: d[j] == 0
    decreases |d|
  {
    if d != [] {
      assert IsLimb(d[0]);
      AllZero(d[1..]);
      if forall j | 0 <= j < |d| :: d[j] == 0 {
        assert forall j | 0 <= j < |d| - 1 :: d[1..][j] == 0;
      } else if d[0] == 0 {
        var j :| 0 <= j < |d| && d[j] != 0;
        assert d[1..][j - 1] != 0;
      }
    }
  }

  lemma ZerosAbove(d: seq<int>, count: nat)
    requires AreLimbs(d) && count <= |d| && forall j | count <= j < |d| :: d[j] == 0
    ensures AreLimbs(d[..count]) && ValueOf(d[..count]) == ValueOf(d)
  {
    assert d == d[..count] + d[count..];
    AllZero(d[count..]);
    ValueOfCat(d[..count], d[count..]);
    assert Pow(B, count) * 0 == 0;
    hide ValueOf, Pow;
  }

  /** What the subtraction loop leaves. */
  lemma DifferenceLimbs(s: seq<int>, t: seq<int>, initial: nat, count: nat)
    requires AreLimbs(s) && AreLimbs(t) && |t| <= |s| && s != []
    requires LastSet(Sub(s, t, 0), initial, count)
    ensures var d := Sub(s, t, 0);
            && AreLimbs(d)
            && (ValueOf(t) < ValueOf(s) ==>
                  && 0 < count <= |d| && IsTrim(d[..count])
                  && AreLimbs(d[..count]) && ValueOf(d[..count]) == ValueOf(s) - ValueOf(t) + Lost(s, t, 0))
            && (s == t && initial == 1 ==> count == 1 && IsTrim(d[..1]) && AreLimbs(d[..1]) && ValueOf(d[..1]) == 0)
  {
    hide ValueOf, Pow, Sub, Lost, AreLimbs, IsTrim, LastSet;
    var d := Sub(s, t, 0);
    SubValue(s, t, 0);
    if ValueOf(t) < ValueOf(s) {
      ValueBounds(d);
      BorrowIsBit(s, t, 0, |s|);
      NoFinalBorrow(ValueOf(d), ValueOf(s) - ValueOf(t) + Lost(s, t, 0), Pow(B, |s|), BorrowInto(s, t, 0, |s|));
      CountedLimbs(d, initial, count);
    }
    if s == t && initial == 1 {
      SubSelf(s);
      OnlyZeros(d, initial, count);
    }
  }

  lemma NoFinalBorrow(d: nat, diff: nat, p: nat, last: int)
    requires d == diff + p * last && d < p && 0 <= last <= 1 && diff > 0
    ensures last == 0 && d == diff
  {
    assert last == 1 ==> p * last == p;
  }

  /** The difference is exact exactly when no borrow that comes in meets a limb of all ones. */
  lemma ExactByBorrows(a: seq<int>, b: seq<int>)
    requires AreLimbs(a) && AreLimbs(b) && |b| <= |a| && ValueOf(b) < ValueOf(a)
    ensures AreLimbs(Sub(a, b, 0))
    ensures ValueOf(Sub(a, b, 0)) == ValueOf(a) - ValueOf(b) <==> NoneLost(a, b, |b|)
  {
    hide ValueOf, Pow, Sub, Lost;
    SubValue(a, b, 0);
    ValueBounds(Sub(a, b, 0));
    BorrowIsBit(a, b, 0, |a|);
    NoFinalBorrow(ValueOf(Sub(a, b, 0)), ValueOf(a) - ValueOf(b) + Lost(a, b, 0), Pow(B, |a|), BorrowInto(a, b, 0, |a|));
    NothingLost(a, b, 0);
  }

  /** No borrow is lost below limb `i`. */
  predicate NoneLost(a: seq<int>, b: seq<int>, i: nat)
    requires i <= |b| <= |a|
  {
    forall j | 0 <= j < i :: !LosesBorrow(b[j], BorrowInto(a, b, 0, j))
  }

  lemma {:induction false} BorrowOfPrefix(a: seq<int>, b: seq<int>, borrow: int, k: nat, j: nat)
    requires j <= k <= |b| <= |a|
    ensures BorrowInto(a[..k], b[..k], borrow, j) == BorrowInto(a, b, borrow, j)
    decreases j
  {
    if j > 0 {
      assert a[..k][1..] == a[1..][..k - 1] && b[..k][1..] == b[1..][..k - 1];
      BorrowOfPrefix(a[1..], b[1..], NextBorrow(a[0], b[0], borrow), k - 1, j - 1);
    }
  }

  /** As long as none is lost, the borrow that comes into a limb is what the lower limbs lack. */
  lemma BorrowIsNeeded(a: seq<int>, b: seq<int>, i: nat)
    requires AreLimbs(a) && AreLimbs(b) && i <= |b| <= |a| && NoneLost(a, b, i)
    ensures BorrowInto(a, b, 0, i) == if ValueOf(a[..i]) < ValueOf(b[..i]) then 1 else 0
  {
    hide ValueOf, BorrowInto;
    var x, y := a[..i], b[..i];
    forall j | 0 <= j < i
      ensures !LosesBorrow(y[j], BorrowInto(x, y, 0, j))
    {
      BorrowOfPrefix(a, b, 0, i, j);
    }
    BorrowOfPrefix(a, b, 0, i, i);
    LastBorrow(x, y);
  }

  lemma LastBorrow(x: seq<int>, y: seq<int>)
    requires AreLimbs(x) && AreLimbs(y) && |x| == |y| && NoneLost(x, y, |y|)
    ensures BorrowInto(x, y, 0, |x|) == if ValueOf(x) < ValueOf(y) then 1 else 0
  {
    hide ValueOf, Pow, Sub, Lost, LosesBorrow, BorrowInto, AreLimbs;
    NothingLost(x, y, 0);
    SubValue(x, y, 0);
    ValueBounds(Sub(x, y, 0));
    BorrowIsBit(x, y, 0, |x|);
    BitMeans(ValueOf(Sub(x, y, 0)), ValueOf(x), ValueOf(y), Pow(B, |x|), BorrowInto(x, y, 0, |x|));
  }

  lemma BitMeans(d: nat, x: nat, y: nat, p: nat, borrow: int)
    requires d + y == x + p * borrow && d < p && 0 <= borrow <= 1
    ensures borrow == if x < y then 1 else 0
  {
  }

  lemma {:induction false} NoneLostBelow(a: seq<int>, b: seq<int>, i: nat)
    requires AreLimbs(a) && AreLimbs(b) && i <= |b| <= |a|
    requires forall j | 0 <= j < i && b[j] == B - 1 :: ValueOf(a[..j]) >= ValueOf(b[..j])
    ensures NoneLost(a, b, i)
    decreases i
  {
    if i > 0 {
      NoneLostBelow(a, b, i - 1);
      BorrowIsNeeded(a, b, i - 1);
    }
  }

  /** The difference is exact exactly when, wherever the smaller number has a limb of all ones, the limbs below that one
      do not need a borrow. */
  lemma DifferenceExactness(a: seq<int>, b: seq<int>)
    requires AreLimbs(a) && AreLimbs(b) && |b| <= |a| && ValueOf(b) < ValueOf(a)
    ensures AreLimbs(Sub(a, b, 0))
    ensures ValueOf(Sub(a, b, 0)) == ValueOf(a) - ValueOf(b)
       <==> forall i | 0 <= i < |b| && b[i] == B - 1 :: ValueOf(a[..i]) >= ValueOf(b[..i])
  {
    hide ValueOf, Sub;
    ExactByBorrows(a, b);
    if NoneLost(a, b, |b|) {
      forall i | 0 <= i < |b| && b[i] == B - 1
        ensures ValueOf(a[..i]) >= ValueOf(b[..i])
      {
        BorrowIsNeeded(a, b, i);
      }
    } else if forall i | 0 <= i < |b| && b[i] == B - 1 :: ValueOf(a[..i]) >= ValueOf(b[..i]) {
      NoneLostBelow(a, b, |b|);
    }
  }

  /** 2^128 less 2^128 - 2^64 + 1 should be 2^64 - 1, and comes out 2^128 too large. */
  lemma DifferenceIsNotExact()
    ensures AreLimbs([0, 0, 1]) && AreLimbs([1, B - 1]) && ValueOf([0, 0, 1]) - ValueOf([1, B - 1]) == B - 1
    ensures Sub([0, 0, 1], [1, B - 1], 0) == [B - 1, 0, 1] && ValueOf([B - 1, 0, 1]) == B - 1 + B * B
  {
    assert [0, 0, 1][1..] == [0, 1] && [0, 1][1..] == [1] && [1][1..] == [];
    assert [1, B - 1][1..] == [B - 1] && [B - 1][1..] == [];
    assert [B - 1, 0, 1][1..] == [0, 1];
    assert ValueOf([1]) == 1 && ValueOf([0, 1]) == B && ValueOf([B - 1]) == B - 1;
    assert Sub([1], [], 0) == [1] && Sub([0, 1], [B - 1], 1) == [0, 1];
  }

  /** Up to its last limb that is not zero. */
  lemma CountedLimbs(d: seq<int>, initial: nat, count: nat)
    requires AreLimbs(d) && ValueOf(d) > 0 && LastSet(d, initial, count)
    ensures 0 < count <= |d| && IsTrim(d[..count]) && AreLimbs(d[..count]) && ValueOf(d[..count]) == ValueOf(d)
  {
    hide ValueOf;
    AllZero(d);
    ZerosAbove(d, count);
  }

  lemma OnlyZeros(d: seq<int>, initial: nat, count: nat)
    requires d != [] && (forall j | 0 <= j < |d| :: d[j] == 0) && LastSet(d, initial, count)
    ensures count == initial && IsTrim(d[..1]) && AreLimbs(d[..1]) && ValueOf(d[..1]) == 0
  {
    OneLimb(d[..1]);
    hide ValueOf;
  }

  lemma {:induction false} SubSelf(s: seq<int>)
    requires AreLimbs(s)
    ensures forall j | 0 <= j < |s| :: Sub(s, s, 0)[j] == 0
    decreases |s|
  {
    if s != [] {
      assert IsLimb(s[0]) && SubLimb(s[0], s[0], 0) == 0;
      SubSelf(s[1..]);
    }
  }

  lemma {:induction false} BorrowIsBit(a: seq<int>, b: seq<int>, borrow: int, i: nat)
    requires i <= |a| && (borrow == 0 || borrow == 1)
    ensures BorrowInto(a, b, borrow, i) == 0 || BorrowInto(a, b, borrow, i) == 1
    decreases i
  {
    if i > 0 {
      BorrowIsBit(a[1..], RestOf(b), NextBorrow(a[0], LimbAt(b), borrow), i - 1);
    }
  }

  // ----- decimals

  predicate AllDigits(s: seq<int>) {
    forall i | 0 <= i < |s| :: IsDigit(s[i])
  }

  /** The number a string of decimal digits denotes. */
  function DecimalValue(s: seq<int>): nat
    requires AllDigits(s)
  {
    if s == [] then 0 else DecimalValue(s[..|s| - 1]) * 10 + (s[|s| - 1] - DIGIT_0)
  }

  lemma NoDecimals()
    ensures DecimalValue([]) == 0 && Pow(10, 0) == 1
  {
  }

  lemma OneDecimal(s: seq<int>, p: nat)
    requires AllDigits(s) && p < |s|
    ensures DecimalValue(s[..p + 1]) == DecimalValue(s[..p]) * 10 + (s[p] - DIGIT_0) && IsDigit(s[p])
    ensures Pow(10, p + 1) == 10 * Pow(10, p)
  {
    assert s[..p + 1][..p] == s[..p];
  }

  lemma NineteenDigits(n: nat)
    requires n <= 19
    ensures Pow(10, n) < B
  {
    PowMonotone(10, n, 19);
    assert Pow(10, 4) == 10000;
    PowAdd(10, 4, 4);
    PowAdd(10, 8, 8);
    PowAdd(10, 16, 3);
    assert Pow(10, 3) == 1000;
  }

  lemma {:induction false} DecimalCat(a: seq<int>, b: seq<int>)
    requires AllDigits(a) && AllDigits(b)
    ensures AllDigits(a + b) && DecimalValue(a + b) == DecimalValue(a) * Pow(10, |b|) + DecimalValue(b)
    decreases |b|
  {
    if b == [] {
      assert a + b == a;
    } else {
      var init := b[..|b| - 1];
      assert (a + b)[..|a + b| - 1] == a + init;
      DecimalCat(a, init);
      assert DecimalValue(a) * Pow(10, |init|) * 10 == DecimalValue(a) * Pow(10, |b|);
    }
  }

  lemma PrefixIsLess(s: seq<int>, j: nat)
    requires AllDigits(s) && j <= |s|
    ensures AllDigits(s[..j]) && DecimalValue(s[..j]) <= DecimalValue(s)
  {
    hide DecimalValue, Pow;
    assert s == s[..j] + s[j..];
    DecimalCat(s[..j], s[j..]);
    PowPositive(10, |s| - j);
    MulMonotone(1, Pow(10, |s| - j), DecimalValue(s[..j]));
  }

  /** The next chunk of digits. */
  lemma DecimalsMore(s: seq<int>, i: nat, j: nat)
    requires AllDigits(s) && i <= j <= |s| && DecimalValue(s) < Pow(B, CAPACITY - 1)
    ensures AllDigits(s[i..j]) && DecimalValue(s[..j]) == DecimalValue(s[..i]) * Pow(10, j - i) + DecimalValue(s[i..j])
    ensures DecimalValue(s[..j]) < Pow(B, CAPACITY - 1)
  {
    hide DecimalValue, Pow;
    assert s[..j] == s[..i] + s[i..j];
    DecimalCat(s[..i], s[i..j]);
    PrefixIsLess(s, j);
  }

  /** Ten to a power is five to the power times two to the power. */
  lemma {:induction false} FiveTimesTwo(e: nat)
    ensures Pow(10, e) == Pow(5, e) * Pow(2, e)
    decreases e
  {
    if e > 0 {
      FiveTimesTwo(e - 1);
      assert 10 * (Pow(5, e - 1) * Pow(2, e - 1)) == (5 * Pow(5, e - 1)) * (2 * Pow(2, e - 1));
    }
  }

  lemma PowersOf10(n: nat, e: nat, limit: nat)
    ensures n * Pow(5, e) * Pow(2, e) == n * Pow(10, e) && n * Pow(5, e) <= n * Pow(10, e)
  {
    hide Pow;
    FiveTimesTwo(e);
    var p, q := Pow(5, e), Pow(2, e);
    assert n * p * q == n * (p * q);
    PowPositive(2, e);
    MulMonotone(1, q, n * p);
  }

  lemma ShortEnough(s: seq<int>)
    requires AreLimbs(s) && IsTrim(s) && ValueOf(s) < Pow(B, CAPACITY - 1)
    ensures |s| <= CAPACITY - 1
  {
    hide ValueOf, Pow, IsTrim, AreLimbs;
    ValueBounds(s);
    TrimTop(s);
    if |s| > CAPACITY - 1 {
      PowMonotone(B, CAPACITY - 1, |s| - 1);
    }
  }
}
