/** `u32toa`, `i32toa`, `u64toa` and `i64toa`: two digits at a time, from a table, into a buffer. */
module Itoa {
  import opened Ascii
  import opened Texts

  // ----- numerals in pieces

  /** The table `cDigitsLut`: the numerals of 0 to 99, two digits each. */
  function DigitsLut(i: nat): int
    requires i < 200
  {
    DIGIT_0 + if i % 2 == 0 then i / 2 / 10 else i / 2 % 10
  }

  /** Two digits, leading zero included. */
  function Two(k: nat): seq<int>
    requires k < 100
  {
    [DIGIT_0 + k / 10, DIGIT_0 + k % 10]
  }

  function Four(c: nat): seq<int>
    requires c < 10000
  {
    Two(c / 100) + Two(c % 100)
  }

  function Eight(v: nat): seq<int>
    requires v < 100000000
  {
    Four(v / 10000) + Four(v % 10000)
  }

  lemma DecimalTwo(h: nat, k: nat)
    requires h > 0 && k < 100
    ensures Decimal(h * 100 + k) == Decimal(h) + Two(k)
  {
    var n := h * 100 + k;
    assert n / 10 == h * 10 + k / 10 && n % 10 == k % 10;
    assert n / 10 / 10 == h && n / 10 % 10 == k / 10;
    assert Decimal(n / 10) == Decimal(h) + [DIGIT_0 + k / 10];
  }

  lemma DecimalFour(h: nat, c: nat)
    requires h > 0 && c < 10000
    ensures Decimal(h * 10000 + c) == Decimal(h) + Four(c)
  {
    assert h * 10000 + c == (h * 100 + c / 100) * 100 + c % 100;
    DecimalTwo(h * 100 + c / 100, c % 100);
    DecimalTwo(h, c / 100);
  }

  lemma DecimalEight(h: nat, v: nat)
    requires h > 0 && v < 100000000
    ensures Decimal(h * 100000000 + v) == Decimal(h) + Eight(v)
  {
    assert h * 100000000 + v == (h * 10000 + v / 10000) * 10000 + v % 10000;
    DecimalFour(h * 10000 + v / 10000, v % 10000);
    DecimalFour(h, v / 10000);
  }

  // ----- writing

  /** `*buffer++ = c` */
  method Put(buffer: array<int>, q: nat, c: int) returns (q': nat)
    requires q < buffer.Length
    modifies buffer
    ensures q' == q + 1 && buffer[..q'] == old(buffer[..q]) + [c]
  {
    buffer[q] := c;
    q' := q + 1;
  }

  method PutTwo(buffer: array<int>, q: nat, k: nat) returns (q': nat)
    requires k < 100 && q + 2 <= buffer.Length
    modifies buffer
    ensures q' == q + 2 && buffer[..q'] == old(buffer[..q]) + Two(k)
  {
    q' := Put(buffer, q, DigitsLut(k * 2));
    q' := Put(buffer, q', DigitsLut(k * 2 + 1));
  }

  method PutFour(buffer: array<int>, q: nat, c: nat) returns (q': nat)
    requires c < 10000 && q + 4 <= buffer.Length
    modifies buffer
    ensures q' == q + 4 && buffer[..q'] == old(buffer[..q]) + Four(c)
  {
    q' := PutTwo(buffer, q, c / 100);
    q' := PutTwo(buffer, q', c % 100);
  }

  method PutEight(buffer: array<int>, q: nat, v: nat) returns (q': nat)
    requires v < 100000000 && q + 8 <= buffer.Length
    modifies buffer
    ensures q' == q + 8 && buffer[..q'] == old(buffer[..q]) + Eight(v)
  {
    q' := PutFour(buffer, q, v / 10000);
    q' := PutFour(buffer, q', v % 10000);
  }

  /** A number below 10000, without leading zeros. */
  method PutSmall(buffer: array<int>, q: nat, value: nat) returns (q': nat)
    requires value < 10000 && q + 4 <= buffer.Length
    modifies buffer
    ensures q' == q + |Decimal(value)| <= q + 4 && buffer[..q'] == old(buffer[..q]) + Decimal(value)
  {
    var d1, d2 := value / 100 * 2, value % 100 * 2;
    hide Decimal, DigitsLut;
    SmallNumeral(value);
    LutPair(value / 100);
    LutPair(value % 100);
    ghost var base, w := buffer[..q], [];
    ghost var a, b, c, d := DigitsLut(d1), DigitsLut(d1 + 1), DigitsLut(d2), DigitsLut(d2 + 1);
    q' := q;
    if value >= 1000 {
      q' := Put(buffer, q', DigitsLut(d1));
      w := [a];
    }
    assert buffer[..q'] == base + w;
    if value >= 100 {
      q' := Put(buffer, q', DigitsLut(d1 + 1));
      Assoc(base, w, [b]);
      w := if value >= 1000 then [a, b] else [b];
    }
    assert buffer[..q'] == base + w;
    if value >= 10 {
      q' := Put(buffer, q', DigitsLut(d2));
      Assoc(base, w, [c]);
      w := if value >= 1000 then [a, b, c] else if value >= 100 then [b, c] else [c];
    }
    assert buffer[..q'] == base + w;
    q' := Put(buffer, q', DigitsLut(d2 + 1));
    Assoc(base, w, [d]);
    assert w + [d] == Decimal(value);
  }

  lemma LutPair(k: nat)
    requires k < 100
    ensures DigitsLut(k * 2) == DIGIT_0 + k / 10 && DigitsLut(k * 2 + 1) == DIGIT_0 + k % 10
  {
  }

  lemma SmallNumeral(v: nat)
    requires v < 10000
    ensures var a, b, c, d := DIGIT_0 + v / 100 / 10, DIGIT_0 + v / 100 % 10, DIGIT_0 + v % 100 / 10, DIGIT_0 + v % 100 % 10;
            Decimal(v) == if v >= 1000 then [a, b, c, d] else if v >= 100 then [b, c, d] else if v >= 10 then [c, d] else [d]
  {
    hide Decimal;
    if v >= 100 {
      FourNumeral(v / 100, v % 100);
      assert v == v / 100 * 100 + v % 100;
    } else {
      TwoNumeral(v);
    }
  }

  lemma FourNumeral(h: nat, l: nat)
    requires 0 < h < 100 && l < 100
    ensures Decimal(h * 100 + l) == if h >= 10 then [DIGIT_0 + h / 10, DIGIT_0 + h % 10, DIGIT_0 + l / 10, DIGIT_0 + l % 10]
                                    else [DIGIT_0 + h % 10, DIGIT_0 + l / 10, DIGIT_0 + l % 10]
  {
    hide Decimal;
    DecimalTwo(h, l);
    TwoNumeral(h);
  }

  lemma TwoNumeral(k: nat)
    requires k < 100
    ensures Decimal(k) == if k >= 10 then [DIGIT_0 + k / 10, DIGIT_0 + k % 10] else [DIGIT_0 + k]
  {
  }

  /** A number below 10^8, without leading zeros. */
  method PutMedium(buffer: array<int>, q: nat, value: nat) returns (q': nat)
    requires value < 100000000 && q + 8 <= buffer.Length
    modifies buffer
    ensures q' == q + |Decimal(value)| <= q + 8 && buffer[..q'] == old(buffer[..q]) + Decimal(value)
  {
    if value < 10000 {
      q' := PutSmall(buffer, q, value);
    } else {
      DecimalFour(value / 10000, value % 10000);
      q' := PutSmall(buffer, q, value / 10000);
      q' := PutFour(buffer, q', value % 10000);
    }
  }

  method U32toa(value: nat, buffer: array<int>, q: nat) returns (q': nat)
    requires value < 0x1_0000_0000 && q + 10 <= buffer.Length
    modifies buffer
    ensures q' == q + |Decimal(value)| <= q + 10 && buffer[..q'] == old(buffer[..q]) + Decimal(value)
  {
    if value < 100000000 {
      q' := PutMedium(buffer, q, value);
    } else {
      var a := value / 100000000;
      DecimalEight(a, value % 100000000);
      if a >= 10 {
        assert Decimal(a) == Two(a);
        q' := PutTwo(buffer, q, a);
      } else {
        q' := Put(buffer, q, DIGIT_0 + a);
      }
      q' := PutEight(buffer, q', value % 100000000);
    }
  }

  lemma Assoc(a: seq<int>, b: seq<int>, c: seq<int>)
    ensures a + b + c == a + (b + c)
  {
  }

  method I32toa(value: int, buffer: array<int>, q: nat) returns (q': nat)
    requires -0x8000_0000 <= value < 0x8000_0000 && q + 11 <= buffer.Length
    modifies buffer
    ensures q' == q + |Signed(value)| <= q + 11 && buffer[..q'] == old(buffer[..q]) + Signed(value)
  {
    hide Decimal;
    var u := value % 0x1_0000_0000;
    q' := q;
    if value < 0 {
      q' := Put(buffer, q', DASH);
      u := (0x1_0000_0000 - u) % 0x1_0000_0000;
      Assoc(old(buffer[..q]), [DASH], Decimal(u));
    }
    q' := U32toa(u, buffer, q');
  }

  /** The digits before the last sixteen. */
  method PutTop(buffer: array<int>, q: nat, a: nat) returns (q': nat)
    requires 0 < a < 10000 && q + 4 <= buffer.Length
    modifies buffer
    ensures q' == q + |Decimal(a)| <= q + (if a < 1000 then 3 else 4)
    ensures buffer[..q'] == old(buffer[..q]) + Decimal(a)
  {
    TopNumeral(a);
    hide Decimal, Two;
    if a < 10 {
      q' := Put(buffer, q, DIGIT_0 + a);
    } else if a < 100 {
      q' := PutTwo(buffer, q, a);
    } else if a < 1000 {
      q' := Put(buffer, q, DIGIT_0 + a / 100);
      q' := PutTwo(buffer, q', a % 100);
      Assoc(old(buffer[..q]), [DIGIT_0 + a / 100], Two(a % 100));
    } else {
      q' := PutTwo(buffer, q, a / 100);
      q' := PutTwo(buffer, q', a % 100);
      Assoc(old(buffer[..q]), Two(a / 100), Two(a % 100));
    }
  }

  lemma TopNumeral(a: nat)
    requires 0 < a < 10000
    ensures Decimal(a) == if a < 10 then [DIGIT_0 + a] else if a < 100 then Two(a)
                          else if a < 1000 then [DIGIT_0 + a / 100] + Two(a % 100) else Two(a / 100) + Two(a % 100)
  {
    if a >= 1000 {
      DecimalTwo(a / 100, a % 100);
    } else if a >= 100 {
      DecimalTwo(a / 100, a % 100);
    }
  }

  /** The most characters the numeral of a number of 64 bits takes. */
  function MostDigits(value: nat): nat {
    if value < 10000000000000000000 then 19 else 20
  }

  method U64toa(value: nat, buffer: array<int>, q: nat) returns (q': nat)
    requires value < 0x1_0000_0000_0000_0000 && q + MostDigits(value) <= buffer.Length
    modifies buffer
    ensures q' == q + |Decimal(value)| <= q + MostDigits(value) && buffer[..q'] == old(buffer[..q]) + Decimal(value)
  {
    if value < 100000000 {
      q' := PutMedium(buffer, q, value);
    } else if value < 10000000000000000 {
      DecimalEight(value / 100000000, value % 100000000);
      q' := PutMedium(buffer, q, value / 100000000);
      q' := PutEight(buffer, q', value % 100000000);
    } else {
      var a, rest := value / 10000000000000000, value % 10000000000000000;
      SixteenDigits(value);
      hide Decimal, Eight;
      Assoc(buffer[..q], Decimal(a), Eight(rest / 100000000));
      Assoc(buffer[..q], Decimal(a) + Eight(rest / 100000000), Eight(rest % 100000000));
      q' := PutTop(buffer, q, a);
      q' := PutEight(buffer, q', rest / 100000000);
      q' := PutEight(buffer, q', rest % 100000000);
    }
  }

  lemma Halves(value: nat)
    ensures var rest := value % 10000000000000000;
            && value == value / 100000000 * 100000000 + value % 100000000
            && value / 10000000000000000 == value / 100000000 / 100000000
            && rest / 100000000 == value / 100000000 % 100000000 && rest % 100000000 == value % 100000000
  {
  }

  lemma SixteenDigits(value: nat)
    requires 10000000000000000 <= value
    ensures var a, rest := value / 10000000000000000, value % 10000000000000000;
            Decimal(value) == Decimal(a) + Eight(rest / 100000000) + Eight(rest % 100000000) && 0 < a
  {
    hide Decimal, Eight;
    Halves(value);
    var top, low := value / 100000000, value % 100000000;
    DecimalEight(top, low);
    DecimalEight(top / 100000000, top % 100000000);
  }

  /** The negation of the unsigned number that stands for a negative one is its magnitude. */
  lemma Magnitude(value: int)
    requires -0x8000_0000_0000_0000 <= value < 0x8000_0000_0000_0000
    ensures var u := value % 0x1_0000_0000_0000_0000;
            if value < 0 then (0x1_0000_0000_0000_0000 - u) % 0x1_0000_0000_0000_0000 == -value && MostDigits(-value) == 19
            else u == value && MostDigits(value) == 19
  {
  }

  method I64toa(value: int, buffer: array<int>, q: nat) returns (q': nat)
    requires -0x8000_0000_0000_0000 <= value < 0x8000_0000_0000_0000 && q + 20 <= buffer.Length
    modifies buffer
    ensures q' == q + |Signed(value)| <= q + 20 && buffer[..q'] == old(buffer[..q]) + Signed(value)
  {
    hide Decimal, MostDigits;
    Magnitude(value);
    var u := value % 0x1_0000_0000_0000_0000;
    q' := q;
    if value < 0 {
      q' := Put(buffer, q', DASH);
      u := (0x1_0000_0000_0000_0000 - u) % 0x1_0000_0000_0000_0000;
      Assoc(old(buffer[..q]), [DASH], Decimal(u));
    }
    q' := U64toa(u, buffer, q');
  }
}
