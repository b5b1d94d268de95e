/** The UTF-8 codec: a range table driving `Decode` and `Validate`, and the encoder, against the grammar of
    section 4 of RFC 3629. */
module Utf8 {
  import opened Streams
  import opened Texts
  import opened Wrappers

  // ----- the grammar

  predicate IsTail(b: int) {
    0x80 <= b <= 0xBF
  }

  /** `UTF8-char` of RFC 3629, section 4. */
  predicate WellFormed(s: seq<int>) {
    match |s|
    case 1 => 0x00 <= s[0] <= 0x7F
    case 2 => 0xC2 <= s[0] <= 0xDF && IsTail(s[1])
    case 3 =>
      && IsTail(s[2])
      && (|| (s[0] == 0xE0 && 0xA0 <= s[1] <= 0xBF)
          || (0xE1 <= s[0] <= 0xEC && IsTail(s[1]))
          || (s[0] == 0xED && 0x80 <= s[1] <= 0x9F)
          || (0xEE <= s[0] <= 0xEF && IsTail(s[1])))
    case 4 =>
      && IsTail(s[2]) && IsTail(s[3])
      && (|| (s[0] == 0xF0 && 0x90 <= s[1] <= 0xBF)
          || (0xF1 <= s[0] <= 0xF3 && IsTail(s[1]))
          || (s[0] == 0xF4 && 0x80 <= s[1] <= 0x8F))
    case _ => false
  }

  predicate IsScalarValue(c: int) {
    0 <= c <= 0xD7FF || 0xE000 <= c <= 0x10FFFF
  }

  /** The bits a sequence of bytes carries: seven, five, four or three in the first byte, six in every other. */
  function Payload(s: seq<int>): int
    requires 1 <= |s| <= 4
  {
    match |s|
    case 1 => s[0]
    case 2 => (s[0] - 0xC0) * 0x40 + (s[1] - 0x80)
    case 3 => (s[0] - 0xE0) * 0x1000 + (s[1] - 0x80) * 0x40 + (s[2] - 0x80)
    case 4 => (s[0] - 0xF0) * 0x40000 + (s[1] - 0x80) * 0x1000 + (s[2] - 0x80) * 0x40 + (s[3] - 0x80)
  }

  // ----- the encoder

  /** The bytes `Encode` puts, for every code point it accepts: surrogates are encoded like any other. */
  function Encode(c: int): (s: seq<int>)
    requires 0 <= c <= 0x10FFFF
    ensures 1 <= |s| <= 4
  {
    if c <= 0x7F then [c]
    else if c <= 0x7FF then [0xC0 + c / 0x40, 0x80 + c % 0x40]
    else if c <= 0xFFFF then [0xE0 + c / 0x1000, 0x80 + c / 0x40 % 0x40, 0x80 + c % 0x40]
    else [0xF0 + c / 0x40000, 0x80 + c / 0x1000 % 0x40, 0x80 + c / 0x40 % 0x40, 0x80 + c % 0x40]
  }

  /** Six bits at a time. */
  lemma Sextets(c: nat)
    ensures c == c / 0x40 * 0x40 + c % 0x40
    ensures c / 0x40 == c / 0x1000 * 0x40 + c / 0x40 % 0x40
    ensures c / 0x1000 == c / 0x40000 * 0x40 + c / 0x1000 % 0x40
  {
  }

  /** The encoding carries the code point; it is well formed exactly for the scalar values. */
  lemma EncodeMeans(c: int)
    requires 0 <= c <= 0x10FFFF
    ensures AreBytes(Encode(c)) && Payload(Encode(c)) == c && (WellFormed(Encode(c)) <==> IsScalarValue(c))
  {
    Sextets(c);
    if c <= 0x7FF {
    } else if c <= 0xFFFF {
      EncodeMeansThree(c);
    } else {
      EncodeMeansFour(c);
    }
  }

  lemma EncodeMeansThree(c: int)
    requires 0x800 <= c <= 0xFFFF
    ensures AreBytes(Encode(c)) && Payload(Encode(c)) == c && (WellFormed(Encode(c)) <==> IsScalarValue(c))
  {
    Sextets(c);
    assert Encode(c)[0] == 0xE0 <==> c < 0x1000;
    assert Encode(c)[0] == 0xED <==> 0xD000 <= c < 0xE000;
  }

  lemma EncodeMeansFour(c: int)
    requires 0x10000 <= c <= 0x10FFFF
    ensures AreBytes(Encode(c)) && Payload(Encode(c)) == c && WellFormed(Encode(c))
  {
    Sextets(c);
  }

  /** Put together from digits in base 64, a number has those digits. */
  lemma Digits64(h: nat, l: nat)
    requires l < 0x40
    ensures (h * 0x40 + l) / 0x40 == h && (h * 0x40 + l) % 0x40 == l
  {
  }

  /** A well-formed sequence is the encoding of its payload, a scalar value. */
  lemma EncodeInvertsPayload(s: seq<int>)
    requires WellFormed(s)
    ensures IsScalarValue(Payload(s)) && Encode(Payload(s)) == s
  {
    var c := Payload(s);
    match |s|
    case 1 =>
    case 2 =>
      Digits64(s[0] - 0xC0, s[1] - 0x80);
      assert Encode(c) == [s[0], s[1]];
    case 3 =>
      EncodeThree(s[0] - 0xE0, s[1] - 0x80, s[2] - 0x80);
    case 4 =>
      EncodeFour(s[0] - 0xF0, s[1] - 0x80, s[2] - 0x80, s[3] - 0x80);
  }

  lemma EncodeThree(a: nat, b: nat, c: nat)
    requires b < 0x40 && c < 0x40 && 0x20 <= a * 0x40 + b < 0x400
    ensures Encode(a * 0x1000 + b * 0x40 + c) == [0xE0 + a, 0x80 + b, 0x80 + c]
  {
    var x := a * 0x1000 + b * 0x40 + c;
    Digits64(a * 0x40 + b, c);
    Digits64(a, b);
    assert x / 0x1000 == x / 0x40 / 0x40;
  }

  lemma EncodeFour(a: nat, b: nat, c: nat, d: nat)
    requires b < 0x40 && c < 0x40 && d < 0x40 && 0x10 <= a * 0x40 + b < 0x110
    ensures Encode(a * 0x40000 + b * 0x1000 + c * 0x40 + d) == [0xF0 + a, 0x80 + b, 0x80 + c, 0x80 + d]
  {
    var x := a * 0x40000 + b * 0x1000 + c * 0x40 + d;
    Digits64((a * 0x40 + b) * 0x40 + c, d);
    Digits64(a * 0x40 + b, c);
    Digits64(a, b);
    assert x / 0x1000 == x / 0x40 / 0x40 && x / 0x40000 == x / 0x40 / 0x40 / 0x40;
  }

  method PutEncoded(os: OutputStream, c: int)
    requires 0 <= c <= 0x10FFFF
    modifies os
    ensures os.out == old(os.out) + Encode(c)
  {
    if c <= 0x7F {
      os.Put(c);
    } else if c <= 0x7FF {
      os.Put(0xC0 + c / 0x40);
      os.Put(0x80 + c % 0x40);
    } else if c <= 0xFFFF {
      os.Put(0xE0 + c / 0x1000);
      os.Put(0x80 + c / 0x40 % 0x40);
      os.Put(0x80 + c % 0x40);
    } else {
      os.Put(0xF0 + c / 0x40000);
      os.Put(0x80 + c / 0x1000 % 0x40);
      os.Put(0x80 + c / 0x40 % 0x40);
      os.Put(0x80 + c % 0x40);
    }
  }

  // ----- the range table

  /** `GetRange`: the class of a byte. */
  function GetRange(b: int): int {
    if b < 0x80 then 0
    else if b < 0x90 then 0x10
    else if b < 0xA0 then 0x40
    else if b < 0xC0 then 0x20
    else if b < 0xC2 then 8
    else if b < 0xE0 then 2
    else if b == 0xE0 then 10
    else if b < 0xED then 3
    else if b == 0xED then 4
    else if b < 0xF0 then 3
    else if b == 0xF0 then 11
    else if b < 0xF4 then 6
    else if b == 0xF4 then 5
    else 8
  }

  /** Whether a byte of class `range` may follow, where the classes in `mask` (bits 4 to 6) may. */
  predicate Meets(range: int, mask: int) {
    || (range / 0x10 % 2 == 1 && mask / 0x10 % 2 == 1)
    || (range / 0x20 % 2 == 1 && mask / 0x20 % 2 == 1)
    || (range / 0x40 % 2 == 1 && mask / 0x40 % 2 == 1)
  }

  lemma MasksMean(b: int)
    requires IsByte(b)
    ensures Meets(GetRange(b), 0x70) <==> IsTail(b)
    ensures Meets(GetRange(b), 0x50) <==> 0x80 <= b <= 0x9F
    ensures Meets(GetRange(b), 0x10) <==> 0x80 <= b <= 0x8F
    ensures Meets(GetRange(b), 0x20) <==> 0xA0 <= b <= 0xBF
    ensures Meets(GetRange(b), 0x60) <==> 0x90 <= b <= 0xBF
  {
  }

  /** How many continuation bytes the table reads after a first byte. */
  function Followers(range: int): nat {
    match range
    case 2 => 1
    case 3 => 2
    case 4 => 2
    case 10 => 2
    case 5 => 3
    case 6 => 3
    case 11 => 3
    case _ => 0
  }

  /** The bytes ahead of `pos`. */
  function Ahead(src: seq<int>, pos: nat, n: nat): (s: seq<int>)
    ensures |s| == n
  {
    seq(n, i requires 0 <= i => Peek(src, pos + i))
  }

  function Width(first: int): nat {
    1 + if first < 0x80 then 0 else Followers(GetRange(first))
  }

  /** The only prefix that can be well formed is the one as long as the first byte announces. */
  lemma WidthOfWellFormed(s: seq<int>)
    requires WellFormed(s)
    ensures |s| == Width(s[0])
  {
  }

  predicate StartsWellFormed(src: seq<int>, pos: nat) {
    WellFormed(Ahead(src, pos, Width(Peek(src, pos))))
  }

  /** Where a stream stands after `n` reads. */
  function Advance(src: seq<int>, pos: nat, n: nat): nat {
    if pos + n <= |src| then pos + n else if pos <= |src| then |src| else pos
  }

  /** What the first byte contributes: `0xFF >> type` masks it. */
  function FirstBits(range: int, b: int): int {
    match range
    case 2 => b % 0x40
    case 3 => b % 0x20
    case 4 => b % 0x10
    case 5 => b % 0x08
    case 6 => b % 0x04
    case _ => 0
  }

  /** Where the `i`-th read finds its byte. */
  lemma ReadAhead(src: seq<int>, pos: nat, i: nat)
    requires pos <= |src|
    ensures Peek(src, Advance(src, pos, i)) == Peek(src, pos + i) && Advance(src, Advance(src, pos, i), 1) == Advance(src, pos, i + 1)
  {
  }

  lemma OneByte(src: seq<int>, pos: nat)
    requires AreBytes(src) && Peek(src, pos) < 0x80
    ensures StartsWellFormed(src, pos) && Width(Peek(src, pos)) == 1 && Payload(Ahead(src, pos, 1)) == Peek(src, pos)
  {
  }

  lemma NotALead(src: seq<int>, pos: nat)
    requires AreBytes(src) && 0x80 <= Peek(src, pos) && Followers(GetRange(Peek(src, pos))) == 0
    ensures !StartsWellFormed(src, pos) && Width(Peek(src, pos)) == 1
  {
  }

  lemma TwoBytes(src: seq<int>, pos: nat)
    requires AreBytes(src) && Followers(GetRange(Peek(src, pos))) == 1
    ensures var s := Ahead(src, pos, 2);
            && (StartsWellFormed(src, pos) <==> Meets(GetRange(Peek(src, pos + 1)), 0x70))
            && (StartsWellFormed(src, pos) ==> Payload(s) == FirstBits(2, Peek(src, pos)) * 0x40 + Peek(src, pos + 1) % 0x40)
  {
    MasksMean(Peek(src, pos + 1));
  }

  /** The classes allowed for the first continuation byte. */
  function SecondMask(range: int): int {
    match range
    case 4 => 0x50
    case 5 => 0x10
    case 10 => 0x20
    case 11 => 0x60
    case _ => 0x70
  }

  lemma ThreeBytes(src: seq<int>, pos: nat)
    requires AreBytes(src) && Followers(GetRange(Peek(src, pos))) == 2
    ensures var s := Ahead(src, pos, 3);
            var range := GetRange(Peek(src, pos));
            && (StartsWellFormed(src, pos) <==> Meets(GetRange(Peek(src, pos + 1)), SecondMask(range)) && Meets(GetRange(Peek(src, pos + 2)), 0x70))
            && (StartsWellFormed(src, pos) ==> Payload(s) == (FirstBits(range, Peek(src, pos)) * 0x40 + Peek(src, pos + 1) % 0x40) * 0x40 + Peek(src, pos + 2) % 0x40)
  {
    MasksMean(Peek(src, pos + 1));
    MasksMean(Peek(src, pos + 2));
    hide Meets;
  }

  lemma FourBytes(src: seq<int>, pos: nat)
    requires AreBytes(src) && Followers(GetRange(Peek(src, pos))) == 3
    ensures var s := Ahead(src, pos, 4);
            var range := GetRange(Peek(src, pos));
            && (StartsWellFormed(src, pos)
                <==> Meets(GetRange(Peek(src, pos + 1)), SecondMask(range)) && Meets(GetRange(Peek(src, pos + 2)), 0x70) && Meets(GetRange(Peek(src, pos + 3)), 0x70))
            && (StartsWellFormed(src, pos)
                ==> Payload(s) == ((FirstBits(range, Peek(src, pos)) * 0x40 + Peek(src, pos + 1) % 0x40) * 0x40 + Peek(src, pos + 2) % 0x40) * 0x40 + Peek(src, pos + 3) % 0x40)
  {
    var s := Ahead(src, pos, 4);
    assert s[1] == Peek(src, pos + 1) && s[2] == Peek(src, pos + 2) && s[3] == Peek(src, pos + 3);
    FourMeans(s);
    hide Meets, WellFormed, Payload, GetRange, FirstBits;
  }

  lemma FourMeans(s: seq<int>)
    requires |s| == 4 && AreBytes(s) && Followers(GetRange(s[0])) == 3
    ensures WellFormed(s)
       <==> Meets(GetRange(s[1]), SecondMask(GetRange(s[0]))) && Meets(GetRange(s[2]), 0x70) && Meets(GetRange(s[3]), 0x70)
    ensures WellFormed(s)
        ==> Payload(s) == ((FirstBits(GetRange(s[0]), s[0]) * 0x40 + s[1] % 0x40) * 0x40 + s[2] % 0x40) * 0x40 + s[3] % 0x40
  {
    MasksMean(s[1]);
    MasksMean(s[2]);
    MasksMean(s[3]);
    assert WellFormed(s) <==> Meets(GetRange(s[1]), SecondMask(GetRange(s[0]))) && Meets(GetRange(s[2]), 0x70) && Meets(GetRange(s[3]), 0x70) by {
      hide Meets;
    }
    if WellFormed(s) {
      FourBits(s);
    }
    hide Meets, GetRange, FirstBits;
  }

  lemma FourBits(s: seq<int>)
    requires |s| == 4 && WellFormed(s)
    ensures Payload(s) == ((FirstBits(GetRange(s[0]), s[0]) * 0x40 + s[1] % 0x40) * 0x40 + s[2] % 0x40) * 0x40 + s[3] % 0x40
  {
    assert FirstBits(GetRange(s[0]), s[0]) == s[0] - 0xF0;
    assert s[1] % 0x40 == s[1] - 0x80 && s[2] % 0x40 == s[2] - 0x80 && s[3] % 0x40 == s[3] - 0x80;
    hide FirstBits, GetRange, WellFormed;
  }

  /** One continuation byte: its low six bits, and whether its class is in the mask. */
  method Follow(input: InputStream, codepoint: int, ok: bool, mask: int) returns (codepoint': int, ok': bool)
    requires input.Valid()
    modifies input
    ensures input.Valid() && input.pos == Advance(input.src, old(input.pos), 1)
    ensures codepoint' == codepoint * 0x40 + old(input.Head()) % 0x40
    ensures ok' <==> ok && Meets(GetRange(old(input.Head())), mask)
  {
    var c := input.Take();
    codepoint', ok' := codepoint * 0x40 + c % 0x40, ok && Meets(GetRange(c), mask);
  }

  /** `Decode` accepts exactly the well-formed sequences, and then gives their payload. */
  method Decode(input: InputStream) returns (ok: bool, codepoint: int)
    requires input.Valid() && AreBytes(input.src)
    modifies input
    ensures input.Valid()
    ensures ok <==> StartsWellFormed(input.src, old(input.pos))
    ensures input.pos == Advance(input.src, old(input.pos), Width(Peek(input.src, old(input.pos))))
    ensures ok ==> codepoint == Payload(Ahead(input.src, old(input.pos), Width(Peek(input.src, old(input.pos)))))
  {
    ghost var src, pos := input.src, input.pos;
    ReadAhead(src, pos, 1);
    ReadAhead(src, pos, 2);
    ReadAhead(src, pos, 3);
    hide Meets, WellFormed, Payload, StartsWellFormed, FirstBits, GetRange, Peek, Advance;
    var c := input.Take();
    if c < 0x80 {
      OneByte(src, pos);
      return true, c;
    }
    var range := GetRange(c);
    codepoint, ok := FirstBits(range, c), true;
    match range
    case 2 =>
      TwoBytes(src, pos);
      codepoint, ok := Follow(input, codepoint, ok, 0x70);
    case 3 =>
      ThreeBytes(src, pos);
      codepoint, ok := Follow(input, codepoint, ok, 0x70);
      codepoint, ok := Follow(input, codepoint, ok, 0x70);
    case 4 =>
      ThreeBytes(src, pos);
      codepoint, ok := Follow(input, codepoint, ok, 0x50);
      codepoint, ok := Follow(input, codepoint, ok, 0x70);
    case 5 =>
      FourBytes(src, pos);
      codepoint, ok := Follow(input, codepoint, ok, 0x10);
      codepoint, ok := Follow(input, codepoint, ok, 0x70);
      codepoint, ok := Follow(input, codepoint, ok, 0x70);
    case 6 =>
      FourBytes(src, pos);
      codepoint, ok := Follow(input, codepoint, ok, 0x70);
      codepoint, ok := Follow(input, codepoint, ok, 0x70);
      codepoint, ok := Follow(input, codepoint, ok, 0x70);
    case 10 =>
      ThreeBytes(src, pos);
      codepoint, ok := Follow(input, codepoint, ok, 0x20);
      codepoint, ok := Follow(input, codepoint, ok, 0x70);
    case 11 =>
      FourBytes(src, pos);
      codepoint, ok := Follow(input, codepoint, ok, 0x60);
      codepoint, ok := Follow(input, codepoint, ok, 0x70);
      codepoint, ok := Follow(input, codepoint, ok, 0x70);
    case _ =>
      NotALead(src, pos);
      ok := false;
  }

  /** Copying one byte more. */
  lemma CopiedMore(before: seq<int>, src: seq<int>, pos: nat, n: nat, after: seq<int>)
    requires after == (before + Ahead(src, pos, n)) + [Peek(src, pos + n)]
    ensures after == before + Ahead(src, pos, n + 1)
  {
    assert Ahead(src, pos, n + 1) == Ahead(src, pos, n) + [Peek(src, pos + n)];
  }

  /** One continuation byte, copied: the `n`-th after `pos`. */
  method CopyFollow(input: InputStream, output: OutputStream, ok: bool, mask: int, ghost before: seq<int>,
      ghost pos: nat, ghost n: nat)
    returns (ok': bool)
    requires input.Valid() && pos <= |input.src| && input.pos == Advance(input.src, pos, n)
    requires output.out == before + Ahead(input.src, pos, n)
    modifies input, output
    ensures input.Valid() && input.pos == Advance(input.src, pos, n + 1)
    ensures output.out == before + Ahead(input.src, pos, n + 1)
    ensures ok' <==> ok && Meets(GetRange(Peek(input.src, pos + n)), mask)
  {
    ReadAhead(input.src, pos, n);
    var c := input.Take();
    output.Put(c);
    CopiedMore(before, input.src, pos, n, output.out);
    ok' := ok && Meets(GetRange(c), mask);
  }

  /** The first byte, copied. */
  method CopyFirst(input: InputStream, output: OutputStream) returns (c: int)
    requires input.Valid()
    modifies input, output
    ensures input.Valid() && old(input.pos) <= |input.src| && c == Peek(input.src, old(input.pos))
    ensures input.pos == Advance(input.src, old(input.pos), 1)
    ensures output.out == old(output.out) + Ahead(input.src, old(input.pos), 1)
  {
    c := input.Take();
    output.Put(c);
    assert Ahead(input.src, old(input.pos), 1) == [c];
  }

  /** `Validate` gives the verdict of `Decode`, reads as far, and copies what it reads. */
  method Validate(input: InputStream, output: OutputStream) returns (ok: bool)
    requires input.Valid() && AreBytes(input.src)
    modifies input, output
    ensures input.Valid()
    ensures ok <==> StartsWellFormed(input.src, old(input.pos))
    ensures input.pos == Advance(input.src, old(input.pos), Width(Peek(input.src, old(input.pos))))
    ensures output.out == old(output.out) + Ahead(input.src, old(input.pos), Width(Peek(input.src, old(input.pos))))
  {
    hide Meets, WellFormed, Payload, StartsWellFormed, FirstBits, GetRange, Peek, Advance, Ahead, AreBytes,
         InputStream.Valid;
    ghost var src, pos := input.src, input.pos;
    ghost var before := output.out;
    var c := CopyFirst(input, output);
    if c < 0x80 {
      OneByte(src, pos);
      return true;
    }
    ok := true;
    match GetRange(c)
    case 2 =>
      TwoBytes(src, pos);
      ok := CopyFollow(input, output, ok, 0x70, before, pos, 1);
    case 3 =>
      ThreeBytes(src, pos);
      ok := CopyFollow(input, output, ok, 0x70, before, pos, 1);
      ok := CopyFollow(input, output, ok, 0x70, before, pos, 2);
    case 4 =>
      ThreeBytes(src, pos);
      ok := CopyFollow(input, output, ok, 0x50, before, pos, 1);
      ok := CopyFollow(input, output, ok, 0x70, before, pos, 2);
    case 5 =>
      FourBytes(src, pos);
      ok := CopyFollow(input, output, ok, 0x10, before, pos, 1);
      ok := CopyFollow(input, output, ok, 0x70, before, pos, 2);
      ok := CopyFollow(input, output, ok, 0x70, before, pos, 3);
    case 6 =>
      FourBytes(src, pos);
      ok := CopyFollow(input, output, ok, 0x70, before, pos, 1);
      ok := CopyFollow(input, output, ok, 0x70, before, pos, 2);
      ok := CopyFollow(input, output, ok, 0x70, before, pos, 3);
    case 10 =>
      ThreeBytes(src, pos);
      ok := CopyFollow(input, output, ok, 0x20, before, pos, 1);
      ok := CopyFollow(input, output, ok, 0x70, before, pos, 2);
    case 11 =>
      FourBytes(src, pos);
      ok := CopyFollow(input, output, ok, 0x60, before, pos, 1);
      ok := CopyFollow(input, output, ok, 0x70, before, pos, 2);
      ok := CopyFollow(input, output, ok, 0x70, before, pos, 3);
    case _ =>
      NotALead(src, pos);
      ok := false;
  }

  // ----- whole texts

  predicate AreScalarValues(codepoints: seq<int>) {
    forall i | 0 <= i < |codepoints| :: IsScalarValue(codepoints[i])
  }

  function EncodeAll(codepoints: seq<int>): seq<int>
    requires AreScalarValues(codepoints)
  {
    if codepoints == [] then [] else assert IsScalarValue(codepoints[0]); Encode(codepoints[0]) + EncodeAll(codepoints[1..])
  }

  /** The code points of a text, when every sequence in it is well formed. */
  function DecodeAll(s: seq<int>): (r: Option<seq<int>>) {
    if s == [] then Some([])
    else
      var n := Width(s[0]);
      if n <= |s| && WellFormed(s[..n]) then
        match DecodeAll(s[n..])
        case None => None
        case Some(rest) => Some([Payload(s[..n])] + rest)
      else None
  }

  lemma DecodeAllStep(s: seq<int>, rest: seq<int>)
    requires WellFormed(s)
    ensures DecodeAll(s + rest) == if DecodeAll(rest).Some? then Some([Payload(s)] + DecodeAll(rest).value) else None
  {
    WidthOfWellFormed(s);
    assert (s + rest)[..|s|] == s && (s + rest)[|s|..] == rest;
    hide WellFormed, Payload, Width;
  }

  lemma {:induction false} DecodeAfterEncode(codepoints: seq<int>)
    requires AreScalarValues(codepoints)
    ensures DecodeAll(EncodeAll(codepoints)) == Some(codepoints)
  {
    if codepoints != [] {
      var c := codepoints[0];
      assert IsScalarValue(c);
      EncodeMeans(c);
      DecodeAllStep(Encode(c), EncodeAll(codepoints[1..]));
      hide WellFormed, Payload, Encode, DecodeAll, IsScalarValue;
      DecodeAfterEncode(codepoints[1..]);
      assert [c] + codepoints[1..] == codepoints;
    }
  }

  lemma EncodeAllCons(c: int, rest: seq<int>)
    requires IsScalarValue(c) && AreScalarValues(rest)
    ensures AreScalarValues([c] + rest) && EncodeAll([c] + rest) == Encode(c) + EncodeAll(rest)
  {
    assert ([c] + rest)[1..] == rest;
  }

  lemma {:induction false} EncodeAfterDecode(s: seq<int>)
    ensures DecodeAll(s).Some? ==> AreScalarValues(DecodeAll(s).value) && EncodeAll(DecodeAll(s).value) == s
  {
    if s != [] && DecodeAll(s).Some? {
      var n := Width(s[0]);
      EncodeInvertsPayload(s[..n]);
      EncodeAfterDecode(s[n..]);
      DecodeAllStep(s[..n], s[n..]);
      assert s == s[..n] + s[n..];
      hide WellFormed, Payload, Width, Encode, IsScalarValue, EncodeAll, DecodeAll;
      EncodeAllCons(Payload(s[..n]), DecodeAll(s[n..]).value);
    }
  }

  // ----- the methods, one character after the other

  lemma ZeroIsNoContinuation(s: seq<int>)
    requires WellFormed(s) && |s| > 1
    ensures s[|s| - 1] != 0
  {
  }

  lemma EndsTooSoon(src: seq<int>, pos: nat)
    requires pos < |src| && pos + Width(src[pos]) > |src|
    ensures !StartsWellFormed(src, pos)
  {
    hide WellFormed, Width;
    var s := Ahead(src, pos, Width(src[pos]));
    assert s[|s| - 1] == Peek(src, pos + (|s| - 1)) == 0;
    if WellFormed(s) {
      ZeroIsNoContinuation(s);
    }
  }

  lemma AheadIsThere(src: seq<int>, pos: nat, n: nat)
    requires pos + n <= |src|
    ensures Ahead(src, pos, n) == src[pos..][..n]
  {
    var s, t := Ahead(src, pos, n), src[pos..][..n];
    forall i | 0 <= i < n
      ensures s[i] == t[i]
    {
      assert s[i] == Peek(src, pos + i);
    }
  }

  /** What starts at a place of a text, by the rest of the text. */
  lemma StartsInText(src: seq<int>, pos: nat)
    requires AreBytes(src) && pos < |src|
    ensures var n, rest := Width(src[pos]), src[pos..];
            && 1 <= n <= 4
            && (StartsWellFormed(src, pos) <==> n <= |rest| && WellFormed(rest[..n]))
            && (StartsWellFormed(src, pos) ==> Advance(src, pos, n) == pos + n && Ahead(src, pos, n) == rest[..n])
  {
    var n := Width(src[pos]);
    if pos + n <= |src| {
      AheadIsThere(src, pos, n);
    } else {
      EndsTooSoon(src, pos);
    }
    hide WellFormed, Width;
  }

  /** What has been decoded, and the rest. */
  function Joined(done: seq<int>, rest: Option<seq<int>>): Option<seq<int>> {
    if rest.Some? then Some(done + rest.value) else None
  }

  lemma DecodeAllAt(src: seq<int>, pos: nat, done: seq<int>)
    requires AreBytes(src) && pos < |src|
    ensures var n, all := Width(src[pos]), Joined(done, DecodeAll(src[pos..]));
            if StartsWellFormed(src, pos) then
              pos + n <= |src| && all == Joined(done + [Payload(Ahead(src, pos, n))], DecodeAll(src[pos + n..]))
            else all == None
  {
    hide WellFormed, Width, Payload, StartsWellFormed;
    StartsInText(src, pos);
    var n, rest := Width(src[pos]), src[pos..];
    if StartsWellFormed(src, pos) {
      assert rest[n..] == src[pos + n..];
      var tail := DecodeAll(src[pos + n..]);
      if tail.Some? {
        assert done + ([Payload(rest[..n])] + tail.value) == (done + [Payload(rest[..n])]) + tail.value;
      }
    }
  }

  /** `Decode` again and again up to the end of the stream, or until it fails: what the text decodes to. */
  method DecodeText(input: InputStream) returns (codepoints: Option<seq<int>>)
    requires input.Valid() && AreBytes(input.src)
    modifies input
    ensures input.Valid() && codepoints == DecodeAll(input.src[old(input.pos)..])
  {
    hide WellFormed, Width, Payload, StartsWellFormed, DecodeAll, AreBytes;
    var done: seq<int> := [];
    NothingJoined(DecodeAll(input.src[input.pos..]));
    while input.pos < |input.src|
      invariant input.Valid()
      invariant Joined(done, DecodeAll(input.src[input.pos..])) == DecodeAll(input.src[old(input.pos)..])
      decreases |input.src| - input.pos
    {
      DecodeAllAt(input.src, input.pos, done);
      StartsInText(input.src, input.pos);
      var ok, c := Decode(input);
      if !ok {
        return None;
      }
      done := done + [c];
    }
    NothingToDecode(input.src[input.pos..], done);
    return Some(done);
  }

  lemma NothingJoined(rest: Option<seq<int>>)
    ensures Joined([], rest) == rest
  {
    if rest.Some? {
      assert [] + rest.value == rest.value;
    }
  }

  lemma NothingToDecode(rest: seq<int>, done: seq<int>)
    requires rest == []
    ensures Joined(done, DecodeAll(rest)) == Some(done)
  {
    assert done + [] == done;
  }

  /** `Encode` for one character after the other. */
  method EncodeText(os: OutputStream, codepoints: seq<int>)
    requires AreScalarValues(codepoints)
    modifies os
    ensures os.out == old(os.out) + EncodeAll(codepoints)
  {
    hide Encode, EncodeAll, IsScalarValue;
    var i := 0;
    assert codepoints[0..] == codepoints;
    while i < |codepoints|
      invariant 0 <= i <= |codepoints| && os.out + EncodeAll(codepoints[i..]) == old(os.out) + EncodeAll(codepoints)
    {
      EncodeAllAt(codepoints, i, os.out);
      PutEncoded(os, codepoints[i]);
      i := i + 1;
    }
    NothingToEncode(codepoints[i..]);
  }

  lemma EncodeAllAt(codepoints: seq<int>, i: nat, done: seq<int>)
    requires AreScalarValues(codepoints) && i < |codepoints|
    ensures 0 <= codepoints[i] <= 0x10FFFF
    ensures done + EncodeAll(codepoints[i..]) == (done + Encode(codepoints[i])) + EncodeAll(codepoints[i + 1..])
  {
    hide Encode;
    assert IsScalarValue(codepoints[i]);
    assert codepoints[i..][1..] == codepoints[i + 1..];
  }

  lemma NothingToEncode(rest: seq<int>)
    requires rest == []
    ensures EncodeAll(rest) == []
  {
  }

  /** Any sequence of scalar values is what comes back when it is encoded and the bytes are decoded. */
  method EncodeAndDecode(codepoints: seq<int>) returns (bytes: seq<int>, back: Option<seq<int>>)
    requires AreScalarValues(codepoints)
    ensures bytes == EncodeAll(codepoints) && back == Some(codepoints)
  {
    var os := new OutputStream();
    EncodeText(os, codepoints);
    bytes := os.out;
    EncodedIsBytes(codepoints);
    DecodeAfterEncode(codepoints);
    var input := new InputStream(bytes);
    assert bytes[0..] == bytes;
    back := DecodeText(input);
  }

  lemma {:induction false} EncodedIsBytes(codepoints: seq<int>)
    requires AreScalarValues(codepoints)
    ensures AreBytes(EncodeAll(codepoints))
  {
    if codepoints != [] {
      assert IsScalarValue(codepoints[0]);
      EncodeMeans(codepoints[0]);
      hide Encode;
      EncodedIsBytes(codepoints[1..]);
    }
  }
}
