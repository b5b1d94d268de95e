/** The text of a JSON Pointer (RFC 6901): reading it into names, in the plain form (section 3) and as a URI fragment
    (section 6), and writing names in both forms. */
module PointerText {
  import opened Ascii
  import opened Streams
  import opened Utf8
  import opened JsonLexer
  import opened JsonSpelling
  import opened JsonTree
  import opened Texts
  import opened Wrappers

  datatype PointerError = TokenMustBeginWithSolidus | InvalidEscape | InvalidPercentEncoding | CharacterMustPercentEncode

  type Name = seq<int>

  datatype Parsed<+T> = Got(value: T, next: nat) | Wrong(code: PointerError, offset: nat)

  /** `NeedPercentEncode`: all but the unreserved characters of RFC 3986, section 2.3. */
  predicate NeedPercentEncode(c: int) {
    !(IsDigit(c) || UPPER_A <= c <= UPPER_Z || LOWER_A <= c <= LOWER_Z || c == DASH || c == DOT || c == UNDERSCORE || c == TILDE)
  }

  /** The unreserved characters, written out. */
  lemma UnreservedByTheirSigns(c: int)
    ensures NeedPercentEncode(c) <==> c !in Codes("ABCDEFGHIJKLMNOPQRSTUVWXYZ") + Codes("abcdefghijklmnopqrstuvwxyz")
                                            + Codes("0123456789") + Codes("-._~")
  {
    var upper, lower, digits := Codes("ABCDEFGHIJKLMNOPQRSTUVWXYZ"), Codes("abcdefghijklmnopqrstuvwxyz"), Codes("0123456789");
    assert forall i | 0 <= i < 26 :: upper[i] == 'A' as int + i && lower[i] == 'a' as int + i;
    assert forall i | 0 <= i < 10 :: digits[i] == '0' as int + i;
    if UPPER_A <= c <= UPPER_Z {
      assert upper[c - UPPER_A] == c;
    } else if LOWER_A <= c <= LOWER_Z {
      assert lower[c - LOWER_A] == c;
    } else if IsDigit(c) {
      assert digits[c - DIGIT_0] == c;
    }
    assert Codes("-._~") == ['-' as int, '.' as int, '_' as int, '~' as int];
  }

  // ----- reading

  /** One `%XY` triplet. */
  function Triplet(src: seq<int>, i: nat): (b: Option<int>)
    ensures b.Some? ==> IsByte(b.value) && i + 3 <= |src|
  {
    if i + 3 <= |src| && src[i] == PERCENT && HexDigit(src[i + 1]).Some? && HexDigit(src[i + 2]).Some? then
      Some(HexDigit(src[i + 1]).value * 16 + HexDigit(src[i + 2]).value)
    else None
  }

  /** `n` triplets, one after the other. */
  function Triplets(src: seq<int>, i: nat, n: nat): (s: Option<seq<int>>)
    ensures s.Some? ==> |s.value| == n && AreBytes(s.value) && (n > 0 ==> i + 3 * n <= |src|)
    decreases n
  {
    if n == 0 then Some([])
    else
      match Triplet(src, i)
      case None => None
      case Some(b) =>
        match Triplets(src, i + 3, n - 1)
        case None => None
        case Some(rest) => Some([b] + rest)
  }

  /** A percent-encoded character: as many triplets as its first byte announces, and well formed. */
  function PercentChar(src: seq<int>, i: nat): (s: Option<seq<int>>)
    ensures s.Some? ==> 1 <= |s.value| <= 4 && i + 3 * |s.value| <= |src|
  {
    match Triplet(src, i)
    case None => None
    case Some(first) =>
      match Triplets(src, i, Width(first))
      case None => None
      case Some(bytes) => if WellFormed(bytes) then Some(bytes) else None
  }

  /** A character `c` before position `next`, with the escapes `~0` and `~1` undone. */
  function Unescaped(src: seq<int>, c: int, next: nat): (r: Parsed<int>)
    ensures r.Got? ==> next <= r.next && (next <= |src| ==> r.next <= |src|)
  {
    if c != TILDE then Got(c, next)
    else if Peek(src, next) == DIGIT_0 then Got(TILDE, next + 1)
    else if Peek(src, next) == DIGIT_1 then Got(SLASH, next + 1)
    else Wrong(InvalidEscape, next)
  }

  /** The rest of a name, up to the next solidus or the end. */
  function NameAt(src: seq<int>, i: nat, uri: bool, name: Name): (r: Parsed<Name>)
    requires i <= |src|
    ensures r.Got? ==> i <= r.next <= |src| && (r.next < |src| ==> src[r.next] == SLASH)
    decreases |src| - i
  {
    if i == |src| || src[i] == SLASH then Got(name, i)
    else if uri && src[i] == PERCENT then
      match PercentChar(src, i)
      case None => Wrong(InvalidPercentEncoding, i)
      case Some(bytes) =>
        if |bytes| > 1 then NameAt(src, i + 3 * |bytes|, uri, name + bytes)
        else
          match Unescaped(src, bytes[0], i + 3)
          case Wrong(code, offset) => Wrong(code, offset)
          case Got(c, next) => NameAt(src, next, uri, name + [c])
    else if uri && NeedPercentEncode(src[i]) then Wrong(CharacterMustPercentEncode, i)
    else
      match Unescaped(src, src[i], i + 1)
      case Wrong(code, offset) => Wrong(code, offset)
      case Got(c, next) => NameAt(src, next, uri, name + [c])
  }

  /** The names from a solidus on, after `names`. */
  function NamesAt(src: seq<int>, i: nat, uri: bool, names: seq<Name>): (r: Parsed<seq<Name>>)
    requires i <= |src| && (i < |src| ==> src[i] == SLASH)
    decreases |src| - i
  {
    if i == |src| then Got(names, i)
    else
      match NameAt(src, i + 1, uri, [])
      case Wrong(code, offset) => Wrong(code, offset)
      case Got(name, next) => NamesAt(src, next, uri, names + [name])
  }

  predicate IsFragment(src: seq<int>) {
    Peek(src, 0) == HASH
  }

  /** `Parse` */
  function ParseNames(src: seq<int>): Parsed<seq<Name>> {
    var i := if IsFragment(src) then 1 else 0;
    if i < |src| && src[i] != SLASH then Wrong(TokenMustBeginWithSolidus, i)
    else NamesAt(src, i, IsFragment(src), [])
  }

  // ----- writing

  function EscapedChar(c: int): seq<int> {
    if c == TILDE then [TILDE, DIGIT_0] else if c == SLASH then [TILDE, DIGIT_1] else [c]
  }

  function PlainName(name: Name): seq<int> {
    if name == [] then [] else EscapedChar(name[0]) + PlainName(name[1..])
  }

  /** `Stringify` */
  function PlainText(names: seq<Name>): seq<int> {
    if names == [] then [] else [SLASH] + (PlainName(names[0]) + PlainText(names[1..]))
  }

  function Percent(b: int): seq<int>
    requires IsByte(b)
  {
    [PERCENT, HexDigitOf(b / 16), HexDigitOf(b % 16)]
  }

  function PercentAll(s: seq<int>): seq<int>
    requires AreBytes(s)
  {
    if s == [] then [] else assert IsByte(s[0]); Percent(s[0]) + PercentAll(s[1..])
  }

  /** How a character of a name, given by its bytes, is written in a fragment. */
  function FragmentChar(s: seq<int>): seq<int>
    requires AreBytes(s) && s != []
  {
    if s[0] == TILDE || s[0] == SLASH || !NeedPercentEncode(s[0]) then EscapedChar(s[0]) else PercentAll(s)
  }

  /** A name in a fragment; none if it is not UTF-8 where it has to be encoded. */
  function FragmentName(name: Name): Option<seq<int>>
    requires AreBytes(name)
  {
    if name == [] then Some([])
    else
      assert IsByte(name[0]);
      var n := if name[0] < 0x80 then 1 else Width(name[0]);
      if n <= |name| && WellFormed(name[..n]) then
        match FragmentName(name[n..])
        case None => None
        case Some(rest) => Some(FragmentChar(name[..n]) + rest)
      else None
  }

  predicate AreNames(names: seq<Name>) {
    forall i | 0 <= i < |names| :: AreBytes(names[i])
  }

  function FragmentTail(names: seq<Name>): Option<seq<int>>
    requires AreNames(names)
  {
    if names == [] then Some([])
    else
      assert AreBytes(names[0]);
      match FragmentName(names[0])
      case None => None
      case Some(first) =>
        match FragmentTail(names[1..])
        case None => None
        case Some(rest) => Some([SLASH] + (first + rest))
  }

  /** `StringifyUriFragment` */
  function FragmentText(names: seq<Name>): Option<seq<int>>
    requires AreNames(names)
  {
    match FragmentTail(names)
    case None => None
    case Some(text) => Some([HASH] + text)
  }

  // ----- bytes

  /** What is read from bytes is bytes. */
  lemma {:induction false} NameAtIsBytes(src: seq<int>, i: nat, uri: bool, name: Name)
    requires i <= |src| && AreBytes(src) && AreBytes(name)
    ensures NameAt(src, i, uri, name).Got? ==> AreBytes(NameAt(src, i, uri, name).value)
    decreases |src| - i
  {
    hide NeedPercentEncode, WellFormed, PercentChar, Unescaped;
    if i < |src| && src[i] != SLASH {
      assert IsByte(src[i]);
      if uri && src[i] == PERCENT {
        PercentCharIsBytes(src, i);
        if PercentChar(src, i).Some? {
          var bytes := PercentChar(src, i).value;
          if |bytes| > 1 {
            NameAtIsBytes(src, i + 3 * |bytes|, uri, name + bytes);
          } else {
            CharIsByte(src, i, uri, name, bytes[0], i + 3);
          }
        }
      } else {
        CharIsByte(src, i, uri, name, src[i], i + 1);
      }
    }
  }

  lemma {:induction false} CharIsByte(src: seq<int>, i: nat, uri: bool, name: Name, c: int, next: nat)
    requires i < next <= |src| && AreBytes(src) && AreBytes(name) && IsByte(c)
    ensures match Unescaped(src, c, next)
            case Wrong(_, _) => true
            case Got(d, after) =>
              var r := NameAt(src, after, uri, name + [d]);
              r.Got? ==> AreBytes(r.value)
    decreases |src| - i, 0
  {
    var u := Unescaped(src, c, next);
    if u.Got? {
      assert IsByte(u.value);
      hide Unescaped;
      NameAtIsBytes(src, u.next, uri, name + [u.value]);
    }
  }

  lemma PercentCharIsBytes(src: seq<int>, i: nat)
    ensures PercentChar(src, i).Some? ==> AreBytes(PercentChar(src, i).value)
  {
    hide WellFormed, Width, Triplet;
  }

  lemma {:induction false} NamesAtAreNames(src: seq<int>, i: nat, uri: bool, names: seq<Name>)
    requires i <= |src| && (i < |src| ==> src[i] == SLASH) && AreBytes(src) && AreNames(names)
    ensures NamesAt(src, i, uri, names).Got? ==> AreNames(NamesAt(src, i, uri, names).value)
    decreases |src| - i
  {
    hide NameAt;
    if i < |src| {
      NameAtIsBytes(src, i + 1, uri, []);
      var r := NameAt(src, i + 1, uri, []);
      if r.Got? {
        NamesAtAreNames(src, r.next, uri, names + [r.value]);
      }
    }
  }

  /** The names of a pointer that is given by bytes are bytes. */
  lemma ParsedAreNames(src: seq<int>)
    requires AreBytes(src) && ParseNames(src).Got?
    ensures AreNames(ParseNames(src).value)
  {
    hide NamesAt;
    NamesAtAreNames(src, if IsFragment(src) then 1 else 0, IsFragment(src), []);
  }

  // ----- plain text

  /** One character of a name. */
  lemma ReadsPlainChar(src: seq<int>, i: nat, c: int, done: Name)
    requires At(src, i, EscapedChar(c))
    ensures NameAt(src, i, false, done) == NameAt(src, i + |EscapedChar(c)|, false, done + [c])
  {
    var e := EscapedChar(c);
    AtFirst(src, i, e);
    if |e| == 2 {
      AtFirst(src, i + 1, e[1..]);
    }
  }

  /** A name's text is read as the name. */
  lemma {:induction false} ReadsPlainName(src: seq<int>, i: nat, name: Name, done: Name)
    requires At(src, i, PlainName(name))
    ensures NameAt(src, i, false, done) == NameAt(src, i + |PlainName(name)|, false, done + name)
    decreases |name|
  {
    hide NameAt, At, EscapedChar;
    if name == [] {
      assert done + name == done;
    } else {
      var e := EscapedChar(name[0]);
      AtSplit(src, i, e, PlainName(name[1..]));
      ReadsPlainChar(src, i, name[0], done);
      ReadsPlainName(src, i + |e|, name[1..], done + [name[0]]);
      assert done + [name[0]] + name[1..] == done + name;
    }
  }

  /** Where the pieces of a pointer's text are. */
  lemma AtPlainText(src: seq<int>, i: nat, names: seq<Name>)
    requires names != [] && At(src, i, PlainText(names))
    ensures var p, rest := PlainName(names[0]), PlainText(names[1..]);
            && i < |src| && src[i] == SLASH && At(src, i + 1, p) && At(src, i + 1 + |p|, rest)
            && |PlainText(names)| == 1 + |p| + |rest|
  {
    hide *;
    var p, rest := PlainName(names[0]), PlainText(names[1..]);
    PlainTextStep(names);
    AtSplit(src, i, [SLASH], p + rest);
    AtSplit(src, i + 1, p, rest);
    AtFirst(src, i, [SLASH]);
  }

  lemma PlainTextStep(names: seq<Name>)
    requires names != []
    ensures PlainText(names) == [SLASH] + (PlainName(names[0]) + PlainText(names[1..]))
  {
  }

  lemma {:induction false} ReadsPlainText(src: seq<int>, i: nat, names: seq<Name>, done: seq<Name>)
    requires At(src, i, PlainText(names)) && i + |PlainText(names)| == |src|
    ensures i < |src| ==> src[i] == SLASH
    ensures NamesAt(src, i, false, done) == Got(done + names, |src|)
    decreases |names|
  {
    hide At, PlainName;
    if names == [] {
      assert done + names == done;
    } else {
      AtPlainText(src, i, names);
      var j := i + 1 + |PlainName(names[0])|;
      ReadsPlainName(src, i + 1, names[0], []);
      assert [] + names[0] == names[0];
      ReadsPlainText(src, j, names[1..], done + [names[0]]);
      NameEnds(src, j, false, names[0]);
      assert done + [names[0]] + names[1..] == done + names;
      hide NameAt, PlainText;
    }
  }

  lemma NameEnds(src: seq<int>, j: nat, uri: bool, name: Name)
    requires j <= |src| && (j < |src| ==> src[j] == SLASH)
    ensures NameAt(src, j, uri, name) == Got(name, j)
  {
  }

  /** Names written in the plain form are read back. */
  lemma PlainRoundTrip(names: seq<Name>)
    ensures ParseNames(PlainText(names)) == Got(names, |PlainText(names)|)
  {
    var src := PlainText(names);
    AtWhole(src);
    ReadsPlainText(src, 0, names, []);
    assert [] + names == names;
  }

  lemma {:induction false} PlainNameCat(a: Name, b: Name)
    ensures PlainName(a + b) == PlainName(a) + PlainName(b)
    decreases |a|
  {
    if a == [] {
      assert a + b == b;
    } else {
      assert (a + b)[1..] == a[1..] + b;
      PlainNameCat(a[1..], b);
    }
  }

  /** One character read is written as it was. */
  lemma WritesPlainChar(src: seq<int>, start: nat, i: nat, name: Name)
    requires start <= i < |src| && PlainName(name) == src[start..i] && src[i] != SLASH && Unescaped(src, src[i], i + 1).Got?
    ensures var r := Unescaped(src, src[i], i + 1);
            i < r.next <= |src| && PlainName(name + [r.value]) == src[start..r.next]
  {
    hide PlainName;
    var r := Unescaped(src, src[i], i + 1);
    PlainNameCat(name, [r.value]);
    OneCharName(r.value);
    UnescapedIsWritten(src, i);
    hide *;
    assert src[start..r.next] == src[start..i] + src[i..r.next];
  }

  lemma UnescapedIsWritten(src: seq<int>, i: nat)
    requires i < |src| && src[i] != SLASH && Unescaped(src, src[i], i + 1).Got?
    ensures var r := Unescaped(src, src[i], i + 1);
            i < r.next <= |src| && src[i..r.next] == EscapedChar(r.value)
  {
  }

  lemma OneCharName(c: int)
    ensures PlainName([c]) == EscapedChar(c)
  {
    assert [c][1..] == [];
  }

  /** What has been read of a name is written as it was. */
  lemma {:induction false} WritesPlainName(src: seq<int>, start: nat, i: nat, name: Name)
    requires start <= i <= |src| && PlainName(name) == src[start..i]
    ensures var r := NameAt(src, i, false, name);
            r.Got? ==> start <= r.next && PlainName(r.value) == src[start..r.next]
    decreases |src| - i
  {
    hide PlainName;
    if i == |src| || src[i] == SLASH {
    } else {
      var r := Unescaped(src, src[i], i + 1);
      if r.Got? {
        WritesPlainChar(src, start, i, name);
        WritesPlainName(src, start, r.next, name + [r.value]);
      }
    }
  }

  lemma {:induction false} PlainTextCat(a: seq<Name>, name: Name)
    ensures PlainText(a + [name]) == PlainText(a) + ([SLASH] + PlainName(name))
    decreases |a|
  {
    if a == [] {
      assert a + [name] == [name] && [name][1..] == [];
      assert PlainText([]) == [];
    } else {
      assert (a + [name])[1..] == a[1..] + [name];
      PlainTextCat(a[1..], name);
    }
    hide PlainName;
  }

  lemma {:induction false} WritesPlainText(src: seq<int>, i: nat, names: seq<Name>)
    requires i <= |src| && (i < |src| ==> src[i] == SLASH) && PlainText(names) == src[..i]
    ensures var r := NamesAt(src, i, false, names);
            r.Got? ==> PlainText(r.value) == src
    decreases |src| - i
  {
    hide PlainName, PlainText, NameAt;
    if i == |src| {
      assert src[..i] == src;
    } else {
      EmptyName();
      assert src[i + 1..i + 1] == [];
      WritesPlainName(src, i + 1, i + 1, []);
      var r := NameAt(src, i + 1, false, []);
      if r.Got? {
        PlainTextCat(names, r.value);
        assert src[..r.next] == src[..i] + ([SLASH] + src[i + 1..r.next]);
        WritesPlainText(src, r.next, names + [r.value]);
      }
    }
  }

  lemma EmptyName()
    ensures PlainName([]) == []
  {
  }

  /** A valid plain pointer is written as it was read. */
  lemma PlainTextIsKept(src: seq<int>)
    requires !IsFragment(src) && ParseNames(src).Got?
    ensures PlainText(ParseNames(src).value) == src
  {
    assert src[..0] == [];
    WritesPlainText(src, 0, []);
  }

  // ----- fragments

  lemma ReadsTriplet(src: seq<int>, i: nat, b: int)
    requires IsByte(b) && At(src, i, Percent(b))
    ensures Triplet(src, i) == Some(b) && i < |src| && src[i] == PERCENT
  {
    var t := Percent(b);
    AtFirst(src, i, t);
    AtFirst(src, i + 1, t[1..]);
    AtFirst(src, i + 2, t[2..]);
    assert t[1..][1..] == t[2..];
  }

  lemma {:induction false} ReadsTriplets(src: seq<int>, i: nat, s: seq<int>)
    requires AreBytes(s) && At(src, i, PercentAll(s))
    ensures Triplets(src, i, |s|) == Some(s) && |PercentAll(s)| == 3 * |s|
    ensures s != [] ==> Triplet(src, i) == Some(s[0]) && i < |src| && src[i] == PERCENT
    decreases |s|
  {
    hide Triplet, Percent, At;
    if s != [] {
      assert IsByte(s[0]);
      AtSplit(src, i, Percent(s[0]), PercentAll(s[1..]));
      ReadsTriplet(src, i, s[0]);
      PercentLength(s[0]);
      ReadsTriplets(src, i + 3, s[1..]);
      assert [s[0]] + s[1..] == s;
    }
  }

  lemma PercentLength(b: int)
    requires IsByte(b)
    ensures |Percent(b)| == 3
  {
  }

  /** One character of a name, in a fragment. */
  lemma ReadsFragmentChar(src: seq<int>, i: nat, s: seq<int>, done: Name)
    requires AreBytes(s) && WellFormed(s) && At(src, i, FragmentChar(s))
    ensures NameAt(src, i, true, done) == NameAt(src, i + |FragmentChar(s)|, true, done + s)
  {
    hide NameAt, At, WellFormed, EscapedChar, PercentAll;
    NotEmpty(s);
    if s[0] == TILDE || s[0] == SLASH || !NeedPercentEncode(s[0]) {
      OneByteChar(s);
      ReadsUnreserved(src, i, s[0], done);
    } else {
      ReadsPercentChar(src, i, s, done);
    }
  }

  lemma OneByteChar(s: seq<int>)
    requires WellFormed(s) && s[0] < 0x80
    ensures s == [s[0]]
  {
  }

  lemma ReadsUnreserved(src: seq<int>, i: nat, c: int, done: Name)
    requires (c == TILDE || c == SLASH || !NeedPercentEncode(c)) && At(src, i, EscapedChar(c))
    ensures NameAt(src, i, true, done) == NameAt(src, i + |EscapedChar(c)|, true, done + [c])
  {
    var e := EscapedChar(c);
    AtFirst(src, i, e);
    if |e| == 2 {
      AtFirst(src, i + 1, e[1..]);
    }
  }

  lemma ReadsPercentChar(src: seq<int>, i: nat, s: seq<int>, done: Name)
    requires AreBytes(s) && WellFormed(s) && At(src, i, PercentAll(s)) && s[0] != TILDE && s[0] != SLASH
    ensures NameAt(src, i, true, done) == NameAt(src, i + |PercentAll(s)|, true, done + s)
  {
    ReadsTriplets(src, i, s);
    WidthOfWellFormed(s);
    assert PercentChar(src, i) == Some(s);
    if |s| == 1 {
      assert s == [s[0]];
    }
    hide Triplet, Triplets, WellFormed, PercentAll, Width;
  }

  lemma {:induction false} ReadsFragmentName(src: seq<int>, i: nat, name: Name, done: Name)
    requires AreBytes(name) && FragmentName(name).Some? && At(src, i, FragmentName(name).value)
    ensures NameAt(src, i, true, done) == NameAt(src, i + |FragmentName(name).value|, true, done + name)
    decreases |name|
  {
    hide NameAt, At, WellFormed, FragmentChar, Width, AreBytes;
    if name == [] {
      assert done + name == done;
    } else {
      var n := if name[0] < 0x80 then 1 else Width(name[0]);
      var s, rest := name[..n], name[n..];
      PartsAreBytes(name, n);
      NotEmpty(s);
      AtSplit(src, i, FragmentChar(s), FragmentName(rest).value);
      ReadsFragmentChar(src, i, s, done);
      ReadsFragmentName(src, i + |FragmentChar(s)|, rest, done + s);
      assert done + s + rest == done + name;
    }
  }

  lemma NotEmpty(s: seq<int>)
    requires WellFormed(s)
    ensures s != []
  {
  }

  lemma PartsAreBytes(s: seq<int>, n: nat)
    requires AreBytes(s) && n <= |s|
    ensures AreBytes(s[..n]) && AreBytes(s[n..])
  {
  }

  lemma AtFragmentTail(src: seq<int>, i: nat, names: seq<Name>)
    requires AreNames(names) && names != [] && FragmentTail(names).Some? && At(src, i, FragmentTail(names).value)
    ensures AreBytes(names[0]) && AreNames(names[1..]) && FragmentName(names[0]).Some? && FragmentTail(names[1..]).Some?
    ensures var p, rest := FragmentName(names[0]).value, FragmentTail(names[1..]).value;
            && i < |src| && src[i] == SLASH && At(src, i + 1, p) && At(src, i + 1 + |p|, rest)
            && |FragmentTail(names).value| == 1 + |p| + |rest|
  {
    hide *;
    FragmentTailStep(names);
    var p, rest := FragmentName(names[0]).value, FragmentTail(names[1..]).value;
    AtSplit(src, i, [SLASH], p + rest);
    AtSplit(src, i + 1, p, rest);
    AtFirst(src, i, [SLASH]);
  }

  lemma FragmentTailStep(names: seq<Name>)
    requires AreNames(names) && names != [] && FragmentTail(names).Some?
    ensures AreBytes(names[0]) && AreNames(names[1..]) && FragmentName(names[0]).Some? && FragmentTail(names[1..]).Some?
    ensures FragmentTail(names).value == [SLASH] + (FragmentName(names[0]).value + FragmentTail(names[1..]).value)
  {
    assert AreBytes(names[0]);
    hide FragmentName, AreBytes;
  }

  lemma {:induction false} ReadsFragmentTail(src: seq<int>, i: nat, names: seq<Name>, done: seq<Name>)
    requires AreNames(names) && FragmentTail(names).Some?
    requires At(src, i, FragmentTail(names).value) && i + |FragmentTail(names).value| == |src|
    ensures i < |src| ==> src[i] == SLASH
    ensures NamesAt(src, i, true, done) == Got(done + names, |src|)
    decreases |names|
  {
    hide *;
    if names == [] {
      NoMoreNames(src, i, done);
    } else {
      AtFragmentTail(src, i, names);
      var name := names[0];
      var j := i + 1 + |FragmentName(name).value|;
      ReadsFragmentName(src, i + 1, name, []);
      assert [] + name == name;
      ReadsFragmentTail(src, j, names[1..], done + [name]);
      NameEnds(src, j, true, name);
      NextName(src, i, name, j, done);
      assert done + [name] + names[1..] == done + names;
    }
  }

  lemma NoMoreNames(src: seq<int>, i: nat, done: seq<Name>)
    requires FragmentTail([]).Some? && i + |FragmentTail([]).value| == |src|
    ensures i == |src| && NamesAt(src, i, true, done) == Got(done + [], |src|)
  {
    assert done + [] == done;
  }

  lemma NextName(src: seq<int>, i: nat, name: Name, j: nat, done: seq<Name>)
    requires i < |src| && src[i] == SLASH && NameAt(src, i + 1, true, []) == Got(name, j)
    ensures NamesAt(src, i, true, done) == NamesAt(src, j, true, done + [name])
  {
    hide NameAt;
  }

  /** Names written as a fragment are read back. */
  lemma FragmentRoundTrip(names: seq<Name>)
    requires AreNames(names) && FragmentText(names).Some?
    ensures var text := FragmentText(names).value;
            ParseNames(text) == Got(names, |text|)
  {
    var text := FragmentText(names).value;
    AtWhole(text);
    AtSplit(text, 0, [HASH], FragmentTail(names).value);
    AtFirst(text, 0, [HASH]);
    ReadsFragmentTail(text, 1, names, []);
    assert [] + names == names;
    hide At, FragmentTail, NamesAt;
  }

  /** Names in UTF-8 can be written as a fragment. */
  lemma {:induction false} FragmentExists(name: Name)
    requires AreBytes(name) && DecodeAll(name).Some?
    ensures FragmentName(name).Some?
    decreases |name|
  {
    if name != [] {
      assert IsByte(name[0]);
      var n := Width(name[0]);
      FragmentExists(name[n..]);
      hide WellFormed, FragmentChar;
    }
  }

  lemma {:induction false} FragmentOfUtf8(names: seq<Name>)
    requires AreNames(names) && forall i | 0 <= i < |names| :: DecodeAll(names[i]).Some?
    ensures FragmentText(names).Some?
    decreases |names|
  {
    if names != [] {
      assert AreBytes(names[0]) && DecodeAll(names[0]).Some?;
      FragmentExists(names[0]);
      FragmentOfUtf8(names[1..]);
      hide FragmentName, DecodeAll;
    }
  }

  // ----- signs and errors

  /** The signs of the two forms, written out. */
  lemma NamesWrittenOut(name: Name)
    ensures PlainText([name]) == Codes("/") + PlainName(name) && FragmentText([]) == Some(Codes("#"))
  {
    hide PlainName;
    assert PlainText([name][1..]) == [] && [SLASH] + (PlainName(name) + []) == [SLASH] + PlainName(name);
    assert Codes("/") == [SLASH] && Codes("#") == [HASH] && [HASH] + [] == [HASH];
    assert FragmentTail([]) == Some([]);
  }

  lemma EscapesWrittenOut(c: int)
    ensures PlainName([c]) == if c == '~' as int then Codes("~0") else if c == '/' as int then Codes("~1") else [c]
  {
    OneCharName(c);
    hide PlainName;
    assert Codes("~0") == [TILDE, DIGIT_0] && Codes("~1") == [TILDE, DIGIT_1];
  }

  lemma PercentWrittenOut(b: int)
    requires IsByte(b)
    ensures Percent(b) == Codes("%") + [Codes("0123456789ABCDEF")[b / 16], Codes("0123456789ABCDEF")[b % 16]]
  {
    assert Codes("%") == [PERCENT];
    assert forall d | 0 <= d < 16 :: HexDigitOf(d) == Codes("0123456789ABCDEF")[d];
    hide HexDigitOf;
  }

  /** A pointer begins with a solidus, after the number sign of a fragment. */
  lemma BeginsWithSolidus(src: seq<int>)
    ensures src != [] && src[0] !in Codes("#/") ==> ParseNames(src) == Wrong(TokenMustBeginWithSolidus, 0)
    ensures |src| > 1 && src[0] == '#' as int && src[1] != '/' as int ==> ParseNames(src) == Wrong(TokenMustBeginWithSolidus, 1)
  {
    assert Codes("#/") == [HASH, SLASH];
    hide NamesAt;
  }

  lemma WrongName(src: seq<int>, i: nat, uri: bool, done: seq<Name>, code: PointerError, offset: nat)
    requires i < |src| && src[i] == SLASH && NameAt(src, i + 1, uri, []) == Wrong(code, offset)
    ensures NamesAt(src, i, uri, done) == Wrong(code, offset)
  {
    hide NameAt;
  }

  lemma AfterSolidus(src: seq<int>, i: nat, s: seq<int>)
    requires At(src, i, Codes("/") + s)
    ensures i < |src| && src[i] == SLASH && At(src, i + 1, s)
  {
    AtSplit(src, i, Codes("/"), s);
    AtFirst(src, i, Codes("/"));
    hide At;
  }

  /** A tilde is followed by `0` or `1`, whatever has been read of a name in the plain form. */
  lemma PlainErrors(src: seq<int>, i: nat, name: Name, done: seq<Name>)
    requires At(src, i, Codes("/") + PlainName(name))
    requires var p := i + 1 + |PlainName(name)|; Peek(src, p) == '~' as int && Peek(src, p + 1) !in Codes("01")
    ensures i < |src| && src[i] == SLASH && NamesAt(src, i, false, done) == Wrong(InvalidEscape, i + 1 + |PlainName(name)| + 1)
  {
    var p := i + 1 + |PlainName(name)|;
    hide At, PlainName;
    assert Codes("01") == [DIGIT_0, DIGIT_1];
    AfterSolidus(src, i, PlainName(name));
    ReadsPlainName(src, i + 1, name, []);
    assert NameAt(src, p, false, [] + name) == Wrong(InvalidEscape, p + 1);
    WrongName(src, i, false, done, InvalidEscape, p + 1);
  }

  /** What is wrong with a fragment, after what can be read of a name: a tilde without `0` or `1`; a percent sign without
      two hexadecimal digits; a character that has to be percent-encoded. */
  lemma FragmentErrors(src: seq<int>, i: nat, name: Name, done: seq<Name>)
    requires AreBytes(name) && FragmentName(name).Some? && At(src, i, Codes("/") + FragmentName(name).value)
    ensures i < |src| && src[i] == SLASH
    ensures var p := i + 1 + |FragmentName(name).value|; var c, r := Peek(src, p), NamesAt(src, i, true, done);
            p < |src| ==>
              && (c == '~' as int && Peek(src, p + 1) !in Codes("01") ==> r == Wrong(InvalidEscape, p + 1))
              && (c == '%' as int && !(IsHexChar(Peek(src, p + 1)) && IsHexChar(Peek(src, p + 2))) ==> r == Wrong(InvalidPercentEncoding, p))
              && (NeedPercentEncode(c) && c !in Codes("%/") ==> r == Wrong(CharacterMustPercentEncode, p))
  {
    hide *;
    var p := i + 1 + |FragmentName(name).value|;
    AfterSolidus(src, i, FragmentName(name).value);
    ReadsFragmentName(src, i + 1, name, []);
    if p < |src| {
      ErrorHere(src, p, [] + name);
      match NameAt(src, i + 1, true, [])
      case Wrong(code, offset) => WrongName(src, i, true, done, code, offset);
      case Got(_, _) =>
    }
  }

  lemma ErrorHere(src: seq<int>, p: nat, done: Name)
    requires p < |src|
    ensures var c, r := Peek(src, p), NameAt(src, p, true, done);
            && (c == '~' as int && Peek(src, p + 1) !in Codes("01") ==> r == Wrong(InvalidEscape, p + 1))
            && (c == '%' as int && !(IsHexChar(Peek(src, p + 1)) && IsHexChar(Peek(src, p + 2))) ==> r == Wrong(InvalidPercentEncoding, p))
            && (NeedPercentEncode(c) && c !in Codes("%/") ==> r == Wrong(CharacterMustPercentEncode, p))
  {
    assert Codes("01") == [DIGIT_0, DIGIT_1] && Codes("%/") == [PERCENT, SLASH];
    HexCharsAre(Peek(src, p + 1));
    HexCharsAre(Peek(src, p + 2));
    hide HexDigit, IsHexChar, WellFormed, Triplets, Width, Codes;
  }

  // ----- array indices

  const INVALID_INDEX: nat := 0xFFFF_FFFF

  /** The number a run of digits comes to in 32-bit arithmetic; none when a step is seen to have wrapped around. */
  function WrappedNumber(name: Name, j: nat, n: nat): (r: Option<nat>)
    requires j <= |name| && n < 0x1_0000_0000
    ensures r.Some? ==> r.value < 0x1_0000_0000
    decreases |name| - j
  {
    if j == |name| then Some(n)
    else
      var m := (n * 10 + (name[j] - DIGIT_0)) % 0x1_0000_0000;
      if m < n then None else WrappedNumber(name, j + 1, m)
  }

  /** The array index a name stands for: digits only, without a leading zero. */
  function IndexOf(name: Name): nat {
    if name != [] && (forall i | 0 <= i < |name| :: IsDigit(name[i])) && (|name| > 1 ==> name[0] != DIGIT_0) then
      match WrappedNumber(name, 0, 0)
      case None => INVALID_INDEX
      case Some(n) => n
    else INVALID_INDEX
  }

  lemma {:induction false} WrappedMore(name: Name, c: int, j: nat, n: nat)
    requires j <= |name| && n < 0x1_0000_0000
    ensures WrappedNumber(name + [c], j, n)
         == match WrappedNumber(name, j, n)
            case None => None
            case Some(v) => var m := (v * 10 + (c - DIGIT_0)) % 0x1_0000_0000; if m < v then None else Some(m)
    decreases |name| - j
  {
    if j < |name| {
      var m := (n * 10 + (name[j] - DIGIT_0)) % 0x1_0000_0000;
      if m >= n {
        WrappedMore(name, c, j + 1, m);
      }
    } else {
      var m := (n * 10 + (c - DIGIT_0)) % 0x1_0000_0000;
      if m >= n {
        assert WrappedNumber(name + [c], j + 1, m) == Some(m);
      }
    }
  }

  /** What 32 bits leave of a number. */
  function Cut(n: nat): (r: nat)
    ensures r < 0x1_0000_0000 && (n < 0x1_0000_0000 ==> r == n)
  {
    n % 0x1_0000_0000
  }

  /** Cut to 32 bits, the number does not get smaller with any of its digits: a wrap-around that is not seen. */
  predicate Grows(n: nat)
    decreases n
  {
    n < 10 || (Grows(n / 10) && Cut(n / 10) <= Cut(n))
  }

  lemma {:induction false} SmallGrows(n: nat)
    requires n < 0x1_0000_0000
    ensures Grows(n)
    decreases n
  {
    hide Cut;
    if n >= 10 {
      SmallGrows(n / 10);
    }
  }

  lemma SameRemainder(a: nat, k: nat)
    ensures (a + 0x1_0000_0000 * k) % 0x1_0000_0000 == a % 0x1_0000_0000
  {
  }

  lemma LastDigitCut(n: nat)
    ensures (n / 10 % 0x1_0000_0000 * 10 + n % 10) % 0x1_0000_0000 == n % 0x1_0000_0000
  {
    var q := n / 10;
    var low, high := q % 0x1_0000_0000, q / 0x1_0000_0000;
    assert n == (low * 10 + n % 10) + 0x1_0000_0000 * (high * 10);
    SameRemainder(low * 10 + n % 10, high * 10);
  }

  lemma {:induction false} WrappedDecimal(n: nat)
    ensures WrappedNumber(Decimal(n), 0, 0) == if Grows(n) then Some(Cut(n)) else None
    decreases n
  {
    if n < 10 {
      assert WrappedNumber(Decimal(n), 1, n) == Some(n);
    } else {
      WrappedDecimal(n / 10);
      WrappedMore(Decimal(n / 10), n % 10 + DIGIT_0, 0, 0);
      LastDigitCut(n);
    }
  }

  /** The index of a numeral is the number it denotes, if that is one of 32 bits and not the greatest; of any other
      number, it is what 32 bits leave of it if no digit was seen to wrap around. */
  lemma IndexOfDecimal(n: nat)
    ensures IndexOf(Decimal(n)) == if Grows(n) then Cut(n) else INVALID_INDEX
    ensures n < INVALID_INDEX ==> IndexOf(Decimal(n)) == n
  {
    DecimalDigits(n);
    WrappedDecimal(n);
    if n < 10 {
      assert |Decimal(n)| == 1;
    }
    if n < INVALID_INDEX {
      SmallGrows(n);
    }
    hide WrappedNumber, Decimal, Grows, Cut;
  }

  /** A name of digits without a leading zero is a numeral. */
  lemma {:induction false} NumeralOfName(name: Name) returns (n: nat)
    requires name != [] && (forall i | 0 <= i < |name| :: IsDigit(name[i])) && (|name| > 1 ==> name[0] != DIGIT_0)
    ensures name == Decimal(n)
    decreases |name|
  {
    var last := |name| - 1;
    n := name[last] - DIGIT_0;
    if last > 0 {
      var high := NumeralOfName(name[..last]);
      assert high > 0 by {
        assert Decimal(0) == [DIGIT_0];
      }
      n := high * 10 + n;
      assert name == name[..last] + [name[last]];
    }
  }

  /** Whatever is not the numeral of a number has no index. */
  lemma OnlyNumeralsHaveIndex(name: Name)
    requires forall n: nat :: name != Decimal(n)
    ensures IndexOf(name) == INVALID_INDEX
  {
    if IndexOf(name) != INVALID_INDEX {
      var n := NumeralOfName(name);
    }
  }

  lemma WrapsOnce(n: nat)
    requires 10 <= n && n / 10 < 0x1_0000_0000
    ensures IndexOf(Decimal(n)) == if n / 10 <= Cut(n) then Cut(n) else INVALID_INDEX
  {
    IndexOfDecimal(n);
    SmallGrows(n / 10);
    hide IndexOf, Decimal, Cut;
  }

  lemma CutTwice()
    ensures Cut(10000000000) == 1410065408
  {
  }

  /** Ten thousand million wraps around twice over, but not to a smaller number. */
  lemma WrapIsNotSeen()
    ensures IndexOf(Decimal(10000000000)) == 1410065408
  {
    hide *;
    WrapsOnce(10000000000);
    CutTwice();
  }

  /** A numeral is written as it is, and so is read by itself. */
  lemma {:induction false} DigitsArePlain(name: Name)
    requires forall i | 0 <= i < |name| :: IsDigit(name[i])
    ensures PlainName(name) == name
    decreases |name|
  {
    if name != [] {
      DigitsArePlain(name[1..]);
      assert [name[0]] + name[1..] == name;
    }
  }

  lemma ReadsIndex(n: nat)
    ensures ParseNames(Codes("/") + Decimal(n)) == Got([Decimal(n)], 1 + |Decimal(n)|)
  {
    DecimalDigits(n);
    DigitsArePlain(Decimal(n));
    PlainRoundTrip([Decimal(n)]);
    assert PlainText([Decimal(n)]) == Codes("/") + Decimal(n) by {
      hide Decimal, PlainName;
      assert PlainText([Decimal(n)][1..]) == [];
      assert Codes("/") == [SLASH] && Decimal(n) + [] == Decimal(n);
    }
    hide ParseNames, PlainText, Decimal;
  }
}
