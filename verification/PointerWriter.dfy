/** `GenericPointer::Stringify`: the text of a pointer, in the plain form and as a URI fragment. */
module PointerWriter {
  import opened Ascii
  import opened Streams
  import opened Utf8
  import opened JsonTree
  import opened PointerParser
  import opened PointerText
  import opened Texts
  import opened Wrappers

  /** Puts each byte as a triplet. */
  class PercentEncodeStream {
    const os: OutputStream

    constructor (os: OutputStream)
      ensures this.os == os
    {
      this.os := os;
    }

    method Put(b: int)
      requires IsByte(b)
      modifies os
      ensures os.out == old(os.out) + Percent(b)
    {
      os.Put(PERCENT);
      os.Put(HexDigitOf(b / 16));
      os.Put(HexDigitOf(b % 16));
    }
  }

  // ----- a character that has to be encoded

  lemma {:induction false} PercentOneMore(s: seq<int>, k: nat)
    requires AreBytes(s) && k < |s|
    ensures IsByte(s[k]) && AreBytes(s[..k]) && AreBytes(s[..k + 1])
    ensures PercentAll(s[..k + 1]) == PercentAll(s[..k]) + Percent(s[k])
    decreases k
  {
    if k == 0 {
      assert s[..1][1..] == [] && s[..0] == [];
    } else {
      assert AreBytes(s[1..]) && s[..k + 1][1..] == s[1..][..k] && s[..k][1..] == s[1..][..k - 1];
      PercentOneMore(s[1..], k - 1);
    }
  }

  /** Puts the character at the head of a text percent-encoded, and tells whether it is well formed; what was looked at
      is put either way. */
  method PutPercent(text: seq<int>, os: OutputStream) returns (ok: bool, length: nat)
    requires AreBytes(text) && text != []
    modifies os
    ensures ok <==> Width(text[0]) <= |text| && WellFormed(text[..Width(text[0])])
    ensures ok ==> length == Width(text[0])
    ensures AreBytes(LookedAt(text)) && os.out == old(os.out) + PercentAll(LookedAt(text))
  {
    hide WellFormed, Width, PercentAll, StartsWellFormed, Ahead;
    var source := new InputStream(text);
    var copied := new OutputStream();
    StartsInText(text, 0);
    assert text[0..] == text;
    LookedAtIsBytes(text);
    ok := Validate(source, copied);
    length := source.pos;
    var bytes := copied.out;
    assert bytes == LookedAt(text);
    var target := new PercentEncodeStream(os);
    NothingEncoded(bytes);
    for k := 0 to |bytes|
      invariant AreBytes(bytes[..k]) && os.out == old(os.out) + PercentAll(bytes[..k])
    {
      PercentOneMore(bytes, k);
      target.Put(bytes[k]);
    }
    assert bytes[..|bytes|] == bytes;
  }

  lemma NothingEncoded(bytes: seq<int>)
    ensures PercentAll(bytes[..0]) == []
  {
  }

  /** What `Validate` reads of a text: as many bytes as the first announces, with zeros behind the end. */
  function LookedAt(text: seq<int>): seq<int>
    requires text != []
  {
    Ahead(text, 0, Width(text[0]))
  }

  lemma LookedAtIsBytes(text: seq<int>)
    requires AreBytes(text) && text != []
    ensures AreBytes(LookedAt(text))
    ensures Width(text[0]) <= |text| ==> LookedAt(text) == text[..Width(text[0])]
  {
    hide Width;
    var n := Width(text[0]);
    forall i | 0 <= i < n
      ensures IsByte(LookedAt(text)[i])
    {
      assert LookedAt(text)[i] == Peek(text, 0 + i);
    }
    if n <= |text| {
      AheadIsThere(text, 0, n);
      assert text[0..] == text;
    }
  }

  // ----- names

  function NameText(name: Name, uri: bool): Option<seq<int>>
    requires AreBytes(name)
  {
    if uri then FragmentName(name) else Some(PlainName(name))
  }

  /** The character is put as it is, or escaped. */
  predicate IsEscapedOnly(c: int, uri: bool) {
    c == TILDE || c == SLASH || !(uri && NeedPercentEncode(c))
  }

  /** All that is put for a name, up to the first character to be encoded that is not well formed, and that one
      included. */
  function NamePut(name: Name, uri: bool): seq<int>
    requires AreBytes(name)
  {
    if name == [] then []
    else if IsEscapedOnly(name[0], uri) then EscapedChar(name[0]) + NamePut(name[1..], uri)
    else
      LookedAtIsBytes(name);
      var n := Width(name[0]);
      PercentAll(LookedAt(name)) + if n <= |name| && WellFormed(name[..n]) then NamePut(name[n..], uri) else []
  }

  /** A name that has a text is put as that text. */
  lemma {:induction false} PutIsText(name: Name, uri: bool)
    requires AreBytes(name) && NameText(name, uri).Some?
    ensures NamePut(name, uri) == NameText(name, uri).value
    decreases |name|
  {
    hide WellFormed, Width, PercentAll, EscapedChar, NeedPercentEncode, LookedAt;
    if name != [] {
      if IsEscapedOnly(name[0], uri) {
        EscapedStep(name, uri);
        PutIsText(name[1..], uri);
      } else {
        PercentStep(name);
        LookedAtIsBytes(name);
        StartsInText(name, 0);
        PutIsText(name[Width(name[0])..], uri);
      }
    }
  }

  function After(out: seq<int>, text: Option<seq<int>>): Option<seq<int>> {
    match text
    case None => None
    case Some(t) => Some(out + t)
  }

  /** A character that is put as it is, or escaped. */
  lemma EscapedStep(text: Name, uri: bool)
    requires AreBytes(text) && text != [] && IsEscapedOnly(text[0], uri)
    ensures AreBytes(text[1..]) && NameText(text, uri) == After(EscapedChar(text[0]), NameText(text[1..], uri))
  {
    assert AreBytes(text[1..]);
    if uri {
      assert text[..1] == [text[0]] && WellFormed([text[0]]);
    }
  }

  lemma PercentStep(text: Name)
    requires AreBytes(text) && text != [] && !IsEscapedOnly(text[0], true)
    ensures var n := Width(text[0]);
            if n <= |text| && WellFormed(text[..n]) then
              AreBytes(text[..n]) && AreBytes(text[n..])
              && NameText(text, true) == After(PercentAll(text[..n]), NameText(text[n..], true))
            else NameText(text, true) == None
  {
    hide WellFormed, PercentAll;
    assert IsByte(text[0]);
    var n := Width(text[0]);
    if n <= |text| {
      PartsAreBytes(text, n);
    }
  }

  /** Puts one name: its text, or as much of it as there is before it turns out to have none. */
  method PutName(name: seq<int>, uri: bool, os: OutputStream) returns (ok: bool)
    requires AreBytes(name)
    modifies os
    ensures ok <==> NameText(name, uri).Some?
    ensures os.out == old(os.out) + NamePut(name, uri)
  {
    hide NameText, NeedPercentEncode, WellFormed, Width, PercentAll, AreBytes, EscapedChar, LookedAt;
    var j := 0;
    assert name[0..] == name;
    NothingOfName(uri);
    while j < |name|
      invariant j <= |name| && AreBytes(name[j..]) && (NameText(name, uri).Some? <==> NameText(name[j..], uri).Some?)
      invariant os.out + NamePut(name[j..], uri) == old(os.out) + NamePut(name, uri)
      decreases |name| - j
    {
      ghost var out, text := os.out, name[j..];
      var c := name[j];
      if c == TILDE || c == SLASH || !(uri && NeedPercentEncode(c)) {
        EscapedStep(text, uri);
        Moved(out, EscapedChar(c), NamePut(text[1..], uri));
        PutEscaped(c, os);
        assert text[1..] == name[j + 1..];
        j := j + 1;
      } else {
        PercentStep(text);
        LookedAtIsBytes(text);
        StartsInText(text, 0);
        var ok', length := PutPercent(name[j..], os);
        if !ok' {
          assert PercentAll(LookedAt(text)) + [] == PercentAll(LookedAt(text));
          return false;
        }
        Moved(out, PercentAll(LookedAt(text)), NamePut(text[length..], uri));
        assert text[length..] == name[j + length..];
        j := j + length;
      }
    }
    assert name[j..] == [];
    return true;
  }

  lemma Moved(out: seq<int>, head: seq<int>, rest: seq<int>)
    ensures out + (head + rest) == (out + head) + rest
  {
  }

  lemma NothingOfName(uri: bool)
    ensures NameText([], uri) == Some([]) && NamePut([], uri) == []
  {
  }

  method PutEscaped(c: int, os: OutputStream)
    modifies os
    ensures os.out == old(os.out) + EscapedChar(c)
  {
    if c == TILDE {
      os.Put(TILDE);
      os.Put(DIGIT_0);
    } else if c == SLASH {
      os.Put(TILDE);
      os.Put(DIGIT_1);
    } else {
      os.Put(c);
    }
  }

  // ----- pointers

  function NamesText(names: seq<Name>, uri: bool): Option<seq<int>>
    requires AreNames(names)
  {
    if uri then FragmentTail(names) else Some(PlainText(names))
  }

  /** All that is put for names, up to the first that has no text. */
  function NamesPut(names: seq<Name>, uri: bool): seq<int>
    requires AreNames(names)
  {
    if names == [] then []
    else
      assert AreBytes(names[0]);
      ([SLASH] + NamePut(names[0], uri)) + if NameText(names[0], uri).Some? then NamesPut(names[1..], uri) else []
  }

  lemma NamesStep(names: seq<Name>, uri: bool)
    requires AreNames(names) && names != []
    ensures AreBytes(names[0]) && AreNames(names[1..])
    ensures NamesText(names, uri) == if NameText(names[0], uri) == None then None
                                     else After([SLASH] + NameText(names[0], uri).value, NamesText(names[1..], uri))
  {
    assert AreBytes(names[0]);
    if uri {
      var first, rest := FragmentName(names[0]), FragmentTail(names[1..]);
      if first.Some? && rest.Some? {
        assert ([SLASH] + first.value) + rest.value == [SLASH] + (first.value + rest.value);
      }
    } else {
      var first, rest := PlainName(names[0]), PlainText(names[1..]);
      assert ([SLASH] + first) + rest == [SLASH] + (first + rest);
    }
  }

  /** Names that have a text are put as that text. */
  lemma {:induction false} PutAreTexts(names: seq<Name>, uri: bool)
    requires AreNames(names) && NamesText(names, uri).Some?
    ensures NamesPut(names, uri) == NamesText(names, uri).value
    decreases |names|
  {
    hide NameText, NamePut, FragmentName, PlainName;
    if names != [] {
      NamesStep(names, uri);
      PutIsText(names[0], uri);
      PutAreTexts(names[1..], uri);
    }
  }

  /** `Stringify` of a pointer that holds these names: their text, or false where a name cannot be encoded, when as much
      has been put as there is before that. */
  method Stringify(pointer: GenericPointer, uri: bool, os: OutputStream, ghost names: seq<Name>) returns (ok: bool)
    requires pointer.HasNames(names) && AreNames(names)
    modifies os
    ensures ok <==> NamesText(names, uri).Some?
    ensures os.out == old(os.out) + ((if uri then [HASH] else []) + NamesPut(names, uri))
  {
    hide NamesText, NameText, NamePut, AreBytes, TokenIs;
    if uri {
      os.Put(HASH);
    }
    ghost var begun := os.out;
    Moved(old(os.out), if uri then [HASH] else [], NamesPut(names, uri));
    assert begun == old(os.out) + if uri then [HASH] else [];
    var t := 0;
    assert names[0..] == names;
    while t < pointer.tokenCount
      invariant t <= |names| && AreNames(names[t..]) && pointer.HasNames(names)
      invariant NamesText(names, uri).Some? <==> NamesText(names[t..], uri).Some?
      invariant os.out + NamesPut(names[t..], uri) == begun + NamesPut(names, uri)
    {
      ghost var out, rest := os.out, names[t..];
      var token := pointer.tokens[t];
      NameOfToken(pointer.nameBuffer[..], pointer.tokens[..], names, t);
      NamesStep(rest, uri);
      os.Put(SLASH);
      var ok' := PutName(pointer.nameBuffer[token.name..token.name + token.length], uri, os);
      assert os.out == out + ([SLASH] + NamePut(rest[0], uri));
      if !ok' {
        assert os.out + [] == os.out;
        Moved(out, [SLASH] + NamePut(rest[0], uri), []);
        return false;
      }
      Moved(out, [SLASH] + NamePut(rest[0], uri), NamesPut(rest[1..], uri));
      assert rest[1..] == names[t + 1..];
      t := t + 1;
    }
    NoNamesLeft(uri);
    assert names[t..] == [];
    return true;
  }

  lemma NoNamesLeft(uri: bool)
    ensures NamesText([], uri) == Some([])
  {
  }

  /** What is put for a pointer that has a text is that text. */
  lemma StringifiedText(names: seq<Name>, uri: bool)
    requires AreNames(names) && NamesText(names, uri).Some?
    ensures (if uri then [HASH] else []) + NamesPut(names, uri)
         == if uri then FragmentText(names).value else PlainText(names)
  {
    hide FragmentTail, PlainText, NamesPut;
    PutAreTexts(names, uri);
    assert [] + NamesPut(names, uri) == NamesPut(names, uri);
  }

  lemma NameOfToken(buffer: seq<int>, tokens: seq<Token>, names: seq<Name>, t: nat)
    requires Stored(buffer, tokens, names, |buffer|) && t < |tokens|
    ensures tokens[t].name + tokens[t].length <= |buffer|
    ensures buffer[tokens[t].name..tokens[t].name + tokens[t].length] == names[t]
  {
    assert TokenIs(buffer, tokens[t], names[t], |buffer|);
  }

  /** Parsing a pointer, writing it in either form and parsing that again: the tokens hold the same names and indices;
      a pointer in the plain form is written as it was.  It can be written as a fragment at least when the names are
      valid UTF-8. */
  method ParseStringifyParse(source: seq<int>, uri: bool) returns (ok: bool, text: seq<int>, again: GenericPointer)
    requires AreBytes(source) && ParseNames(source).Got?
    ensures ok ==> again.HasNames(ParseNames(source).value)
    ensures !uri ==> ok && (!IsFragment(source) ==> text == source)
    ensures uri && (forall name | name in ParseNames(source).value :: DecodeAll(name).Some?) ==> ok
  {
    hide ParseNames, FragmentText, PlainText, NamesPut, AreNames, DecodeAll;
    var pointer := new GenericPointer();
    pointer.Parse(source);
    ghost var names := ParseNames(source).value;
    ParsedAreNames(source);
    var os := new OutputStream();
    ok := Stringify(pointer, uri, os, names);
    text, again := os.out, pointer;
    ghost var put := (if uri then [HASH] else []) + NamesPut(names, uri);
    assert [] + put == put;
    TextExists(source, uri);
    if ok {
      StringifiedText(names, uri);
      PlainRoundTrip(names);
      if uri {
        TextOfFragment(names);
        FragmentRoundTrip(names);
      }
      again := new GenericPointer();
      again.Parse(text);
    }
  }

  lemma TextOfFragment(names: seq<Name>)
    requires AreNames(names)
    ensures NamesText(names, true).Some? <==> FragmentText(names).Some?
  {
  }

  lemma TextExists(source: seq<int>, uri: bool)
    requires AreBytes(source) && ParseNames(source).Got? && AreNames(ParseNames(source).value)
    ensures !uri ==> NamesText(ParseNames(source).value, uri).Some?
    ensures !uri && !IsFragment(source) ==> PlainText(ParseNames(source).value) == source
    ensures uri && (forall name | name in ParseNames(source).value :: DecodeAll(name).Some?) ==>
              NamesText(ParseNames(source).value, uri).Some?
  {
    hide ParseNames, PlainText, DecodeAll;
    var names := ParseNames(source).value;
    if !uri && !IsFragment(source) {
      PlainTextIsKept(source);
    }
    if uri && forall name | name in names :: DecodeAll(name).Some? {
      forall i | 0 <= i < |names|
        ensures DecodeAll(names[i]).Some?
      {
        assert names[i] in names;
      }
      FragmentOfUtf8(names);
    }
  }
}
