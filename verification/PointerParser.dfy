/** `GenericPointer::Parse`: the tokens and their names, in buffers of fixed size. */
module PointerParser {
  import opened Ascii
  import opened Streams
  import opened Utf8
  import opened JsonLexer
  import opened PointerText
  import opened Texts
  import opened Wrappers

  /** A token: where its name begins in the name buffer, how long it is, and the array index it stands for. */
  datatype Token = Token(name: nat, length: nat, index: nat)

  /** The number of solidi, for each of which there is a token. */
  function Solidi(src: seq<int>, i: nat): nat
    requires i <= |src|
    decreases |src| - i
  {
    if i == |src| then 0 else (if src[i] == SLASH then 1 else 0) + Solidi(src, i + 1)
  }

  predicate TokenIs(buffer: seq<int>, t: Token, name: Name, limit: nat) {
    t.name + t.length < limit <= |buffer| && buffer[t.name..t.name + t.length] == name && t.index == IndexOf(name)
  }

  /** The tokens' names are in the buffer, below `limit`. */
  predicate Stored(buffer: seq<int>, tokens: seq<Token>, names: seq<Name>, limit: nat) {
    |tokens| == |names| && forall k | 0 <= k < |tokens| :: TokenIs(buffer, tokens[k], names[k], limit)
  }

  lemma StoredMore(before: seq<int>, after: seq<int>, tokens: seq<Token>, names: seq<Name>, limit: nat, t: Token,
      name: Name, limit': nat)
    requires Stored(before, tokens, names, limit) && limit <= |before| && limit <= limit' <= |after|
    requires before[..limit] == after[..limit] && TokenIs(after, t, name, limit')
    ensures Stored(after, tokens + [t], names + [name], limit')
  {
    forall k | 0 <= k < |tokens|
      ensures TokenIs(after, tokens[k], names[k], limit')
    {
      assert TokenIs(before, tokens[k], names[k], limit);
      var a, b := tokens[k].name, tokens[k].name + tokens[k].length;
      assert before[a..b] == before[..limit][a..b] && after[a..b] == after[..limit][a..b];
    }
  }

  /** Where there is no solidus between two places, there are as many from either on. */
  lemma {:induction false} SolidiStep(src: seq<int>, i: nat, j: nat)
    requires i <= j <= |src| && forall k | i <= k < j :: src[k] != SLASH
    ensures Solidi(src, i) == Solidi(src, j)
    decreases j - i
  {
    if i < j {
      SolidiStep(src, i + 1, j);
    }
  }

  class PercentDecodeStream {
    const src: seq<int>
    const head: nat
    var pos: nat
    var valid: bool

    constructor (source: seq<int>, i: nat)
      requires i <= |source|
      ensures src == source && head == i && pos == i && valid
    {
      src, head, pos, valid := source, i, i, true;
    }

    /** The next byte, or zero and a note that there is none.  Nothing after the first error is meaningful. */
    method Take() returns (c: int)
      modifies this
      ensures valid <==> old(valid) && Triplet(src, old(pos)).Some?
      ensures valid ==> c == Triplet(src, old(pos)).value && pos == old(pos) + 3
      ensures Triplet(src, old(pos)) == None ==> c == 0
    {
      if pos + 3 > |src| || src[pos] != PERCENT {
        valid := false;
        return 0;
      }
      var high := HexDigit(src[pos + 1]);
      if high == None {
        pos, valid := pos + 1, false;
        return 0;
      }
      var low := HexDigit(src[pos + 2]);
      if low == None {
        pos, valid := pos + 2, false;
        return 0;
      }
      pos := pos + 3;
      c := high.value * 16 + low.value;
    }
  }

  lemma {:induction false} TripletsMore(src: seq<int>, i: nat, n: nat)
    ensures Triplets(src, i, n + 1)
         == if Triplets(src, i, n) == None || Triplet(src, i + 3 * n) == None then None
            else Some(Triplets(src, i, n).value + [Triplet(src, i + 3 * n).value])
    decreases n
  {
    hide Triplet;
    if n == 0 {
      assert Triplets(src, i + 3, 0) == Some([]);
      if Triplet(src, i).Some? {
        var last := [Triplet(src, i).value];
        assert last + [] == [] + last;
      }
    } else {
      TripletsMore(src, i + 3, n - 1);
      assert i + 3 + 3 * (n - 1) == i + 3 * n;
      var b, rest := Triplet(src, i), Triplets(src, i + 3, n - 1);
      if b.Some? && rest.Some? && Triplet(src, i + 3 * n).Some? {
        var last := [Triplet(src, i + 3 * n).value];
        assert [b.value] + (rest.value + last) == ([b.value] + rest.value) + last;
      }
    }
  }

  lemma {:induction false} TripletsShort(src: seq<int>, i: nat, n: nat, m: nat)
    requires n <= m && Triplets(src, i, n) == None
    ensures Triplets(src, i, m) == None
    decreases m
  {
    if n < m {
      TripletsShort(src, i, n, m - 1);
      TripletsMore(src, i, m - 1);
    }
    hide Triplet, Triplets;
  }

  /** Reads a percent-encoded character into the name buffer, as `Validate` does: as many bytes as the first announces,
      with the verdict whether they are well formed (`Utf8.Validate`).  What it reads is written even where it turns
      out to be wrong; the buffer has room for it. */
  method DecodePercent(source: seq<int>, i: nat, buffer: array<int>, name: nat) returns (ok: bool, len: nat)
    requires i < |source| && source[i] == PERCENT && buffer.Length == |source| && name < i
    modifies buffer
    ensures buffer[..name] == old(buffer[..name]) && (ok <==> PercentChar(source, i).Some?)
    ensures ok ==> var bytes := PercentChar(source, i).value;
                   len == |bytes| && name + len <= buffer.Length && buffer[name..name + len] == bytes
  {
    hide Triplet, Triplets, WellFormed, Width;
    var stream := new PercentDecodeStream(source, i);
    var c := stream.Take();
    buffer[name] := c;
    len := 1;
    if !stream.valid {
      return false, 1;
    }
    var width := Width(c);
    FirstTriplet(source, i, c);
    var bytes := [c];
    while len < width
      invariant 1 <= len <= width <= 4 && buffer[..name] == old(buffer[..name])
      invariant |bytes| == len && buffer[name..name + len] == bytes && stream.src == source && fresh(stream)
      invariant if stream.valid then stream.pos == i + 3 * len && Triplets(source, i, len) == Some(bytes)
                else Triplets(source, i, width) == None
    {
      TripletsMore(source, i, len);
      if Triplets(source, i, len + 1) == None {
        TripletsShort(source, i, len + 1, width);
      }
      c := stream.Take();
      buffer[name + len] := c;
      bytes := bytes + [c];
      len := len + 1;
    }
    ok := stream.valid && WellFormed(bytes);
  }

  lemma FirstTriplet(source: seq<int>, i: nat, c: int)
    requires Triplet(source, i) == Some(c)
    ensures i + 3 <= |source| && 1 <= Width(c) <= 4 && Triplets(source, i, 1) == Some([c])
  {
    assert Triplets(source, i + 3, 0) == Some([]) && [c] + [] == [c];
  }

  class GenericPointer {
    var nameBuffer: array<int>
    var tokens: array<Token>
    var tokenCount: nat
    var parseErrorOffset: nat
    var parseErrorCode: Option<PointerError>

    /** The pointer holds these names and their indices. */
    ghost predicate HasNames(names: seq<Name>)
      reads this, nameBuffer, tokens
    {
      tokenCount == |names| == tokens.Length && Stored(nameBuffer[..], tokens[..], names, nameBuffer.Length)
    }

    constructor ()
      ensures tokenCount == 0 && parseErrorCode == None
    {
      nameBuffer, tokens := new int[0], new Token[0];
      tokenCount, parseErrorOffset, parseErrorCode := 0, 0, None;
    }

    /** The index of a name that lies in the buffer: its digits in 32-bit arithmetic, with a test for wrap-around. */
    method NumberIn(buffer: array<int>, start: nat, length: nat, allDigits: bool) returns (index: nat)
      requires start + length <= buffer.Length && (allDigits <==> AllDigits(buffer[start..start + length]))
      ensures index == IndexOf(buffer[start..start + length])
    {
      ghost var name := buffer[start..start + length];
      var isNumber := allDigits && length > 0;
      if isNumber && length > 1 && buffer[start] == DIGIT_0 {
        isNumber := false;
      }
      var n: nat := 0;
      if isNumber {
        var j := 0;
        while j < length
          invariant 0 <= j <= length && n < 0x1_0000_0000 && WrappedNumber(name, j, n) == WrappedNumber(name, 0, 0)
        {
          assert name[j] == buffer[start + j] && IsDigit(name[j]);
          var m := (n * 10 + (buffer[start + j] - DIGIT_0)) % 0x1_0000_0000;
          if m < n {
            return INVALID_INDEX;
          }
          n := m;
          j := j + 1;
        }
      }
      index := if isNumber then n else INVALID_INDEX;
    }

    method CountTokens(source: seq<int>) returns (n: nat)
      ensures n == Solidi(source, 0)
    {
      n := 0;
      var s := 0;
      while s != |source|
        invariant 0 <= s <= |source| && n + Solidi(source, s) == Solidi(source, 0)
      {
        if source[s] == SLASH {
          n := n + 1;
        }
        s := s + 1;
      }
    }

    method Fail(code: PointerError, offset: nat)
      modifies this
      ensures parseErrorCode == Some(code) && parseErrorOffset == offset && tokenCount == 0
      ensures fresh(nameBuffer) && fresh(tokens)
    {
      nameBuffer, tokens := new int[0], new Token[0];
      tokenCount, parseErrorOffset, parseErrorCode := 0, offset, Some(code);
    }

    /** `~0` and `~1` */
    method Unescape(source: seq<int>, c: int, i: nat) returns (r: Parsed<int>)
      requires i <= |source|
      ensures r == Unescaped(source, c, i)
    {
      if c == TILDE {
        if i < |source| {
          if source[i] == DIGIT_0 {
            return Got(TILDE, i + 1);
          } else if source[i] == DIGIT_1 {
            return Got(SLASH, i + 1);
          }
        }
        return Wrong(InvalidEscape, i);
      }
      r := Got(c, i);
    }

    /** A percent-encoded character, behind what has been stored of the name. */
    method ReadPercent(source: seq<int>, i: nat, buffer: array<int>, start: nat, name: nat, ghost done: Name)
      returns (ok: bool, len: nat)
      requires i < |source| && source[i] == PERCENT && buffer.Length == |source| && start <= name < i
      requires buffer[start..name] == done
      modifies buffer
      ensures buffer[..start] == old(buffer[..start]) && buffer[start..name] == done && (ok <==> PercentChar(source, i).Some?)
      ensures ok ==> var bytes := PercentChar(source, i).value;
                     len == |bytes| && name + len <= buffer.Length && buffer[start..name + len] == done + bytes
                     && buffer[name] == bytes[0]
    {
      hide PercentChar;
      ghost var below := buffer[..name];
      ok, len := DecodePercent(source, i, buffer, name);
      KeptBelow(below, buffer[..name], start, name);
      if ok {
        assert buffer[start..name + len] == buffer[start..name] + buffer[name..name + len];
        assert buffer[name] == buffer[name..name + len][0];
      }
    }

    /** The loop over the characters of a name, which it stores from `start` on.  The name never gets longer than the
        text it is read from, so there is room for it. */
    method ReadName(source: seq<int>, i0: nat, uri: bool, buffer: array<int>, start: nat)
      returns (r: Parsed<nat>, isNumber: bool)
      requires i0 <= |source| == buffer.Length && start < i0
      modifies buffer
      ensures buffer[..start] == old(buffer[..start])
      ensures match NameAt(source, i0, uri, [])
              case Wrong(code, offset) => r == Wrong(code, offset)
              case Got(name, next) =>
                r == Got(start + |name|, next) && start + |name| < next && buffer[start..start + |name|] == name
                && (isNumber <==> AllDigits(name))
    {
      hide PercentChar, Unescaped, NeedPercentEncode, NameAt, AllDigits;
      var name, i := start, i0;
      ghost var done: Name := [];
      isNumber := true;
      NoDigits();
      while i < |source| && source[i] != SLASH
        invariant i0 <= i <= |source| && name == start + |done| && |done| <= i - i0
        invariant buffer[..start] == old(buffer[..start]) && buffer[start..name] == done
        invariant NameAt(source, i, uri, done) == NameAt(source, i0, uri, []) && (isNumber <==> AllDigits(done))
        decreases |source| - i
      {
        NameAtStep(source, i, uri, done);
        var c := source[i];
        var next := i + 1;
        if uri {
          if c == PERCENT {
            var ok, len := ReadPercent(source, i, buffer, start, name, done);
            if !ok {
              return Wrong(InvalidPercentEncoding, i), false;
            }
            if len > 1 {
              NotDigits(source, i, done);
              done := done + PercentChar(source, i).value;
              name, i := name + len, i + 3 * len;
              isNumber := false;
              continue;
            }
            c, next := buffer[name], i + 3;
          } else if NeedPercentEncode(c) {
            return Wrong(CharacterMustPercentEncode, i), false;
          }
        }
        var u := Unescape(source, c, next);
        match u
        case Wrong(code, offset) =>
          return Wrong(code, offset), false;
        case Got(ch, after) =>
          DigitsMore(done, ch);
          if !IsDigit(ch) {
            isNumber := false;
          }
          buffer[name] := ch;
          assert buffer[start..name + 1] == done + [ch];
          name, i := name + 1, after;
          done := done + [ch];
      }
      NameAtEnd(source, i, uri, done);
      r := Got(name, i);
    }

    /** The end of a name: its terminator, and its token. */
    method StoreToken(buffer: array<int>, list: array<Token>, token: nat, name: nat, end: nat, isNumber: bool,
        ghost before: seq<int>, ghost started: seq<Token>, ghost names: seq<Name>)
      requires name <= end < buffer.Length && token < list.Length && |before| == buffer.Length
      requires (isNumber <==> AllDigits(buffer[name..end])) && started == list[..token]
      requires before[..name] == buffer[..name] && Stored(before, started, names, name)
      modifies buffer, list
      ensures Stored(buffer[..], list[..token + 1], names + [old(buffer[name..end])], end + 1)
    {
      hide Stored, TokenIs, AllDigits, IndexOf;
      var length := end - name;
      buffer[end] := 0;
      ghost var text := buffer[name..end];
      var index := NumberIn(buffer, name, length, isNumber);
      list[token] := Token(name, length, index);
      assert before[..name] == buffer[..][..name] && buffer[..][name..name + length] == text;
      TokenIsStored(buffer[..], list[token], text, end + 1);
      StoredMore(before, buffer[..], started, names, name, list[token], text, end + 1);
      assert list[..token + 1] == started + [list[token]];
    }

    /** `Parse`: exactly the pointers of the grammar are read, into their names and the indices these stand for;
        otherwise the error and its offset are kept.  Every byte is written inside the name buffer, which is as long
        as the text, and every token inside the list, which has one for each solidus. */
    method Parse(source: seq<int>)
      modifies this
      ensures match ParseNames(source)
              case Got(names, _) => parseErrorCode == None && HasNames(names)
              case Wrong(code, offset) => parseErrorCode == Some(code) && parseErrorOffset == offset && tokenCount == 0
      ensures fresh(nameBuffer) && fresh(tokens)
    {
      hide NameAt, NamesAt, Stored, TokenIs, Solidi, AllDigits;
      var count := CountTokens(source);
      var list, buffer := new Token[count](_ => Token(0, 0, 0)), new int[|source|];
      var uri := |source| > 0 && source[0] == HASH;
      var i := if uri then 1 else 0;
      if i != |source| && source[i] != SLASH {
        Fail(TokenMustBeginWithSolidus, i);
        return;
      }
      ghost var names: seq<Name> := [];
      var name, token := 0, 0;
      NothingStored(buffer[..], list[..0]);
      SolidiOfFragment(source);
      while i < |source|
        invariant i <= |source| && (i < |source| ==> source[i] == SLASH) && name <= i && fresh(buffer) && fresh(list)
        invariant token + Solidi(source, i) == count == list.Length && buffer.Length == |source|
        invariant NamesAt(source, i, uri, names) == ParseNames(source)
        invariant Stored(buffer[..], list[..token], names, name)
        decreases |source| - i
      {
        i := i + 1;
        NamesStep(source, i - 1, uri, names);
        ghost var before, started := buffer[..], list[..token];
        var r, isNumber := ReadName(source, i, uri, buffer, name);
        match r {
          case Wrong(code, offset) =>
            Fail(code, offset);
            return;
          case Got(end, next) =>
            NameHasNoSolidus(source, i, uri, []);
            SolidiStep(source, i, next);
            SolidusHere(source, i - 1);
            ghost var text := buffer[name..end];
            StoreToken(buffer, list, token, name, end, isNumber, before, started, names);
            names := names + [text];
            token, name, i := token + 1, end + 1, next;
        }
      }
      NamesEnd(source, i, uri, names);
      nameBuffer, tokens, tokenCount := buffer, list, token;
      parseErrorCode := None;
      NoMoreSolidi(source);
      assert list[..token] == list[..];
      StoredBelow(buffer[..], list[..], names, name, buffer.Length);
    }
  }

  lemma NamesStep(source: seq<int>, i: nat, uri: bool, names: seq<Name>)
    requires i < |source| && source[i] == SLASH
    ensures NamesAt(source, i, uri, names)
         == match NameAt(source, i + 1, uri, [])
            case Wrong(code, offset) => Wrong(code, offset)
            case Got(name, next) => NamesAt(source, next, uri, names + [name])
  {
    hide NameAt;
  }

  lemma NamesEnd(source: seq<int>, i: nat, uri: bool, names: seq<Name>)
    requires i == |source|
    ensures NamesAt(source, i, uri, names) == Got(names, i)
  {
  }

  lemma NoMoreSolidi(source: seq<int>)
    ensures Solidi(source, |source|) == 0
  {
  }

  lemma SolidusHere(source: seq<int>, i: nat)
    requires i < |source| && source[i] == SLASH
    ensures Solidi(source, i) == 1 + Solidi(source, i + 1)
  {
  }

  lemma NothingStored(buffer: seq<int>, tokens: seq<Token>)
    requires tokens == []
    ensures Stored(buffer, tokens, [], 0)
  {
  }

  lemma TokenIsStored(buffer: seq<int>, t: Token, name: Name, limit: nat)
    requires t.name + t.length < limit <= |buffer| && buffer[t.name..t.name + t.length] == name && t.index == IndexOf(name)
    ensures TokenIs(buffer, t, name, limit)
  {
  }

  lemma StoredBelow(buffer: seq<int>, tokens: seq<Token>, names: seq<Name>, limit: nat, limit': nat)
    requires Stored(buffer, tokens, names, limit) && limit <= limit' <= |buffer|
    ensures Stored(buffer, tokens, names, limit')
  {
    forall k | 0 <= k < |tokens|
      ensures TokenIs(buffer, tokens[k], names[k], limit')
    {
      assert TokenIs(buffer, tokens[k], names[k], limit);
    }
  }

  /** The mark of a fragment is no solidus. */
  lemma SolidiOfFragment(source: seq<int>)
    ensures source != [] && source[0] == HASH ==> Solidi(source, 0) == Solidi(source, 1)
  {
  }

  /** Reading a name does not pass a solidus. */
  lemma {:induction false} NameHasNoSolidus(source: seq<int>, i: nat, uri: bool, name: Name)
    requires i <= |source|
    ensures var r := NameAt(source, i, uri, name);
            r.Got? ==> forall k | i <= k < r.next :: source[k] != SLASH
    decreases |source| - i
  {
    if i == |source| || source[i] == SLASH {
    } else if uri && source[i] == PERCENT {
      if PercentChar(source, i).Some? {
        var bytes := PercentChar(source, i).value;
        PercentHasNoSolidus(source, i);
        if |bytes| > 1 {
          NameHasNoSolidus(source, i + 3 * |bytes|, uri, name + bytes);
        } else {
          var u := Unescaped(source, bytes[0], i + 3);
          if u.Got? {
            NameHasNoSolidus(source, u.next, uri, name + [u.value]);
          }
        }
      }
    } else {
      var u := Unescaped(source, source[i], i + 1);
      if u.Got? {
        NameHasNoSolidus(source, u.next, uri, name + [u.value]);
      }
    }
    hide PercentChar, NeedPercentEncode;
  }

  lemma {:induction false} TripletsHaveNoSolidus(source: seq<int>, i: nat, n: nat)
    requires Triplets(source, i, n).Some?
    ensures forall k | i <= k < i + 3 * n :: k < |source| && source[k] != SLASH
    decreases n
  {
    if n > 0 {
      TripletsHaveNoSolidus(source, i + 3, n - 1);
    }
  }

  lemma PercentHasNoSolidus(source: seq<int>, i: nat)
    requires PercentChar(source, i).Some?
    ensures forall k | i <= k < i + 3 * |PercentChar(source, i).value| :: k < |source| && source[k] != SLASH
  {
    TripletsHaveNoSolidus(source, i, |PercentChar(source, i).value|);
    hide Triplets;
  }

  lemma NoDigits()
    ensures AllDigits([])
  {
  }

  lemma NameAtEnd(src: seq<int>, i: nat, uri: bool, name: Name)
    requires i <= |src| && (i < |src| ==> src[i] == SLASH)
    ensures NameAt(src, i, uri, name) == Got(name, i)
  {
  }

  /** One character of a name. */
  lemma NameAtStep(src: seq<int>, i: nat, uri: bool, name: Name)
    requires i < |src| && src[i] != SLASH
    ensures NameAt(src, i, uri, name) == NameStep(src, i, uri, name)
  {
    hide PercentChar, Unescaped, NeedPercentEncode;
  }

  function NameStep(src: seq<int>, i: nat, uri: bool, name: Name): Parsed<Name>
    requires i < |src| && src[i] != SLASH
  {
    if uri && src[i] == PERCENT then
      match PercentChar(src, i)
      case None => Wrong(InvalidPercentEncoding, i)
      case Some(bytes) =>
        if |bytes| > 1 then NameAt(src, i + 3 * |bytes|, uri, name + bytes) else AfterChar(src, bytes[0], i + 3, uri, name)
    else if uri && NeedPercentEncode(src[i]) then Wrong(CharacterMustPercentEncode, i)
    else AfterChar(src, src[i], i + 1, uri, name)
  }

  function AfterChar(src: seq<int>, c: int, next: nat, uri: bool, name: Name): Parsed<Name>
    requires next <= |src|
  {
    match Unescaped(src, c, next)
    case Wrong(code, offset) => Wrong(code, offset)
    case Got(d, after) => NameAt(src, after, uri, name + [d])
  }

  lemma KeptBelow(before: seq<int>, after: seq<int>, start: nat, name: nat)
    requires |before| == name && before == after && start <= name
    ensures after[..start] == before[..start] && after[start..name] == before[start..name]
  {
  }

  lemma DigitsMore(done: Name, c: int)
    ensures AllDigits(done + [c]) <==> AllDigits(done) && IsDigit(c)
  {
    assert (done + [c])[|done|] == c;
    if AllDigits(done + [c]) {
      forall i | 0 <= i < |done|
        ensures IsDigit(done[i])
      {
        assert (done + [c])[i] == done[i];
      }
    }
  }

  /** A character of more than one byte is not a digit. */
  lemma NotDigits(source: seq<int>, i: nat, done: Name)
    requires PercentChar(source, i).Some? && |PercentChar(source, i).value| > 1
    ensures !AllDigits(done + PercentChar(source, i).value)
  {
    var bytes := PercentChar(source, i).value;
    assert WellFormed(bytes) && bytes[0] >= 0x80;
    assert (done + bytes)[|done|] == bytes[0];
  }

  /** What has been read of a name, and whether only digits were. */
  predicate AllDigits(s: seq<int>) {
    forall i | 0 <= i < |s| :: IsDigit(s[i])
  }
}
