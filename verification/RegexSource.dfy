/** Where the regular expression engine gets its characters from: patterns and texts are streams of bytes, decoded one
    character after the other. */
module RegexSource {
  import RegexEngine
  import opened RegexGrammar
  import opened RegexLanguage
  import opened Streams
  import opened Texts
  import opened Utf8

  /** The characters of a text, up to its end, to a zero, or to what is not well formed. */
  function Delivered(s: seq<int>): seq<int> {
    if s == [] then []
    else
      var n := Width(s[0]);
      if n <= |s| && Utf8.WellFormed(s[..n]) && Payload(s[..n]) != 0 then [Payload(s[..n])] + Delivered(s[n..]) else []
  }

  /** What a decoder delivers are characters. */
  lemma {:induction false} DeliversCharacters(s: seq<int>)
    ensures IsDecoded(Delivered(s))
  {
    if s != [] {
      var n := Width(s[0]);
      if n <= |s| && Utf8.WellFormed(s[..n]) {
        EncodeInvertsPayload(s[..n]);
        DeliversCharacters(s[n..]);
      }
      hide Width, Utf8.WellFormed, Payload, Encode;
    }
  }

  /** A text of scalar values without a zero is delivered as it was before it was encoded. */
  lemma {:induction false} DeliversWhatWasEncoded(codepoints: seq<int>)
    requires AreScalarValues(codepoints) && IsDecoded(codepoints)
    ensures Delivered(EncodeAll(codepoints)) == codepoints
  {
    if codepoints != [] {
      var c, rest := codepoints[0], EncodeAll(codepoints[1..]);
      assert IsScalarValue(c) && IsCharacter(c);
      EncodeMeans(c);
      WidthOfWellFormed(Encode(c));
      var s := Encode(c) + rest;
      assert s[..|Encode(c)|] == Encode(c) && s[|Encode(c)|..] == rest && s[0] == Encode(c)[0];
      hide Width, Utf8.WellFormed, Payload, Encode, IsScalarValue, IsCharacter;
      DeliversWhatWasEncoded(codepoints[1..]);
      assert [c] + codepoints[1..] == codepoints;
    }
  }

  /** What starts at a place of a text is delivered first. */
  lemma DeliveredAt(src: seq<int>, pos: nat)
    requires AreBytes(src) && pos < |src|
    ensures var n := Width(src[pos]);
            if StartsWellFormed(src, pos) && Payload(Ahead(src, pos, n)) != 0 then
              pos + n <= |src| && Delivered(src[pos..]) == [Payload(Ahead(src, pos, n))] + Delivered(src[pos + n..])
            else Delivered(src[pos..]) == []
  {
    hide Width, Utf8.WellFormed, Payload, StartsWellFormed;
    StartsInText(src, pos);
    var n, rest := Width(src[pos]), src[pos..];
    if n <= |rest| {
      assert rest[n..] == src[pos + n..];
    }
  }

  lemma NothingAhead(src: seq<int>, pos: nat)
    requires pos == |src|
    ensures StartsWellFormed(src, pos) && Width(Peek(src, pos)) == 1 && Payload(Ahead(src, pos, 1)) == 0
    ensures Delivered(src[pos..]) == []
  {
    assert Ahead(src, pos, 1)[0] == Peek(src, pos + 0) == 0;
    assert Ahead(src, pos, 1) == [0];
  }

  /** `DecodedStream` */
  class DecodedStream {
    const input: InputStream
    var codepoint: int

    ghost predicate Valid()
      reads this, input
    {
      input.Valid() && AreBytes(input.src)
    }

    /** What is still to be delivered: the character that has been decoded, and what follows it. */
    function Rest(): seq<int>
      reads this, input
      requires Valid()
    {
      if codepoint == 0 then [] else [codepoint] + Delivered(input.src[input.pos..])
    }

    constructor (input: InputStream)
      requires input.Valid() && AreBytes(input.src)
      modifies input
      ensures this.input == input && Valid() && Rest() == Delivered(input.src[old(input.pos)..])
    {
      this.input, codepoint := input, 0;
      new;
      Decode();
    }

    method Decode()
      requires Valid()
      modifies `codepoint, input
      ensures Valid() && Rest() == Delivered(input.src[old(input.pos)..])
    {
      hide Width, Utf8.WellFormed, Payload, StartsWellFormed, AreBytes;
      ghost var src, pos := input.src, input.pos;
      if pos < |src| {
        StartsInText(src, pos);
        DeliveredAt(src, pos);
      } else {
        NothingAhead(src, pos);
      }
      var ok;
      ok, codepoint := Utf8.Decode(input);
      if !ok {
        codepoint := 0;
      }
    }

    /** The next character, or zero; nothing is decoded after a zero. */
    method Take() returns (c: int)
      requires Valid()
      modifies `codepoint, input
      ensures Valid() && (c == 0 <==> old(Rest()) == []) && (c != 0 ==> c == old(Rest())[0])
      ensures Rest() == if old(Rest()) == [] then [] else old(Rest())[1..]
    {
      c := codepoint;
      if c != 0 {
        Decode();
      }
    }
  }

  lemma FirstMoved(done: seq<int>, rest: seq<int>)
    requires rest != []
    ensures (done + [rest[0]]) + rest[1..] == done + rest
  {
  }

  /** All characters of a stream, as the loops that take them until a zero see them. */
  method TakeAll(stream: DecodedStream) returns (codepoints: seq<int>)
    requires stream.Valid()
    modifies stream`codepoint, stream.input
    ensures codepoints == old(stream.Rest())
  {
    hide Delivered, DecodedStream.Rest;
    codepoints := [];
    ghost var all := stream.Rest();
    assert [] + all == all;
    while true
      invariant stream.Valid() && codepoints + stream.Rest() == all
      decreases |stream.Rest()|
    {
      ghost var rest := stream.Rest();
      var c := stream.Take();
      if c == 0 {
        assert codepoints + [] == codepoints;
        return;
      }
      FirstMoved(codepoints, rest);
      codepoints := codepoints + [c];
    }
  }

  /** A pattern run on the bytes of a text matches exactly if the characters that the text delivers are a word of it. */
  method MatchText(x: Sentence, text: seq<int>) returns (matched: bool)
    requires IsSentence(x) && Guarded(Denotes(x)) && AreBytes(text)
    ensures matched <==> InLanguage(Denotes(x), Delivered(text))
  {
    hide Delivered, Denotes, IsSentence, Guarded, AreBytes;
    var input := new InputStream(text);
    assert text[0..] == text;
    var stream := new DecodedStream(input);
    DeliversCharacters(text);
    var codepoints := TakeAll(stream);
    matched := RegexEngine.Match(x, codepoints);
  }
}
