/** `Writer`: a handler that puts the compact text of the events it is given, and `Accept` with a writer. */
module JsonWriter {
  import opened Ascii
  import opened JsonParser
  import opened JsonTree
  import opened JsonLexer
  import opened Streams
  import opened Texts
  import Itoa

  /** How many values an open container has had, names included. */
  datatype Level = Level(valueCount: nat, inArray: bool)

  predicate IsEscaped(c: int) {
    EscapeLetter(c) != 0
  }

  predicate NoneEscaped(s: seq<int>) {
    forall i | 0 <= i < |s| :: !IsEscaped(s[i])
  }

  /** What the vector instructions compute for a byte: compared with the quote, with the backslash, and the greater of
      it and 0x1F with 0x1F, as unsigned numbers. */
  predicate Lane(b: int) {
    b == QUOTE || b == BACKSLASH || (if b > 0x1F then b else 0x1F) == 0x1F
  }

  /** The first of the sixteen lanes whose bit is set in the mask, or sixteen for a mask of zero. */
  function FirstEscaped(block: seq<int>, i: nat): (k: nat)
    requires |block| == 16 && i <= 16 && AreBytes(block)
    ensures i <= k <= 16 && NoneEscaped(block[i..k]) && (k < 16 ==> IsEscaped(block[k]))
    decreases 16 - i
  {
    if i == 16 then 16
    else if Lane(block[i]) then i
    else
      var k := FirstEscaped(block, i + 1);
      assert block[i..k] == [block[i]] + block[i + 1..k];
      k
  }

  lemma UnescapedStays(s: seq<int>)
    requires NoneEscaped(s)
    ensures Escaped(s) == s
    decreases |s|
  {
    if s != [] {
      UnescapedStays(s[1..]);
      assert s == [s[0]] + s[1..];
    }
  }

  lemma {:induction false} EscapedCat(s: seq<int>, t: seq<int>)
    ensures Escaped(s + t) == Escaped(s) + Escaped(t)
    decreases |s|
  {
    if s == [] {
      assert s + t == t;
    } else {
      assert (s + t)[1..] == s[1..] + t;
      EscapedCat(s[1..], t);
    }
  }

  /** Escaping can make a string six times as long, no more. */
  lemma {:induction false} EscapedLength(s: seq<int>)
    ensures |s| <= |Escaped(s)| <= 6 * |s|
    decreases |s|
  {
    if s != [] {
      EscapedLength(s[1..]);
    }
  }

  // ----- the room for a string

  /** The room `WriteString` reserves for a string of `n` bytes, in 32-bit arithmetic. */
  function RoomFor(n: nat): nat {
    (2 + n * 6) % 0x1_0000_0000
  }

  /** The length of a string for which that sum does not wrap around: at most 715827882. */
  predicate FitsRoom(n: nat) {
    2 + n * 6 < 0x1_0000_0000
  }

  /** A string all of whose bytes take six characters. */
  function Zeros(n: nat): (s: seq<int>)
    ensures |s| == n && AreBytes(s)
  {
    if n == 0 then [] else [0] + Zeros(n - 1)
  }

  lemma {:induction false} ZerosEscaped(n: nat)
    ensures |Escaped(Zeros(n))| == 6 * n
  {
    if n > 0 {
      assert Zeros(n)[1..] == Zeros(n - 1);
      ZerosEscaped(n - 1);
    }
  }

  /** The room suffices for every string of a length exactly if the sum does not wrap around. */
  lemma RoomSuffices(n: nat)
    ensures (forall s | |s| == n && AreBytes(s) :: |Quoted(s)| <= RoomFor(n)) <==> FitsRoom(n)
  {
    if FitsRoom(n) {
      forall s | |s| == n && AreBytes(s)
        ensures |Quoted(s)| <= RoomFor(n)
      {
        EscapedLength(s);
      }
    } else {
      ZerosEscaped(n);
      assert |Quoted(Zeros(n))| == 2 + n * 6;
    }
  }

  /** The first length that wraps around: four places are reserved. */
  lemma RoomWrapsAround()
    ensures RoomFor(715827883) == 4 && !FitsRoom(715827883) && FitsRoom(715827882)
  {
  }

  /** All strings and names of a value are of such a length. */
  predicate StringsFit(v: Tree) {
    match v
    case StringValue(s) => FitsRoom(|s|)
    case ArrayValue(elements) => forall i | 0 <= i < |elements| :: StringsFit(elements[i])
    case ObjectValue(members) => forall i | 0 <= i < |members| :: FitsRoom(|members[i].name|) && StringsFit(members[i].value)
    case _ => true
  }

  // ----- what a value is put after

  /** The separator due before the next value. */
  function Separator(levels: seq<Level>): seq<int> {
    if levels == [] then []
    else
      var top := levels[|levels| - 1];
      if top.valueCount == 0 then [] else if top.inArray || top.valueCount % 2 == 0 then [COMMA] else [COLON]
  }

  function Counted(levels: seq<Level>): seq<Level> {
    if levels == [] then levels
    else
      var top := |levels| - 1;
      levels[top := levels[top].(valueCount := levels[top].valueCount + 1)]
  }

  /** What the assertions of `Prefix` demand: one root only, and names in objects. */
  predicate Admits(levels: seq<Level>, hasRoot: bool, isString: bool) {
    if levels == [] then !hasRoot
    else
      var top := levels[|levels| - 1];
      top.inArray || top.valueCount % 2 == 1 || isString
  }

  class Writer {
    const os: OutputStream
    var levelStack: seq<Level>
    var hasRoot: bool

    constructor (output: OutputStream)
      ensures os == output && levelStack == [] && !hasRoot
    {
      os := output;
      levelStack, hasRoot := [], false;
    }

    /** The state after a value: its text, after the separator, and one more value in its container. */
    twostate predicate Wrote(text: seq<int>)
      reads this, os
    {
      && os.out == old(os.out) + Separator(old(levelStack)) + text
      && levelStack == Counted(old(levelStack)) && (hasRoot <==> old(hasRoot) || old(levelStack) == [])
    }

    method Prefix(isString: bool)
      requires Admits(levelStack, hasRoot, isString)
      modifies this, os
      ensures Wrote([])
    {
      if levelStack != [] {
        var top := |levelStack| - 1;
        var level := levelStack[top];
        if level.valueCount > 0 {
          if level.inArray {
            os.Put(COMMA);
          } else {
            os.Put(if level.valueCount % 2 == 0 then COMMA else COLON);
          }
        }
        levelStack := levelStack[top := level.(valueCount := level.valueCount + 1)];
      } else {
        hasRoot := true;
      }
    }

    method PutText(text: seq<int>)
      modifies os
      ensures os.out == old(os.out) + text
    {
      os.Reserve(|text|);
      os.PutAllUnsafe(text);
    }

    method Null()
      requires Admits(levelStack, hasRoot, false)
      modifies this, os
      ensures Wrote(NULL_TEXT)
    {
      Prefix(false);
      PutText(NULL_TEXT);
    }

    method Bool(b: bool)
      requires Admits(levelStack, hasRoot, false)
      modifies this, os
      ensures Wrote(if b then TRUE_TEXT else FALSE_TEXT)
    {
      Prefix(false);
      PutText(if b then TRUE_TEXT else FALSE_TEXT);
    }

    /** Puts the first `n` bytes of a buffer. */
    method PutBuffer(buffer: array<int>, n: nat)
      requires n <= buffer.Length
      modifies os
      ensures os.out == old(os.out) + buffer[..n]
    {
      os.Reserve(n);
      var p := 0;
      while p < n
        invariant 0 <= p <= n && os.out == old(os.out) + buffer[..p] && os.room >= n - p
      {
        os.PutUnsafe(buffer[p]);
        p := p + 1;
      }
    }

    method Int(i: int)
      requires Admits(levelStack, hasRoot, false) && -INT32_MIN_MAGNITUDE <= i < INT32_MIN_MAGNITUDE
      modifies this, os
      ensures Wrote(Signed(i))
    {
      hide Signed, Decimal, Counted, Separator;
      Prefix(false);
      var buffer := new int[11];
      var end := Itoa.I32toa(i, buffer, 0);
      PutBuffer(buffer, end);
    }

    method Uint(u: nat)
      requires Admits(levelStack, hasRoot, false) && u <= UINT32_MAX
      modifies this, os
      ensures Wrote(Signed(u))
    {
      hide Decimal, Counted, Separator;
      Prefix(false);
      var buffer := new int[10];
      var end := Itoa.U32toa(u, buffer, 0);
      PutBuffer(buffer, end);
    }

    method Int64(i: int)
      requires Admits(levelStack, hasRoot, false) && -INT64_MIN_MAGNITUDE <= i < INT64_MIN_MAGNITUDE
      modifies this, os
      ensures Wrote(Signed(i))
    {
      hide Signed, Decimal, Counted, Separator;
      Prefix(false);
      var buffer := new int[21];
      var end := Itoa.I64toa(i, buffer, 0);
      PutBuffer(buffer, end);
    }

    method Uint64(u: nat)
      requires Admits(levelStack, hasRoot, false) && u <= UINT64_MAX
      modifies this, os
      ensures Wrote(Signed(u))
    {
      hide Decimal, Counted, Separator;
      Prefix(false);
      var buffer := new int[20];
      var end := Itoa.U64toa(u, buffer, 0);
      PutBuffer(buffer, end);
    }

    // ----- strings

    /** Bytes up to `pos` have been copied, and none of them needs an escape. */
    twostate predicate Copied(str: seq<int>, from: nat, pos: nat)
      requires from <= pos <= |str|
      reads os
    {
      NoneEscaped(str[from..pos]) && os.out == old(os.out) + str[from..pos] && os.room == old(os.room) - (pos - from)
    }

    /** The bytes before the first aligned address: `stopped` at one that may need an escape. */
    method ScanUnaligned(str: seq<int>, from: nat, limit: nat) returns (stopped: bool, pos: nat)
      requires AreBytes(str) && from <= limit <= |str| && os.room >= |str| - from
      modifies os
      ensures from <= pos <= limit && Copied(str, from, pos)
      ensures if stopped then pos < limit else pos == limit
    {
      pos := from;
      while pos != limit
        invariant from <= pos <= limit && Copied(str, from, pos)
        decreases limit - pos
      {
        var c := str[pos];
        if c < SPACE || c >= 0x80 || c == QUOTE || c == BACKSLASH {
          return true, pos;
        }
        os.PutUnsafe(c);
        CopiedOn(str, from, pos, pos + 1, old(os.out));
        pos := pos + 1;
      }
      stopped := false;
    }

    lemma CopiedOn(str: seq<int>, from: nat, pos: nat, next: nat, before: seq<int>)
      requires from <= pos <= next <= |str| && NoneEscaped(str[from..pos]) && NoneEscaped(str[pos..next])
      ensures NoneEscaped(str[from..next]) && before + str[from..pos] + str[pos..next] == before + str[from..next]
    {
      assert str[from..next] == str[from..pos] + str[pos..next];
    }

    static lemma BlockFits(pos: nat, limit: nat)
      requires pos < limit && (limit - pos) % 16 == 0
      ensures pos + 16 <= limit && (limit - (pos + 16)) % 16 == 0
    {
    }

    /** What is copied of a block. */
    static lemma PartOfBlock(str: seq<int>, pos: nat, len: nat)
      requires pos + 16 <= |str| && len <= 16
      ensures var block := str[pos..pos + 16];
              block[0..len] == block[..len] == str[pos..pos + len]
    {
    }

    /** Sixteen bytes at a time, up to the first that needs an escape. */
    method ScanBlocks(str: seq<int>, from: nat, limit: nat) returns (pos: nat)
      requires AreBytes(str) && from <= limit <= |str| && (limit - from) % 16 == 0 && os.room >= |str| - from
      modifies os
      ensures from <= pos <= limit && Copied(str, from, pos)
    {
      pos := from;
      while pos != limit
        invariant from <= pos <= limit && (limit - pos) % 16 == 0 && Copied(str, from, pos)
        decreases limit - pos
      {
        BlockFits(pos, limit);
        var block := str[pos..pos + 16];
        var len := FirstEscaped(block, 0);
        PartOfBlock(str, pos, len);
        if len < 16 {
          os.PutAllUnsafe(block[..len]);
          CopiedOn(str, from, pos, pos + len, old(os.out));
          pos := pos + len;
          break;
        }
        os.PutAllUnsafe(block);
        CopiedOn(str, from, pos, pos + 16, old(os.out));
        pos := pos + 16;
      }
    }

    /** The SSE4.2 version of `ScanWriteUnescapedString`, for a string that lies at `address`: it may copy bytes that
        need no escape, sixteen at a time from the first address divisible by sixteen on, and never reads or writes
        outside the string and the room reserved. */
    method ScanWriteUnescapedString(str: seq<int>, address: nat, from: nat) returns (more: bool, pos: nat)
      requires AreBytes(str) && from <= |str| && os.room >= |str| - from
      modifies os
      ensures from <= pos <= |str| && (more <==> pos < |str|) && Copied(str, from, pos)
    {
      pos := from;
      if |str| < 16 || from >= |str| {
        return from < |str|, from;
      }
      var end := address + |str|;
      var nextAligned := (address + from + 15) / 16 * 16;
      var endAligned := end / 16 * 16;
      if nextAligned > end {
        return true, from;
      }
      var stopped;
      stopped, pos := ScanUnaligned(str, from, nextAligned - address);
      if stopped {
        return true, pos;
      }
      ghost var middle := pos;
      pos := ScanBlocks(str, pos, endAligned - address);
      CopiedOn(str, from, middle, pos, old(os.out));
      more := pos < |str|;
    }

    /** One byte, escaped where it has to be. */
    method PutByte(c: int)
      requires IsByte(c) && os.room >= 6
      modifies os
      ensures os.out == old(os.out) + EscapedByte(c) && os.room == old(os.room) - |EscapedByte(c)|
    {
      var e := EscapeLetter(c);
      if e != 0 {
        os.PutUnsafe(BACKSLASH);
        os.PutUnsafe(e);
        if e == LOWER_U {
          os.PutUnsafe(DIGIT_0);
          os.PutUnsafe(DIGIT_0);
          os.PutUnsafe(HexDigitOf(c / 16));
          os.PutUnsafe(HexDigitOf(c % 16));
        }
      } else {
        os.PutUnsafe(c);
      }
    }

    /** `WriteString`: whatever the address of the string, the bytes of the byte-at-a-time escape, in the room
        reserved before. */
    method WriteString(str: seq<int>, address: nat)
      requires AreBytes(str) && FitsRoom(|str|)
      modifies os
      ensures os.out == old(os.out) + Quoted(str)
    {
      hide Escaped, NoneEscaped, EscapedByte, AreBytes;
      os.Reserve(RoomFor(|str|));
      os.PutUnsafe(QUOTE);
      NothingEscaped(str);
      ghost var begun := os.out;
      var more, pos := ScanWriteUnescapedString(str, address, 0);
      ScannedMore(str, 0, pos, begun, begun, os.out);
      while more
        invariant 0 <= pos <= |str| && (more <==> pos < |str|)
        invariant os.out == begun + Escaped(str[..pos]) && os.room >= 1 + (|str| - pos) * 6
        decreases |str| - pos
      {
        ByteAt(str, pos);
        PutByte(str[pos]);
        EscapedOneMore(str, pos);
        Itoa.Assoc(begun, Escaped(str[..pos]), EscapedByte(str[pos]));
        ghost var before, from := os.out, pos + 1;
        more, pos := ScanWriteUnescapedString(str, address, pos + 1);
        ScannedMore(str, from, pos, begun, before, os.out);
      }
      assert str[..pos] == str;
      os.PutUnsafe(QUOTE);
      assert old(os.out) + [QUOTE] + Escaped(str) + [QUOTE] == old(os.out) + ([QUOTE] + (Escaped(str) + [QUOTE]));
    }

    lemma NothingEscaped(str: seq<int>)
      ensures Escaped(str[..0]) == []
    {
    }

    lemma ByteAt(str: seq<int>, pos: nat)
      requires AreBytes(str) && pos < |str|
      ensures IsByte(str[pos])
    {
    }

    lemma EscapedOneMore(str: seq<int>, pos: nat)
      requires pos < |str|
      ensures Escaped(str[..pos + 1]) == Escaped(str[..pos]) + EscapedByte(str[pos])
    {
      EscapedCat(str[..pos], [str[pos]]);
      assert str[..pos + 1] == str[..pos] + [str[pos]];
      assert Escaped([]) == [] && [str[pos]][1..] == [];
    }

    lemma ScannedMore(str: seq<int>, from: nat, to: nat, begun: seq<int>, before: seq<int>, after: seq<int>)
      requires from <= to <= |str| && NoneEscaped(str[from..to])
      requires before == begun + Escaped(str[..from]) && after == before + str[from..to]
      ensures after == begun + Escaped(str[..to])
    {
      hide *;
      var done, copied := str[..from], str[from..to];
      UnescapedStays(copied);
      EscapedCat(done, copied);
      assert str[..to] == done + copied;
      Itoa.Assoc(begun, Escaped(done), copied);
    }

    method String(str: seq<int>, address: nat)
      requires Admits(levelStack, hasRoot, true) && AreBytes(str) && FitsRoom(|str|)
      modifies this, os
      ensures Wrote(Quoted(str))
    {
      Prefix(true);
      WriteString(str, address);
    }

    method Key(str: seq<int>, address: nat)
      requires Admits(levelStack, hasRoot, true) && AreBytes(str) && FitsRoom(|str|)
      modifies this, os
      ensures Wrote(Quoted(str))
    {
      String(str, address);
    }

    // ----- containers

    method StartObject()
      requires Admits(levelStack, hasRoot, false)
      modifies this, os
      ensures os.out == old(os.out) + Separator(old(levelStack)) + [LEFT_BRACE]
      ensures levelStack == Counted(old(levelStack)) + [Level(0, false)] && hasRoot == (old(hasRoot) || old(levelStack) == [])
    {
      Prefix(false);
      levelStack := levelStack + [Level(0, false)];
      os.Put(LEFT_BRACE);
    }

    method StartArray()
      requires Admits(levelStack, hasRoot, false)
      modifies this, os
      ensures os.out == old(os.out) + Separator(old(levelStack)) + [LEFT_BRACKET]
      ensures levelStack == Counted(old(levelStack)) + [Level(0, true)] && hasRoot == (old(hasRoot) || old(levelStack) == [])
    {
      Prefix(false);
      levelStack := levelStack + [Level(0, true)];
      os.Put(LEFT_BRACKET);
    }

    method EndObject()
      requires levelStack != [] && !levelStack[|levelStack| - 1].inArray && levelStack[|levelStack| - 1].valueCount % 2 == 0
      modifies this`levelStack, os
      ensures os.out == old(os.out) + [RIGHT_BRACE] && levelStack == old(levelStack[..|levelStack| - 1])
    {
      levelStack := levelStack[..|levelStack| - 1];
      os.Put(RIGHT_BRACE);
    }

    method EndArray()
      requires levelStack != [] && levelStack[|levelStack| - 1].inArray
      modifies this`levelStack, os
      ensures os.out == old(os.out) + [RIGHT_BRACKET] && levelStack == old(levelStack[..|levelStack| - 1])
    {
      levelStack := levelStack[..|levelStack| - 1];
      os.Put(RIGHT_BRACKET);
    }

    // ----- `Accept` with a writer

    /** A number, as the first integer type it fits. */
    method AcceptInteger(i: int)
      requires Admits(levelStack, hasRoot, false) && -INT64_MIN_MAGNITUDE <= i <= UINT64_MAX
      modifies this, os
      ensures Wrote(Signed(i))
    {
      match AcceptedAs(i)
      case Int(n) => Int(n);
      case Uint(n) => Uint(n);
      case Int64(n) => Int64(n);
      case Uint64(n) => Uint64(n);
    }

    /** `GenericValue::Accept`: the writer puts the text of the value.  The strings may lie at any address. */
    method Accept(v: Tree, addresses: seq<int> -> nat)
      requires Admits(levelStack, hasRoot, false) && IsExact(v) && StringsFit(v)
      modifies this, os
      ensures Wrote(Print(v))
      decreases v, 1
    {
      match v
      case NullValue => Null();
      case BoolValue(b) => Bool(b);
      case Integer(i) => AcceptInteger(i);
      case StringValue(s) => String(s, addresses(s));
      case ArrayValue(elements) => AcceptArray(elements, addresses);
      case ObjectValue(members) => AcceptObject(members, addresses);
    }

    method AcceptArray(elements: seq<Tree>, addresses: seq<int> -> nat)
      requires Admits(levelStack, hasRoot, false)
      requires forall i | 0 <= i < |elements| :: IsExact(elements[i]) && StringsFit(elements[i])
      modifies this, os
      ensures Wrote(Print(ArrayValue(elements)))
      decreases elements, 0
    {
      hide Counted, Quoted, Print, IsExact, PrintElements, StringsFit, FitsRoom;
      StartArray();
      NothingPrinted(elements[..0], []);
      ghost var base, levels := os.out, Counted(old(levelStack));
      ghost var root := hasRoot;
      var i := 0;
      while i < |elements|
        invariant 0 <= i <= |elements| && levelStack == levels + [Level(i, true)] && hasRoot == root
        invariant os.out == base + PrintElements(elements[..i])
      {
        LevelCounted(levels, i, true);
        Accept(elements[i], addresses);
        PrintedElements(elements, i);
        ElementWritten(base, PrintElements(elements[..i]), Separator(levels + [Level(i, true)]), Print(elements[i]));
        i := i + 1;
      }
      assert elements[..i] == elements;
      EndArray();
      ContainersPrinted(elements, []);
      ContainerWritten(old(os.out), Separator(old(levelStack)), [LEFT_BRACKET], PrintElements(elements), [RIGHT_BRACKET]);
    }

    method AcceptObject(members: seq<Member>, addresses: seq<int> -> nat)
      requires Admits(levelStack, hasRoot, false)
      requires forall i | 0 <= i < |members| :: AreBytes(members[i].name) && IsExact(members[i].value)
      requires forall i | 0 <= i < |members| :: FitsRoom(|members[i].name|) && StringsFit(members[i].value)
      modifies this, os
      ensures Wrote(Print(ObjectValue(members)))
      decreases members, 0
    {
      hide Counted, Quoted, Print, IsExact, PrintMembers, StringsFit, FitsRoom;
      StartObject();
      NothingPrinted([], members[..0]);
      ghost var base, levels := os.out, Counted(old(levelStack));
      ghost var root := hasRoot;
      var i := 0;
      while i < |members|
        invariant 0 <= i <= |members| && levelStack == levels + [Level(2 * i, false)] && hasRoot == root
        invariant os.out == base + PrintMembers(members[..i])
      {
        LevelCounted(levels, 2 * i, false);
        LevelCounted(levels, 2 * i + 1, false);
        Key(members[i].name, addresses(members[i].name));
        Accept(members[i].value, addresses);
        PrintedMembers(members, i);
        MemberWritten(base, PrintMembers(members[..i]), Separator(levels + [Level(2 * i, false)]), members[i]);
        i := i + 1;
      }
      assert members[..i] == members;
      EndObject();
      ContainersPrinted([], members);
      ContainerWritten(old(os.out), Separator(old(levelStack)), [LEFT_BRACE], PrintMembers(members), [RIGHT_BRACE]);
    }
  }

  lemma {:induction false} PrintElementsCat(a: seq<Tree>, e: Tree)
    ensures PrintElements(a + [e]) == PrintElements(a) + ((if a == [] then [] else [COMMA]) + Print(e))
    decreases |a|
  {
    if a == [] {
      assert a + [e] == [e];
    } else {
      assert (a + [e])[1..] == a[1..] + [e];
      PrintElementsCat(a[1..], e);
    }
    hide Print;
  }

  lemma PrintedElements(elements: seq<Tree>, i: nat)
    requires i < |elements|
    ensures PrintElements(elements[..i + 1]) == PrintElements(elements[..i]) + ((if i == 0 then [] else [COMMA]) + Print(elements[i]))
  {
    assert elements[..i + 1] == elements[..i] + [elements[i]];
    PrintElementsCat(elements[..i], elements[i]);
  }

  lemma {:induction false} PrintMembersCat(a: seq<Member>, m: Member)
    ensures PrintMembers(a + [m]) == PrintMembers(a) + ((if a == [] then [] else [COMMA]) + PrintMember(m))
    decreases |a|
  {
    if a == [] {
      assert a + [m] == [m];
    } else {
      assert (a + [m])[1..] == a[1..] + [m];
      PrintMembersCat(a[1..], m);
    }
    hide PrintMember;
  }

  lemma PrintedMembers(members: seq<Member>, i: nat)
    requires i < |members|
    ensures PrintMembers(members[..i + 1]) == PrintMembers(members[..i]) + ((if i == 0 then [] else [COMMA]) + PrintMember(members[i]))
  {
    assert members[..i + 1] == members[..i] + [members[i]];
    PrintMembersCat(members[..i], members[i]);
  }

  lemma NothingPrinted(elements: seq<Tree>, members: seq<Member>)
    requires elements == [] && members == []
    ensures PrintElements(elements) == [] && PrintMembers(members) == []
  {
  }

  lemma ContainersPrinted(elements: seq<Tree>, members: seq<Member>)
    ensures Print(ArrayValue(elements)) == [LEFT_BRACKET] + (PrintElements(elements) + [RIGHT_BRACKET])
    ensures Print(ObjectValue(members)) == [LEFT_BRACE] + (PrintMembers(members) + [RIGHT_BRACE])
  {
  }

  lemma LevelCounted(levels: seq<Level>, n: nat, inArray: bool)
    ensures Counted(levels + [Level(n, inArray)]) == levels + [Level(n + 1, inArray)]
  {
  }

  lemma ElementWritten(base: seq<int>, so: seq<int>, separator: seq<int>, text: seq<int>)
    ensures base + so + separator + text == base + (so + (separator + text))
  {
  }

  lemma MemberWritten(base: seq<int>, so: seq<int>, separator: seq<int>, m: Member)
    ensures base + so + separator + Quoted(m.name) + [COLON] + Print(m.value) == base + (so + (separator + PrintMember(m)))
  {
    hide Quoted, Print;
  }

  lemma ContainerWritten(base: seq<int>, separator: seq<int>, open: seq<int>, text: seq<int>, close: seq<int>)
    ensures base + separator + open + text + close == base + separator + (open + (text + close))
  {
  }
}
