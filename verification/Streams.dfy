/** Byte streams: what the readers take from and the writers put into. */
module Streams {
  import opened Texts

  predicate IsByte(b: int) {
    0 <= b < 256
  }

  predicate AreBytes(s: seq<int>) {
    forall i | 0 <= i < |s| :: IsByte(s[i])
  }

  /** `MemoryStream`: reading at the end gives a zero and does not move. */
  class InputStream {
    const src: seq<int>
    var pos: nat

    ghost predicate Valid()
      reads this
    {
      pos <= |src|
    }

    constructor (text: seq<int>)
      ensures Valid() && src == text && pos == 0
    {
      src := text;
      pos := 0;
    }

    function Head(): int
      reads this
    {
      Peek(src, pos)
    }

    method Take() returns (c: int)
      requires Valid()
      modifies this
      ensures Valid() && c == old(Head()) && pos == if old(pos) < |src| then old(pos) + 1 else old(pos)
    {
      c := Head();
      if pos < |src| {
        pos := pos + 1;
      }
    }
  }

  /** `StringBuffer`: what has been put, and the room reserved for more. */
  class OutputStream {
    var out: seq<int>
    var room: nat

    constructor ()
      ensures out == [] && room == 0
    {
      out, room := [], 0;
    }

    method Reserve(count: nat)
      modifies this`room
      ensures room >= count
    {
      if room < count {
        room := count;
      }
    }

    /** Nothing checks the room here: whoever calls this has reserved it. */
    method PutUnsafe(c: int)
      requires room > 0
      modifies this
      ensures out == old(out) + [c] && room == old(room) - 1
    {
      out, room := out + [c], room - 1;
    }

    /** `PushUnsafe`, and filling what it gives. */
    method PutAllUnsafe(s: seq<int>)
      requires room >= |s|
      modifies this
      ensures out == old(out) + s && room == old(room) - |s|
    {
      out, room := out + s, room - |s|;
    }

    method Put(c: int)
      modifies this
      ensures out == old(out) + [c]
    {
      Reserve(1);
      PutUnsafe(c);
    }
  }
}
