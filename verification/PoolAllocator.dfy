/** The memory pool: blocks handed out one after the other from chunks of memory, with sizes of 64 bits. */
module PoolAllocator {

  const WIDTH: nat := 0x1_0000_0000_0000_0000

  /** The size of a chunk's header. */
  const HEADER: nat := 24

  /** A chunk: where its header is, how much it can hold, and how much of that is handed out. */
  datatype Chunk = Chunk(address: nat, capacity: nat, size: nat) {
    function Data(): nat {
      address + HEADER
    }
  }

  /** A block that was handed out, with its size a multiple of eight. */
  datatype Block = Block(address: nat, size: nat)

  /** `RAPIDJSON_ALIGN` */
  function Align(n: nat): (r: nat)
    ensures r % 8 == 0
  {
    (n + 7) % WIDTH / 8 * 8
  }

  /** The size of a block for `n` bytes. */
  function RoundedUp(n: nat): nat {
    (n + 7) / 8 * 8
  }

  predicate Apart(a: nat, n: nat, b: nat, m: nat) {
    a + n <= b || b + m <= a
  }

  /** The block is in the used area of the chunk, and aligned as the chunk is. */
  predicate Inside(b: Block, c: Chunk) {
    c.Data() <= b.address && b.address + b.size <= c.Data() + c.size && b.address % 8 == c.address % 8
  }

  predicate ChunkIsSound(c: Chunk, limit: nat) {
    0 < c.address && c.size % 8 == 0 && c.size <= c.capacity && c.Data() + c.capacity <= limit
  }

  predicate ChunksApart(c: Chunk, d: Chunk) {
    Apart(c.address, HEADER + c.capacity, d.address, HEADER + d.capacity)
  }

  predicate IsPlaced(b: Block, chunks: seq<Chunk>) {
    b.size > 0 && exists i | 0 <= i < |chunks| :: Inside(b, chunks[i])
  }

  /** Chunks lie in memory and apart; every block is inside the used area of a chunk; blocks lie apart. */
  ghost predicate Sound(chunks: seq<Chunk>, live: set<Block>, limit: nat) {
    && (forall i | 0 <= i < |chunks| :: ChunkIsSound(chunks[i], limit))
    && (forall i, j | 0 <= i < j < |chunks| :: ChunksApart(chunks[i], chunks[j]))
    && (forall b | b in live :: IsPlaced(b, chunks))
    && (forall b, c | b in live && c in live && b != c :: Apart(b.address, b.size, c.address, c.size))
  }

  /** All chunks are aligned, save perhaps the buffer that was supplied from outside. */
  predicate ChunksAligned(chunks: seq<Chunk>, userBuffer: nat) {
    forall i | 0 <= i < |chunks| :: chunks[i].address == userBuffer || chunks[i].address % 8 == 0
  }

  /** Every block is aligned exactly if its chunk is: those of an aligned buffer are, those of another are not. */
  lemma AlignedAsItsChunk(chunks: seq<Chunk>, live: set<Block>, limit: nat, userBuffer: nat, b: Block)
    requires Sound(chunks, live, limit) && ChunksAligned(chunks, userBuffer) && b in live
    ensures b.address % 8 == 0 || exists i | 0 <= i < |chunks| :: chunks[i].address == userBuffer && Inside(b, chunks[i])
    ensures forall i | 0 <= i < |chunks| && Inside(b, chunks[i]) :: b.address % 8 == 0 <==> chunks[i].address % 8 == 0
  {
    assert IsPlaced(b, chunks);
  }

  /** A block apart from all that are live. */
  ghost predicate IsNew(b: Block, live: set<Block>) {
    forall c | c in live :: Apart(b.address, b.size, c.address, c.size)
  }

  ghost predicate IsInMemory(live: set<Block>, limit: nat) {
    forall b | b in live :: b.size > 0 && HEADER <= b.address && b.address + b.size <= limit
  }

  // ----- handing out a block

  /** The chunk at the head has no room for `size` more, as the 64-bit sum tells. */
  predicate NeedsChunk(chunks: seq<Chunk>, size: nat) {
    chunks == [] || (chunks[0].size + size) % WIDTH > chunks[0].capacity
  }

  function NewCapacity(chunkCapacity: nat, size: nat): nat {
    if chunkCapacity > size then chunkCapacity else size
  }

  /** What the base allocator answers a request for a chunk: zero for none, or where there is room for the bytes asked
      for. */
  predicate IsAnswer(base: nat, chunks: seq<Chunk>, capacity: nat, limit: nat) {
    base == 0
    || (base % 8 == 0 && base + (HEADER + capacity) % WIDTH <= limit
        && forall i | 0 <= i < |chunks| ::
             Apart(base, (HEADER + capacity) % WIDTH, chunks[i].address, HEADER + chunks[i].capacity))
  }

  /** `Malloc` for a positive size and the base allocator's answer, if it is asked. */
  function Allocated(chunks: seq<Chunk>, chunkCapacity: nat, size: nat, base: nat): (seq<Chunk>, nat) {
    var aligned := Align(size);
    if !NeedsChunk(chunks, aligned) then Taken(chunks, aligned)
    else if base == 0 then (chunks, 0)
    else Taken([Chunk(base, NewCapacity(chunkCapacity, aligned), 0)] + chunks, aligned)
  }

  /** The next `size` bytes of the chunk at the head. */
  function Taken(chunks: seq<Chunk>, size: nat): (seq<Chunk>, nat)
    requires chunks != []
  {
    (Grown(chunks, size), chunks[0].Data() + chunks[0].size)
  }

  function Grown(chunks: seq<Chunk>, size: nat): seq<Chunk>
    requires chunks != []
  {
    chunks[0 := Chunk(chunks[0].address, chunks[0].capacity, (chunks[0].size + size) % WIDTH)]
  }

  /** None of the 64-bit sums of `Malloc` wraps around. */
  predicate StaysInWidth(chunks: seq<Chunk>, chunkCapacity: nat, size: nat) {
    RoundedUp(size) < WIDTH
    && (chunks == [] || chunks[0].size + RoundedUp(size) < WIDTH)
    && (NeedsChunk(chunks, RoundedUp(size)) ==> HEADER + NewCapacity(chunkCapacity, RoundedUp(size)) < WIDTH)
  }

  lemma AlignRoundsUp(n: nat)
    requires RoundedUp(n) < WIDTH
    ensures Align(n) == RoundedUp(n) >= n && Align(RoundedUp(n)) == RoundedUp(n)
    ensures n > 0 ==> RoundedUp(n) > 0
  {
  }

  /** A chunk at the head keeps everything else in its place. */
  lemma PlacedMore(b: Block, c: Chunk, chunks: seq<Chunk>)
    requires IsPlaced(b, chunks)
    ensures IsPlaced(b, [c] + chunks)
  {
    var i :| 0 <= i < |chunks| && Inside(b, chunks[i]);
    assert ([c] + chunks)[i + 1] == chunks[i];
  }

  lemma WithNewChunk(chunks: seq<Chunk>, live: set<Block>, limit: nat, capacity: nat, base: nat)
    requires Sound(chunks, live, limit) && base != 0 && IsAnswer(base, chunks, capacity, limit)
    requires HEADER + capacity < WIDTH
    ensures Sound([Chunk(base, capacity, 0)] + chunks, live, limit)
  {
    var c := Chunk(base, capacity, 0);
    forall b | b in live
      ensures IsPlaced(b, [c] + chunks)
    {
      PlacedMore(b, c, chunks);
    }
  }

  /** Bytes at the end of the used area of the head chunk are in no block. */
  lemma PastTheUsed(chunks: seq<Chunk>, live: set<Block>, limit: nat, b: Block, n: nat)
    requires Sound(chunks, live, limit) && chunks != [] && b in live
    requires chunks[0].size + n <= chunks[0].capacity
    ensures Apart(b.address, b.size, chunks[0].Data() + chunks[0].size, n)
  {
    assert IsPlaced(b, chunks);
    var i :| 0 <= i < |chunks| && Inside(b, chunks[i]);
    if i > 0 {
      assert ChunksApart(chunks[0], chunks[i]) && ChunkIsSound(chunks[i], limit);
    }
  }

  lemma StillPlaced(chunks: seq<Chunk>, b: Block, n: nat)
    requires chunks != [] && IsPlaced(b, chunks) && chunks[0].size + n < WIDTH
    ensures IsPlaced(b, Grown(chunks, n))
  {
    var i :| 0 <= i < |chunks| && Inside(b, chunks[i]);
    assert Inside(b, Grown(chunks, n)[i]);
  }

  lemma NoWrapAround(size: nat, n: nat)
    requires size + n < WIDTH && size % 8 == 0 && n % 8 == 0
    ensures (size + n) % WIDTH == size + n && (size + n) % 8 == 0
  {
  }

  lemma GrownIsAligned(chunks: seq<Chunk>, n: nat, userBuffer: nat)
    requires chunks != [] && ChunksAligned(chunks, userBuffer)
    ensures ChunksAligned(Grown(chunks, n), userBuffer)
  {
  }

  /** Growing the used area of the head chunk, with no block in what is added. */
  lemma GrownIsSound(chunks: seq<Chunk>, live: set<Block>, limit: nat, n: nat)
    requires Sound(chunks, live, limit) && chunks != [] && n % 8 == 0 && chunks[0].size + n <= chunks[0].capacity
    requires limit <= WIDTH
    ensures Sound(Grown(chunks, n), live, limit)
  {
    hide IsPlaced;
    assert ChunkIsSound(chunks[0], limit);
    NoWrapAround(chunks[0].size, n);
    forall b | b in live
      ensures IsPlaced(b, Grown(chunks, n))
    {
      StillPlaced(chunks, b, n);
    }
  }

  /** Taking the next bytes of the head chunk. */
  lemma TakenIsSound(chunks: seq<Chunk>, live: set<Block>, limit: nat, n: nat)
    requires Sound(chunks, live, limit) && chunks != [] && n > 0 && n % 8 == 0
    requires chunks[0].size + n <= chunks[0].capacity && limit <= WIDTH
    ensures var (chunks', pointer) := Taken(chunks, n);
            pointer != 0 && IsNew(Block(pointer, n), live) && Sound(chunks', live + {Block(pointer, n)}, limit)
  {
    hide IsPlaced;
    var b := Block(chunks[0].Data() + chunks[0].size, n);
    GrownIsSound(chunks, live, limit, n);
    assert ChunkIsSound(chunks[0], limit);
    NewIsPlaced(chunks, n);
    forall c | c in live
      ensures Apart(b.address, b.size, c.address, c.size)
    {
      PastTheUsed(chunks, live, limit, c, n);
    }
  }

  lemma NewIsPlaced(chunks: seq<Chunk>, n: nat)
    requires chunks != [] && n > 0 && chunks[0].size + n < WIDTH
    requires chunks[0].size % 8 == 0
    ensures IsPlaced(Block(chunks[0].Data() + chunks[0].size, n), Grown(chunks, n))
  {
    assert Inside(Block(chunks[0].Data() + chunks[0].size, n), Grown(chunks, n)[0]);
  }

  /** As long as no 64-bit sum wraps around, `Malloc` hands out a new block, and the pool stays sound. */
  lemma AllocatedStaysSound(chunks: seq<Chunk>, live: set<Block>, limit: nat, chunkCapacity: nat, size: nat, base: nat)
    requires Sound(chunks, live, limit) && limit <= WIDTH && 0 < size && StaysInWidth(chunks, chunkCapacity, size)
    requires IsAnswer(base, chunks, NewCapacity(chunkCapacity, Align(size)), limit)
    ensures var (chunks', pointer) := Allocated(chunks, chunkCapacity, size, base);
            var b := Block(pointer, RoundedUp(size));
            pointer != 0 ==> IsNew(b, live) && Sound(chunks', live + {b}, limit)
  {
    hide Sound, IsAnswer, Taken, IsNew;
    AlignRoundsUp(size);
    HeadIsSound(chunks, live, limit);
    var n, capacity := RoundedUp(size), NewCapacity(chunkCapacity, RoundedUp(size));
    if !NeedsChunk(chunks, n) {
      TakenIsSound(chunks, live, limit, n);
    } else if base != 0 {
      WithNewChunk(chunks, live, limit, capacity, base);
      TakenIsSound([Chunk(base, capacity, 0)] + chunks, live, limit, n);
    }
  }

  lemma HeadIsSound(chunks: seq<Chunk>, live: set<Block>, limit: nat)
    requires Sound(chunks, live, limit)
    ensures chunks != [] ==> ChunkIsSound(chunks[0], limit)
  {
  }

  lemma NullKeepsChunks(chunks: seq<Chunk>, chunkCapacity: nat, size: nat, base: nat)
    ensures var (chunks', pointer) := Allocated(chunks, chunkCapacity, size, base);
            pointer == 0 ==> chunks' == chunks
  {
  }

  lemma PlacedInMemory(chunks: seq<Chunk>, live: set<Block>, limit: nat, b: Block)
    requires Sound(chunks, live, limit) && b in live
    ensures chunks != [] && b.size > 0 && HEADER <= b.address && b.address + b.size <= limit
  {
    assert IsPlaced(b, chunks);
    var i :| 0 <= i < |chunks| && Inside(b, chunks[i]);
    assert ChunkIsSound(chunks[i], limit);
  }

  /** A block that ends as far as the addresses go is not sound. */
  lemma MemoryEnds(chunks: seq<Chunk>, live: set<Block>, limit: nat, b: Block)
    requires b in live && b.address + b.size > WIDTH >= limit
    ensures !Sound(chunks, live, limit)
  {
    if Sound(chunks, live, limit) {
      PlacedInMemory(chunks, live, limit, b);
    }
  }

  lemma WrappedIsUnsound(chunks: seq<Chunk>, live: set<Block>, limit: nat, chunkCapacity: nat, size: nat, base: nat)
    requires limit <= WIDTH && 0 < size && (chunks != [] ==> ChunkIsSound(chunks[0], limit))
    requires !StaysInWidth(chunks, chunkCapacity, size)
    requires Block(Allocated(chunks, chunkCapacity, size, base).1, RoundedUp(size)) in live
    ensures var (chunks', pointer) := Allocated(chunks, chunkCapacity, size, base);
            pointer != 0 ==> !Sound(chunks', live, limit)
  {
    hide Sound;
    var (chunks', pointer) := Allocated(chunks, chunkCapacity, size, base);
    if pointer != 0 && Sound(chunks', live, limit) {
      PlacedInMemory(chunks', live, limit, Block(pointer, RoundedUp(size)));
      HeadIsSound(chunks', live, limit);
      if RoundedUp(size) < WIDTH {
        AlignRoundsUp(size);
      }
    }
  }

  /** A block that `Malloc` hands out is new, and the pool still sound, exactly if none of its 64-bit sums wraps around. */
  lemma AllocatedIsSound(chunks: seq<Chunk>, live: set<Block>, limit: nat, chunkCapacity: nat, size: nat, base: nat)
    requires Sound(chunks, live, limit) && limit <= WIDTH && 0 < size
    requires IsAnswer(base, chunks, NewCapacity(chunkCapacity, Align(size)), limit)
    ensures var (chunks', pointer) := Allocated(chunks, chunkCapacity, size, base);
            var b := Block(pointer, RoundedUp(size));
            if pointer == 0 then chunks' == chunks
            else IsNew(b, live) && Sound(chunks', live + {b}, limit) <==> StaysInWidth(chunks, chunkCapacity, size)
  {
    hide Sound, IsAnswer, IsNew, Allocated, StaysInWidth;
    HeadIsSound(chunks, live, limit);
    NullKeepsChunks(chunks, chunkCapacity, size, base);
    if StaysInWidth(chunks, chunkCapacity, size) {
      AllocatedStaysSound(chunks, live, limit, chunkCapacity, size, base);
    } else {
      var b := Block(Allocated(chunks, chunkCapacity, size, base).1, RoundedUp(size));
      WrappedIsUnsound(chunks, live + {b}, limit, chunkCapacity, size, base);
    }
  }

  /** Where a block goes when no sum wraps around: behind those of the head chunk if it fits there, whatever the base
      allocator would have answered; otherwise at the front of one new chunk, which is of the configured capacity unless
      the block is larger. */
  lemma WhereABlockGoes(chunks: seq<Chunk>, chunkCapacity: nat, size: nat, base: nat)
    requires StaysInWidth(chunks, chunkCapacity, size) && 0 < size
    ensures var n := RoundedUp(size);
            var (chunks', pointer) := Allocated(chunks, chunkCapacity, size, base);
            if chunks != [] && n <= chunks[0].capacity - chunks[0].size then
              && chunks' == [Chunk(chunks[0].address, chunks[0].capacity, chunks[0].size + n)] + chunks[1..]
              && pointer == chunks[0].Data() + chunks[0].size
            else if base == 0 then chunks' == chunks && pointer == 0
            else
              && chunks' == [Chunk(base, chunks'[0].capacity, n)] + chunks && pointer == base + HEADER
              && chunks'[0].capacity in {n, chunkCapacity} && n <= chunks'[0].capacity && chunkCapacity <= chunks'[0].capacity
  {
    AlignRoundsUp(size);
    var n := RoundedUp(size);
    if chunks != [] && !NeedsChunk(chunks, n) {
      assert chunks == [chunks[0]] + chunks[1..];
    }
  }

  /** A sum that wraps around: the head chunk seems empty afterwards, and the block reaches past the end of it. */
  lemma SumWrapsAround()
    ensures var size := WIDTH - 16;
            Allocated([Chunk(64, 1024, 16)], 1024, size, 0) == ([Chunk(64, 1024, 0)], 104)
            && !StaysInWidth([Chunk(64, 1024, 16)], 1024, size)
  {
    var chunks := [Chunk(64, 1024, 16)];
    assert Grown(chunks, WIDTH - 16) == [Chunk(64, 1024, 0)];
  }

  // ----- resizing a block

  /** The block ends where the used area of the head chunk does. */
  predicate EndsTheUsed(chunks: seq<Chunk>, b: Block) {
    chunks != [] && b.address + b.size == chunks[0].Data() + chunks[0].size
  }

  /** The block at the end of the head chunk can be lengthened there, as the 64-bit sum tells. */
  predicate GrowsInPlace(chunks: seq<Chunk>, b: Block, size: nat) {
    b.size < size && EndsTheUsed(chunks, b) && (chunks[0].size + (size - b.size)) % WIDTH <= chunks[0].capacity
  }

  /** `Realloc` of a block, to a positive size. */
  function Reallocated(chunks: seq<Chunk>, chunkCapacity: nat, b: Block, size: nat, base: nat): (seq<Chunk>, nat) {
    var aligned := Align(size);
    if b.size >= aligned then (chunks, b.address)
    else if GrowsInPlace(chunks, b, aligned) then (Grown(chunks, aligned - b.size), b.address)
    else Allocated(chunks, chunkCapacity, aligned, base)
  }

  /** The live blocks after a block was resized where it is, or got a larger successor. */
  function LiveAfter(live: set<Block>, b: Block, pointer: nat, size: nat): set<Block> {
    if pointer == 0 then live
    else (if pointer == b.address then live - {b} else live) + {Block(pointer, RoundedUp(size))}
  }

  /** None of the 64-bit sums of `Realloc` wraps around. */
  predicate ResizeStaysInWidth(chunks: seq<Chunk>, chunkCapacity: nat, b: Block, size: nat) {
    RoundedUp(size) < WIDTH
    && (b.size < RoundedUp(size) ==>
          (EndsTheUsed(chunks, b) ==> chunks[0].size + (RoundedUp(size) - b.size) < WIDTH)
          && (!GrowsInPlace(chunks, b, RoundedUp(size)) ==> StaysInWidth(chunks, chunkCapacity, size)))
  }

  /** Where a resized block is when no sum wraps around: where it was if it is large enough already, or ends the used
      area and has room behind it, of which it takes just what it lacks; otherwise where a new block goes. */
  lemma WhereAResizedBlockIs(chunks: seq<Chunk>, chunkCapacity: nat, b: Block, size: nat, base: nat)
    requires ResizeStaysInWidth(chunks, chunkCapacity, b, size) && 0 < size
    ensures var n, c := RoundedUp(size), if chunks == [] then Chunk(0, 0, 0) else chunks[0];
            var r := Reallocated(chunks, chunkCapacity, b, size, base);
            if n <= b.size then r == (chunks, b.address)
            else if chunks != [] && b.address + b.size == c.address + 24 + c.size && n - b.size <= c.capacity - c.size then
              r == ([Chunk(c.address, c.capacity, c.size + (n - b.size))] + chunks[1..], b.address)
            else r == Allocated(chunks, chunkCapacity, size, base)
  {
    AlignRoundsUp(size);
    var n := RoundedUp(size);
    hide RoundedUp, Align, Allocated, StaysInWidth;
    if chunks != [] && b.size < n && EndsTheUsed(chunks, b) {
      var c := chunks[0];
      assert (c.size + (n - b.size)) % WIDTH == c.size + (n - b.size);
      assert Grown(chunks, n - b.size) == [Chunk(c.address, c.capacity, c.size + (n - b.size))] + chunks[1..];
    }
  }

  lemma ElsewhereEndsElsewhere(chunks: seq<Chunk>, live: set<Block>, limit: nat, b: Block, i: nat)
    requires Sound(chunks, live, limit) && i < |chunks| && Inside(b, chunks[i]) && b.size > 0
    ensures i > 0 ==> !EndsTheUsed(chunks, b)
  {
    if i > 0 {
      assert ChunksApart(chunks[0], chunks[i]) && ChunkIsSound(chunks[i], limit) && ChunkIsSound(chunks[0], limit);
    }
  }

  /** The block that ends where the used area of the head chunk does is the last one of that chunk. */
  lemma LastOfTheHead(chunks: seq<Chunk>, live: set<Block>, limit: nat, b: Block)
    requires Sound(chunks, live, limit) && b in live && EndsTheUsed(chunks, b)
    ensures Inside(b, chunks[0])
    ensures forall c | c in live && c != b && Inside(c, chunks[0]) :: c.address + c.size <= b.address
  {
    assert IsPlaced(b, chunks);
    var i :| 0 <= i < |chunks| && Inside(b, chunks[i]);
    ElsewhereEndsElsewhere(chunks, live, limit, b, i);
    forall c | c in live && c != b && Inside(c, chunks[0])
      ensures c.address + c.size <= b.address
    {
      assert IsPlaced(c, chunks);
    }
  }

  /** Taking a block for a shorter one at the same place. */
  lemma ShortenedIsSound(chunks: seq<Chunk>, live: set<Block>, limit: nat, b: Block, size: nat)
    requires Sound(chunks, live, limit) && b in live && 0 < size <= b.size
    ensures IsNew(Block(b.address, size), live - {b}) && Sound(chunks, live - {b} + {Block(b.address, size)}, limit)
  {
    hide IsPlaced;
    assert IsPlaced(b, chunks);
    ShorterIsPlaced(chunks, b, size);
  }

  lemma ShorterIsPlaced(chunks: seq<Chunk>, b: Block, size: nat)
    requires IsPlaced(b, chunks) && 0 < size <= b.size
    ensures IsPlaced(Block(b.address, size), chunks)
  {
    var i :| 0 <= i < |chunks| && Inside(b, chunks[i]);
    assert Inside(Block(b.address, size), chunks[i]);
  }

  /** Lengthening the last block of the head chunk. */
  lemma LengthenedIsSound(chunks: seq<Chunk>, live: set<Block>, limit: nat, b: Block, size: nat)
    requires Sound(chunks, live, limit) && b in live && EndsTheUsed(chunks, b) && b.size < size && limit <= WIDTH
    requires (size - b.size) % 8 == 0 && chunks[0].size + (size - b.size) <= chunks[0].capacity
    ensures IsNew(Block(b.address, size), live - {b})
    ensures Sound(Grown(chunks, size - b.size), live - {b} + {Block(b.address, size)}, limit)
  {
    hide IsPlaced;
    var n := size - b.size;
    var longer := Block(b.address, size);
    GrownIsSound(chunks, live, limit, n);
    LastOfTheHead(chunks, live, limit, b);
    LongerIsPlaced(chunks, limit, b, size);
    forall c | c in live && c != b
      ensures Apart(longer.address, longer.size, c.address, c.size)
    {
      PastTheUsed(chunks, live, limit, c, n);
      PlacedIsNotEmpty(c, chunks);
    }
  }

  lemma PlacedIsNotEmpty(b: Block, chunks: seq<Chunk>)
    requires IsPlaced(b, chunks)
    ensures b.size > 0
  {
  }

  lemma LongerIsPlaced(chunks: seq<Chunk>, limit: nat, b: Block, size: nat)
    requires chunks != [] && ChunkIsSound(chunks[0], limit) && limit <= WIDTH && EndsTheUsed(chunks, b)
    requires IsPlaced(b, chunks) && Inside(b, chunks[0]) && b.size < size
    requires chunks[0].size + (size - b.size) <= chunks[0].capacity
    ensures IsPlaced(Block(b.address, size), Grown(chunks, size - b.size))
  {
    assert Inside(Block(b.address, size), Grown(chunks, size - b.size)[0]);
  }

  /** What `Realloc` gives is apart from all other blocks, and the pool still sound, exactly if none of its 64-bit sums
      wraps around. */
  lemma ReallocatedIsSound(chunks: seq<Chunk>, live: set<Block>, limit: nat, chunkCapacity: nat, b: Block, size: nat,
      base: nat)
    requires Sound(chunks, live, limit) && limit <= WIDTH && 0 < size < WIDTH && b in live && b.size % 8 == 0
    requires IsAnswer(base, chunks, NewCapacity(chunkCapacity, Align(size)), limit)
    ensures var (chunks', pointer) := Reallocated(chunks, chunkCapacity, b, size, base);
            if pointer == 0 then chunks' == chunks
            else
              IsNew(Block(pointer, RoundedUp(size)), live - {b}) && Sound(chunks', LiveAfter(live, b, pointer, size), limit)
              <==> ResizeStaysInWidth(chunks, chunkCapacity, b, size)
  {
    hide Sound, IsAnswer, IsNew, Allocated, StaysInWidth;
    HeadIsSound(chunks, live, limit);
    if ResizeStaysInWidth(chunks, chunkCapacity, b, size) {
      ResizedStaysSound(chunks, live, limit, chunkCapacity, b, size, base);
    } else {
      WrappedResizeIsUnsound(chunks, live, limit, chunkCapacity, b, size, base);
    }
  }

  lemma ResizedStaysSound(chunks: seq<Chunk>, live: set<Block>, limit: nat, chunkCapacity: nat, b: Block, size: nat,
      base: nat)
    requires Sound(chunks, live, limit) && limit <= WIDTH && 0 < size < WIDTH && b in live && b.size % 8 == 0
    requires IsAnswer(base, chunks, NewCapacity(chunkCapacity, Align(size)), limit)
    requires ResizeStaysInWidth(chunks, chunkCapacity, b, size)
    ensures var (chunks', pointer) := Reallocated(chunks, chunkCapacity, b, size, base);
            if pointer == 0 then chunks' == chunks
            else
              IsNew(Block(pointer, RoundedUp(size)), live - {b}) && Sound(chunks', LiveAfter(live, b, pointer, size), limit)
  {
    hide Sound, IsAnswer, Allocated, StaysInWidth;
    AlignRoundsUp(size);
    PlacedInMemory(chunks, live, limit, b);
    var n := RoundedUp(size);
    if b.size >= n {
      ShortenedIsSound(chunks, live, limit, b, n);
    } else if GrowsInPlace(chunks, b, n) {
      LengthenedIsSound(chunks, live, limit, b, n);
    } else {
      SameWidth(chunks, chunkCapacity, size);
      NullKeepsChunks(chunks, chunkCapacity, n, base);
      AllocatedStaysSound(chunks, live, limit, chunkCapacity, n, base);
    }
  }

  lemma SameWidth(chunks: seq<Chunk>, chunkCapacity: nat, size: nat)
    requires RoundedUp(size) < WIDTH
    ensures RoundedUp(RoundedUp(size)) == RoundedUp(size)
    ensures StaysInWidth(chunks, chunkCapacity, RoundedUp(size)) <==> StaysInWidth(chunks, chunkCapacity, size)
  {
  }

  /** A sum that wraps around makes `Realloc` keep the block where it is. */
  lemma WrappedStays(chunks: seq<Chunk>, limit: nat, chunkCapacity: nat, b: Block, size: nat, base: nat)
    requires chunks != [] && ChunkIsSound(chunks[0], limit) && limit <= WIDTH && 0 < size < WIDTH
    requires RoundedUp(size) >= WIDTH || (EndsTheUsed(chunks, b) && chunks[0].size + (RoundedUp(size) - b.size) >= WIDTH)
    ensures Reallocated(chunks, chunkCapacity, b, size, base).1 == b.address
    ensures b.address > 0 ==> b.address + RoundedUp(size) > WIDTH
  {
    hide Allocated;
    if RoundedUp(size) < WIDTH {
      AlignRoundsUp(size);
    } else {
      assert Align(size) == 0;
    }
  }

  lemma WrappedResizeIsUnsound(chunks: seq<Chunk>, live: set<Block>, limit: nat, chunkCapacity: nat, b: Block,
      size: nat,
      base: nat)
    requires Sound(chunks, live, limit) && limit <= WIDTH && 0 < size < WIDTH && b in live && b.size % 8 == 0
    requires !ResizeStaysInWidth(chunks, chunkCapacity, b, size)
    ensures var (chunks', pointer) := Reallocated(chunks, chunkCapacity, b, size, base);
            if pointer == 0 then chunks' == chunks else !Sound(chunks', LiveAfter(live, b, pointer, size), limit)
  {
    hide Sound, Allocated, StaysInWidth, Align, RoundedUp, ChunkIsSound;
    HeadIsSound(chunks, live, limit);
    PlacedInMemory(chunks, live, limit, b);
    var (chunks', pointer) := Reallocated(chunks, chunkCapacity, b, size, base);
    var after, n := LiveAfter(live, b, pointer, size), RoundedUp(size);
    if n >= WIDTH || (EndsTheUsed(chunks, b) && chunks[0].size + (n - b.size) >= WIDTH) {
      WrappedStays(chunks, limit, chunkCapacity, b, size, base);
      if Sound(chunks', after, limit) {
        MemoryEnds(chunks', after, limit, Block(pointer, n));
      }
    } else {
      AlignRoundsUp(size);
      SameWidth(chunks, chunkCapacity, size);
      NullKeepsChunks(chunks, chunkCapacity, n, base);
      if pointer != 0 {
        WrappedIsUnsound(chunks, after, limit, chunkCapacity, n, base);
      }
    }
  }

  // ----- totals

  function TotalSize(chunks: seq<Chunk>): nat {
    if chunks == [] then 0 else chunks[0].size + TotalSize(chunks[1..])
  }

  function TotalCapacity(chunks: seq<Chunk>): nat {
    if chunks == [] then 0 else chunks[0].capacity + TotalCapacity(chunks[1..])
  }

  /** The addresses of a stretch of memory. */
  ghost function Stretch(a: nat, n: nat): (r: set<int>)
    ensures |r| == n
    ensures forall x :: x in r <==> a <= x < a + n
  {
    if n == 0 then {} else Stretch(a, n - 1) + {a + n - 1}
  }

  /** The addresses of all chunks. */
  ghost function Covered(chunks: seq<Chunk>): set<int> {
    if chunks == [] then {}
    else Stretch(chunks[0].address, HEADER + chunks[0].capacity) + Covered(chunks[1..])
  }

  lemma {:induction false} CoveredByOne(chunks: seq<Chunk>, x: int)
    requires x in Covered(chunks)
    ensures exists i | 0 <= i < |chunks| :: chunks[i].address <= x < chunks[i].address + HEADER + chunks[i].capacity
  {
    if x in Stretch(chunks[0].address, HEADER + chunks[0].capacity) {
      assert chunks[0].address <= x;
    } else {
      CoveredByOne(chunks[1..], x);
      var i :| 0 <= i < |chunks[1..]| && chunks[1..][i].address <= x < chunks[1..][i].address + HEADER + chunks[1..][i].capacity;
      assert chunks[i + 1] == chunks[1..][i];
    }
  }

  lemma {:induction false} CoveredIsAsMuch(chunks: seq<Chunk>)
    requires forall i, j | 0 <= i < j < |chunks| :: ChunksApart(chunks[i], chunks[j])
    ensures |Covered(chunks)| >= TotalCapacity(chunks) + HEADER * |chunks|
  {
    if chunks != [] {
      forall i, j | 0 <= i < j < |chunks[1..]|
        ensures ChunksApart(chunks[1..][i], chunks[1..][j])
      {
        assert ChunksApart(chunks[i + 1], chunks[j + 1]);
      }
      CoveredIsAsMuch(chunks[1..]);
      var first, others := Stretch(chunks[0].address, HEADER + chunks[0].capacity), Covered(chunks[1..]);
      assert first !! others by {
        forall x | x in others
          ensures x !in first
        {
          CoveredByOne(chunks[1..], x);
          var i :| 0 <= i < |chunks[1..]| && chunks[1..][i].address <= x < chunks[1..][i].address + HEADER + chunks[1..][i].capacity;
          assert ChunksApart(chunks[0], chunks[i + 1]);
        }
      }
    }
  }

  lemma SubsetIsNoLarger(s: set<int>, t: set<int>)
    requires s <= t
    ensures |s| <= |t|
  {
    assert t == s + (t - s);
  }

  /** The chunks lie apart in memory, so their capacities together do not exceed it: no 64-bit total wraps around. */
  lemma TotalsFit(chunks: seq<Chunk>, live: set<Block>, limit: nat)
    requires Sound(chunks, live, limit)
    ensures TotalSize(chunks) <= TotalCapacity(chunks) <= limit
    ensures chunks != [] ==> TotalCapacity(chunks) < limit
  {
    CoveredIsAsMuch(chunks);
    forall x | x in Covered(chunks)
      ensures x in Stretch(0, limit)
    {
      CoveredByOne(chunks, x);
      var i :| 0 <= i < |chunks| && chunks[i].address <= x < chunks[i].address + HEADER + chunks[i].capacity;
      assert ChunkIsSound(chunks[i], limit);
    }
    SubsetIsNoLarger(Covered(chunks), Stretch(0, limit));
    SizesWithinCapacities(chunks);
  }

  lemma {:induction false} SizesWithinCapacities(chunks: seq<Chunk>)
    requires forall i | 0 <= i < |chunks| :: chunks[i].size <= chunks[i].capacity
    ensures TotalSize(chunks) <= TotalCapacity(chunks)
  {
    if chunks != [] {
      SizesWithinCapacities(chunks[1..]);
    }
  }

  lemma {:induction false} TotalsSplit(chunks: seq<Chunk>, i: nat)
    requires i < |chunks|
    ensures TotalSize(chunks[..i + 1]) == TotalSize(chunks[..i]) + chunks[i].size
    ensures TotalCapacity(chunks[..i + 1]) == TotalCapacity(chunks[..i]) + chunks[i].capacity
  {
    if i > 0 {
      TotalsSplit(chunks[1..], i - 1);
      assert chunks[..i + 1][1..] == chunks[1..][..i] && chunks[..i][1..] == chunks[1..][..i - 1];
    }
  }

  lemma {:induction false} TotalsGrow(chunks: seq<Chunk>, i: nat)
    requires i <= |chunks|
    ensures TotalSize(chunks[..i]) <= TotalSize(chunks) && TotalCapacity(chunks[..i]) <= TotalCapacity(chunks)
    decreases |chunks| - i
  {
    if i == |chunks| {
      assert chunks[..i] == chunks;
    } else {
      TotalsSplit(chunks, i);
      TotalsGrow(chunks, i + 1);
    }
  }

  // ----- the allocator

  class MemoryPoolAllocator {
    /** All of memory, by address. */
    const memory: array<int>
    const chunkCapacity: nat
    /** The address of the buffer the user supplied; zero for none. */
    const userBuffer: nat
    /** The chunks, from the one at the head on. */
    var chunks: seq<Chunk>
    /** The blocks handed out since the pool was last cleared. */
    ghost var live: set<Block>

    ghost predicate Valid()
      reads this
    {
      && Sound(chunks, live, memory.Length) && memory.Length <= WIDTH
      && (forall b | b in live :: b.size % 8 == 0)
      && (userBuffer != 0 ==> chunks != [] && chunks[|chunks| - 1].address == userBuffer)
      && ChunksAligned(chunks, userBuffer)
    }

    constructor (memory: array<int>, chunkSize: nat)
      requires memory.Length <= WIDTH
      ensures Valid() && chunks == [] && live == {}
      ensures this.memory == memory && chunkCapacity == chunkSize && userBuffer == 0
    {
      this.memory, chunkCapacity, userBuffer := memory, chunkSize, 0;
      chunks, live := [], {};
    }

    /** With a buffer of the user's as the first chunk. */
    constructor WithBuffer(memory: array<int>, buffer: nat, size: nat, chunkSize: nat)
      requires memory.Length <= WIDTH && buffer + size <= memory.Length
      requires buffer != 0 && size > HEADER
      ensures Valid() && chunks == [Chunk(buffer, size - HEADER, 0)] && live == {}
      ensures this.memory == memory && chunkCapacity == chunkSize && userBuffer == buffer
    {
      this.memory, chunkCapacity, userBuffer := memory, chunkSize, buffer;
      chunks, live := [Chunk(buffer, size - HEADER, 0)], {};
    }

    /** `AddChunk`, with what the base allocator answers. */
    method AddChunk(capacity: nat, base: nat) returns (added: bool)
      modifies `chunks
      ensures added <==> base != 0
      ensures chunks == if added then [Chunk(base, capacity, 0)] + old(chunks) else old(chunks)
    {
      added := base != 0;
      if added {
        chunks := [Chunk(base, capacity, 0)] + chunks;
      }
    }

    /** `Malloc`, with what the base allocator answers should it be asked for a chunk. */
    method Malloc(size: nat, base: nat) returns (pointer: nat)
      requires Valid() && size < WIDTH
      requires IsAnswer(base, chunks, NewCapacity(chunkCapacity, Align(size)), memory.Length)
      modifies this
      ensures (chunks, pointer) == if size == 0 then (old(chunks), 0) else Allocated(old(chunks), chunkCapacity, size, base)
      ensures live == if pointer == 0 then old(live) else old(live) + {Block(pointer, RoundedUp(size))}
      ensures old(StaysInWidth(chunks, chunkCapacity, size)) ==> Valid()
      ensures old(StaysInWidth(chunks, chunkCapacity, size)) && pointer != 0 ==> IsNew(Block(pointer, RoundedUp(size)), old(live))
    {
      hide Sound, IsAnswer, IsNew, StaysInWidth, RoundedUp;
      if size == 0 {
        return 0;
      }
      if StaysInWidth(chunks, chunkCapacity, size) {
        AllocatedStaysSound(chunks, live, memory.Length, chunkCapacity, size, base);
      }
      NullKeepsChunks(chunks, chunkCapacity, size, base);
      AnswerIsAligned(base, chunks, NewCapacity(chunkCapacity, Align(size)), memory.Length);
      var aligned := Align(size);
      if chunks == [] || (chunks[0].size + aligned) % WIDTH > chunks[0].capacity {
        var added := AddChunk(if chunkCapacity > aligned then chunkCapacity else aligned, base);
        if !added {
          return 0;
        }
      }
      var head := chunks[0];
      pointer := head.address + HEADER + head.size;
      chunks := chunks[0 := head.(size := (head.size + aligned) % WIDTH)];
      live := live + {Block(pointer, RoundedUp(size))};
      RoundedUpIsMultiple(size);
    }

    /** `memcpy`, between stretches that lie apart. */
    static method MemCpy(memory: array<int>, target: nat, source: nat, n: nat)
      requires target + n <= memory.Length && source + n <= memory.Length && Apart(target, n, source, n)
      modifies memory
      ensures memory[target..target + n] == old(memory[source..source + n])
      ensures forall a | 0 <= a < memory.Length && !(target <= a < target + n) :: memory[a] == old(memory[a])
    {
      for i := 0 to n
        invariant memory[target..target + i] == old(memory[source..source + i])
        invariant forall a | 0 <= a < memory.Length && !(target <= a < target + i) :: memory[a] == old(memory[a])
      {
        memory[target + i] := memory[source + i];
        assert memory[target..target + i + 1] == memory[target..target + i] + [memory[target + i]];
      }
    }

    /** The last part of `Realloc`: a new block, with the contents of the old one. */
    method MallocAndCopy(original: nat, oldAligned: nat, aligned: nat, base: nat) returns (pointer: nat)
      requires Valid() && Block(original, oldAligned) in live && oldAligned < aligned < WIDTH && RoundedUp(aligned) == aligned
      requires StaysInWidth(chunks, chunkCapacity, aligned)
      requires IsAnswer(base, chunks, NewCapacity(chunkCapacity, Align(aligned)), memory.Length)
      modifies this, memory
      ensures Valid() && (chunks, pointer) == Allocated(old(chunks), chunkCapacity, aligned, base)
      ensures live == if pointer == 0 then old(live) else old(live) + {Block(pointer, aligned)}
      ensures pointer != 0 ==> IsNew(Block(pointer, aligned), old(live)) && pointer != original
      ensures IsInMemory(old(live), memory.Length)
      ensures pointer != 0 ==>
                pointer + oldAligned <= memory.Length
                && memory[pointer..pointer + oldAligned] == old(memory[original..original + oldAligned])
      ensures forall b | b in old(live) ::
                memory[b.address..b.address + b.size] == old(memory[b.address..b.address + b.size])
    {
      hide Sound, IsAnswer, StaysInWidth, RoundedUp, Align, Allocated, IsNew, IsPlaced;
      LiveInMemory(chunks, live, memory.Length);
      pointer := Malloc(aligned, base);
      if pointer != 0 {
        CopyIsApart(old(live), Block(original, oldAligned), pointer, aligned, memory.Length, chunks, live);
        if oldAligned != 0 {
          MemCpy(memory, pointer, original, oldAligned);
        }
      }
    }

    /** `Realloc`, with what the base allocator answers should it be asked for a chunk. */
    method Realloc(original: nat, originalSize: nat, newSize: nat, base: nat) returns (pointer: nat)
      requires Valid() && newSize < WIDTH && originalSize < WIDTH
      requires original != 0 ==> Block(original, RoundedUp(originalSize)) in live
      requires if original == 0 then StaysInWidth(chunks, chunkCapacity, newSize)
               else ResizeStaysInWidth(chunks, chunkCapacity, Block(original, RoundedUp(originalSize)), newSize)
      requires IsAnswer(base, chunks, NewCapacity(chunkCapacity, Align(newSize)), memory.Length)
      modifies this, memory
      ensures Valid()
      ensures newSize == 0 ==> pointer == 0 && chunks == old(chunks)
      ensures newSize > 0 ==>
                (chunks, pointer) == if original == 0 then Allocated(old(chunks), chunkCapacity, newSize, base)
                                     else Reallocated(old(chunks), chunkCapacity, Block(original, RoundedUp(originalSize)), newSize, base)
      ensures live == if original == 0 && pointer != 0 then old(live) + {Block(pointer, RoundedUp(newSize))}
                      else LiveAfter(old(live), Block(original, RoundedUp(originalSize)), pointer, newSize)
      ensures pointer != 0 ==> IsNew(Block(pointer, RoundedUp(newSize)), old(live) - {Block(original, RoundedUp(originalSize))})
      ensures pointer != 0 && original != 0 ==>
                pointer + RoundedUp(originalSize) <= memory.Length
                && memory[pointer..pointer + RoundedUp(originalSize)]
                   == old(memory[original..original + RoundedUp(originalSize)])
      ensures IsInMemory(old(live), memory.Length)
      ensures forall b | b in old(live) ::
                memory[b.address..b.address + b.size] == old(memory[b.address..b.address + b.size])
    {
      hide Sound, IsAnswer, StaysInWidth, RoundedUp, Align, Allocated, IsNew, IsPlaced, ChunksAligned;
      LiveInMemory(chunks, live, memory.Length);
      if original == 0 {
        pointer := Malloc(newSize, base);
        FewerAreNew(Block(pointer, RoundedUp(newSize)), old(live), Block(original, RoundedUp(originalSize)));
        return;
      }
      if newSize == 0 {
        return 0;
      }
      ghost var b := Block(original, RoundedUp(originalSize));
      ghost var n := RoundedUp(newSize);
      AlignRoundsUp(originalSize);
      AlignRoundsUp(newSize);
      ResizedStaysSound(chunks, live, memory.Length, chunkCapacity, b, newSize, base);
      RoundedUpIsMultiple(newSize);
      var oldAligned, aligned := Align(originalSize), Align(newSize);
      if oldAligned >= aligned {
        live := LiveAfter(live, b, original, newSize);
        return original;
      }
      var head := chunks[0];
      if original == head.address + HEADER + head.size - oldAligned {
        var increment := aligned - oldAligned;
        if (head.size + increment) % WIDTH <= head.capacity {
          GrownIsAligned(chunks, increment, userBuffer);
          chunks := chunks[0 := head.(size := (head.size + increment) % WIDTH)];
          live := LiveAfter(live, b, original, newSize);
          return original;
        }
      }
      SameWidth(chunks, chunkCapacity, newSize);
      pointer := MallocAndCopy(original, oldAligned, aligned, base);
      FewerAreNew(Block(pointer, n), old(live), b);
    }

    /** `Clear`: only the user's buffer is kept, and it is empty. */
    method Clear()
      requires Valid()
      modifies this
      ensures Valid() && live == {}
      ensures chunks == if userBuffer == 0 then [] else [Chunk(userBuffer, old(chunks[|chunks| - 1].capacity), 0)]
    {
      hide Sound;
      EmptyIsSound(memory.Length);
      ghost var all := chunks;
      ghost var i := 0;
      while chunks != [] && chunks[0].address != userBuffer
        invariant i <= |all| && chunks == all[i..] && live == old(live)
        invariant userBuffer != 0 ==> i < |all|
      {
        chunks := chunks[1..];
        i := i + 1;
      }
      if chunks != [] && chunks[0].address == userBuffer {
        EmptiedIsSound(all, live, memory.Length, i);
        LastIsTheOnlyOne(all, live, memory.Length, i);
        chunks := chunks[0 := chunks[0].(size := 0)];
        assert chunks == [all[i].(size := 0)];
      }
      live := {};
    }

    /** `Capacity`: the sum of all capacities; it does not wrap around. */
    method Capacity() returns (capacity: nat)
      requires Valid()
      ensures capacity == TotalCapacity(chunks) <= memory.Length
    {
      TotalsFit(chunks, live, memory.Length);
      capacity := 0;
      for i := 0 to |chunks|
        invariant capacity == TotalCapacity(chunks[..i])
      {
        hide TotalSize, TotalCapacity;
        TotalsSplit(chunks, i);
        TotalsGrow(chunks, i + 1);
        capacity := (capacity + chunks[i].capacity) % WIDTH;
      }
      assert chunks[..|chunks|] == chunks;
    }

    /** `Size`: the sum of all used areas; it does not wrap around, and is within the capacity. */
    method Size() returns (size: nat)
      requires Valid()
      ensures size == TotalSize(chunks) <= TotalCapacity(chunks)
    {
      TotalsFit(chunks, live, memory.Length);
      size := 0;
      for i := 0 to |chunks|
        invariant size == TotalSize(chunks[..i])
      {
        hide TotalSize, TotalCapacity;
        TotalsSplit(chunks, i);
        TotalsGrow(chunks, i + 1);
        size := (size + chunks[i].size) % WIDTH;
      }
      assert chunks[..|chunks|] == chunks;
    }
  }

  lemma AnswerIsAligned(base: nat, chunks: seq<Chunk>, capacity: nat, limit: nat)
    requires IsAnswer(base, chunks, capacity, limit)
    ensures base % 8 == 0
  {
  }

  lemma RoundedUpIsMultiple(n: nat)
    ensures RoundedUp(n) % 8 == 0
  {
  }

  lemma FewerAreNew(b: Block, live: set<Block>, c: Block)
    ensures IsNew(b, live) ==> IsNew(b, live - {c})
  {
  }

  lemma LiveInMemory(chunks: seq<Chunk>, live: set<Block>, limit: nat)
    requires Sound(chunks, live, limit)
    ensures live != {} ==> chunks != []
    ensures IsInMemory(live, limit)
  {
    hide Sound;
    forall b | b in live
      ensures chunks != [] && b.size > 0 && HEADER <= b.address && b.address + b.size <= limit
    {
      PlacedInMemory(chunks, live, limit, b);
    }
  }

  lemma CopyIsApart(live: set<Block>, b: Block, pointer: nat, n: nat, limit: nat, chunks: seq<Chunk>, after: set<Block>)
    requires IsNew(Block(pointer, n), live) && b in live && 0 < b.size < n
    requires Sound(chunks, after, limit) && Block(pointer, n) in after
    ensures pointer + n <= limit && Apart(pointer, b.size, b.address, b.size)
    ensures pointer != b.address
    ensures forall c | c in live :: Apart(pointer, n, c.address, c.size)
  {
    hide Sound;
    PlacedInMemory(chunks, after, limit, Block(pointer, n));
  }

  lemma AddressesDiffer(chunks: seq<Chunk>, live: set<Block>, limit: nat, i: nat, j: nat)
    requires Sound(chunks, live, limit) && i < j < |chunks|
    ensures chunks[i].address != chunks[j].address
  {
    assert ChunksApart(chunks[i], chunks[j]);
  }

  /** The chunk at the address of the user's buffer is the last one. */
  lemma LastIsTheOnlyOne(chunks: seq<Chunk>, live: set<Block>, limit: nat, i: nat)
    requires Sound(chunks, live, limit) && i < |chunks| && chunks[i].address == chunks[|chunks| - 1].address
    ensures i == |chunks| - 1
  {
    hide Sound;
    if i < |chunks| - 1 {
      AddressesDiffer(chunks, live, limit, i, |chunks| - 1);
    }
  }

  lemma EmptyIsSound(limit: nat)
    ensures Sound([], {}, limit)
  {
  }

  lemma EmptiedIsSound(chunks: seq<Chunk>, live: set<Block>, limit: nat, i: nat)
    requires Sound(chunks, live, limit) && i < |chunks|
    ensures chunks[i].address > 0 && Sound([chunks[i].(size := 0)], {}, limit)
  {
    assert ChunkIsSound(chunks[i], limit);
  }
}
