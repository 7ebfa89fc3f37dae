/**
 * MemoryPoolAllocator of include/rapidjson/allocators.h: blocks bumped off the head of a list of
 * chunks, in 64-bit size arithmetic. A chunk is what the base allocator granted; the blocks the
 * caller may use are the live ones.
 */
module MemoryPool {
  import opened Text

  const SIZE_LIMIT := 0x1_0000_0000_0000_0000

  /** `size_t`. */
  type Size = n: int | 0 <= n < SIZE_LIMIT

  /** Unsigned addition. */
  function Plus(a: Size, b: Size): (sum: Size)
    ensures sum == if a + b < SIZE_LIMIT then a + b else a + b - SIZE_LIMIT
  {
    (a + b) % SIZE_LIMIT
  }

  /** `SIZEOF_CHUNK_HEADER`. */
  const HEADER: Size := 24

  /** `RAPIDJSON_ALIGN`. */
  function Align(x: Size): Size {
    Plus(x, 7) / 8 * 8
  }

  /** Rounding up to a multiple of 8 without a limit. */
  function Up(x: nat): (y: nat)
    ensures x <= y < x + 8 && y % 8 == 0
  {
    (x + 7) / 8 * 8
  }

  lemma AlignIsUp(x: Size)
    ensures Align(x) == if x <= SIZE_LIMIT - 8 then Up(x) else 0
    ensures x <= SIZE_LIMIT - 8 <==> Up(x) < SIZE_LIMIT
  {
  }

  /** A chunk's header is at `base`; `granted` bytes from there on are the pool's. */
  datatype Chunk = Chunk(base: nat, granted: nat, capacity: Size, size: Size) {
    function Buffer(): nat {
      base + HEADER
    }

    /** The first address not yet handed out. */
    function Top(): nat {
      base + HEADER + size
    }

    function End(): nat {
      base + granted
    }
  }

  /** The list of chunks, head first, and the bytes of memory. */
  datatype Pool = Pool(chunks: seq<Chunk>, chunkCapacity: Size, memory: map<nat, Ch>) {
    function Head(): Chunk
      requires chunks != []
    {
      chunks[0]
    }

    function Grow(size: Size): Pool
      requires chunks != []
    {
      Pool([Head().(size := size)] + chunks[1..], chunkCapacity, memory)
    }
  }

  function Read(memory: map<nat, Ch>, at: nat): Ch {
    if at in memory then memory[at] else NUL
  }

  /** `memcpy`. */
  function Copy(memory: map<nat, Ch>, to: nat, from: nat, n: nat): map<nat, Ch> {
    if n == 0 then memory else Copy(memory, to, from, n - 1)[to + n - 1 := Read(memory, from + n - 1)]
  }

  lemma {:induction false} CopyReads(memory: map<nat, Ch>, to: nat, from: nat, n: nat, at: nat)
    ensures Read(Copy(memory, to, from, n), at) == Read(memory, if to <= at < to + n then from + (at - to) else at)
  {
    if n > 0 {
      CopyReads(memory, to, from, n - 1, at);
    }
  }

  datatype Result = Result(pool: Pool, ptr: Option<nat>)

  function Larger(a: Size, b: Size): Size {
    if a > b then a else b
  }

  /** `AddChunk`, with the address the base allocator answers with. */
  function WithChunk(p: Pool, capacity: Size, base: nat): Pool {
    Pool([Chunk(base, Plus(HEADER, capacity), capacity, 0)] + p.chunks, p.chunkCapacity, p.memory)
  }

  /** The head chunk is found to have no room for `size` more bytes. */
  predicate NeedsChunk(p: Pool, size: Size)
    requires p.chunks != []
  {
    Plus(p.Head().size, size) > p.Head().capacity
  }

  function Bump(p: Pool, size: Size): Result
    requires p.chunks != []
  {
    Result(p.Grow(Plus(p.Head().size, size)), Some(p.Head().Top()))
  }

  /** `Malloc`. `base` is what the base allocator answers if it is asked, None for a refusal. */
  function MallocIn(p: Pool, size: Size, base: Option<nat>): Result
    requires p.chunks != []
  {
    if size == 0 then Result(p, None)
    else if !NeedsChunk(p, Align(size)) then Bump(p, Align(size))
    else if base.None? then Result(p, None)
    else Bump(WithChunk(p, Larger(p.chunkCapacity, Align(size)), base.value), Align(size))
  }

  /** The test for the last allocation: the address compared with the top of the head chunk. */
  predicate IsLast(p: Pool, ptr: nat, originalSize: Size)
    requires p.chunks != []
  {
    ptr + Align(originalSize) == p.Head().Top()
  }

  /** `Realloc` of a block. */
  function ReallocIn(p: Pool, ptr: nat, originalSize: Size, newSize: Size, base: Option<nat>): Result
    requires p.chunks != []
  {
    var had, size := Align(originalSize), Align(newSize);
    if newSize == 0 then Result(p, None)
    else if had >= size then Result(p, Some(ptr))
    else if IsLast(p, ptr, originalSize) && !NeedsChunk(p, size - had) then
      Result(p.Grow(Plus(p.Head().size, size - had)), Some(ptr))
    else
      var r := MallocIn(p, size, base);
      if r.ptr.None? then r else Result(r.pool.(memory := Copy(r.pool.memory, r.ptr.value, ptr, had)), r.ptr)
  }

  /** `Clear`: every chunk but the first one goes back to the base allocator. */
  function Cleared(p: Pool): Pool
    requires p.chunks != []
  {
    Pool([p.chunks[|p.chunks| - 1].(size := 0)], p.chunkCapacity, p.memory)
  }

  // ---------------------------------------------------------------------------------------------
  // The invariant
  // ---------------------------------------------------------------------------------------------

  /** A block as its user knows it: where it is and the size asked for. */
  datatype Block = Block(ptr: nat, size: Size) {
    function End(): nat {
      ptr + Up(size)
    }
  }

  predicate IsChunk(c: Chunk) {
    && c.size <= c.capacity && HEADER + c.capacity <= c.granted
    && c.size % 8 == 0 && c.base % 8 == 0 && c.End() <= SIZE_LIMIT
  }

  predicate Apart(c: Chunk, d: Chunk) {
    c.End() <= d.base || d.End() <= c.base
  }

  /** The block lies in the part of the chunk that has been handed out. */
  predicate Holds(c: Chunk, b: Block) {
    c.Buffer() <= b.ptr && b.End() <= c.Top() && b.ptr % 8 == 0
  }

  predicate Disjoint(a: Block, b: Block) {
    a.End() <= b.ptr || b.End() <= a.ptr
  }

  predicate ChunksAreValid(chunks: seq<Chunk>) {
    && chunks != []
    && (forall i :: 0 <= i < |chunks| ==> IsChunk(chunks[i]))
    && forall i, j :: 0 <= i < j < |chunks| ==> Apart(chunks[i], chunks[j])
  }

  predicate IsHeld(chunks: seq<Chunk>, b: Block) {
    b.size > 0 && exists i :: 0 <= i < |chunks| && Holds(chunks[i], b)
  }

  predicate AreDisjoint(live: set<Block>) {
    forall a, b :: a in live && b in live && a != b ==> Disjoint(a, b)
  }

  /** Live blocks are 8-aligned, inside a chunk, and pairwise disjoint; chunks are disjoint too. */
  predicate Valid(p: Pool, live: set<Block>)
    ensures Valid(p, live) ==> p.chunks != []
  {
    && ChunksAreValid(p.chunks)
    && (forall b :: b in live ==> IsHeld(p.chunks, b))
    && AreDisjoint(live)
  }

  /** What the base allocator's answer must be: an aligned area of `n` bytes nobody else has. */
  predicate IsFree(p: Pool, base: nat, n: nat) {
    base % 8 == 0 && base + n <= SIZE_LIMIT && forall i :: 0 <= i < |p.chunks| ==> base + n <= p.chunks[i].base || p.chunks[i].End() <= base
  }

  /** The answer to the request `Malloc` would make. */
  predicate Answers(p: Pool, size: Size, base: Option<nat>) {
    base.Some? ==> IsFree(p, base.value, Plus(HEADER, Larger(p.chunkCapacity, Align(size))))
  }

  // ---------------------------------------------------------------------------------------------
  // Malloc
  // ---------------------------------------------------------------------------------------------

  /** None of the sums `Malloc` makes wraps. */
  predicate Fits(p: Pool, size: Size)
    requires p.chunks != []
  {
    && size <= SIZE_LIMIT - 8
    && Up(size) < SIZE_LIMIT && p.Head().size + Up(size) < SIZE_LIMIT
    && (p.Head().size + Up(size) > p.Head().capacity ==> HEADER + Larger(p.chunkCapacity, Up(size)) < SIZE_LIMIT)
  }

  /** Raising the head's size keeps what was held. */
  lemma GrowKeeps(p: Pool, live: set<Block>, size: Size)
    requires Valid(p, live) && p.Head().size <= size <= p.Head().capacity && size % 8 == 0
    ensures Valid(p.Grow(size), live)
  {
    var q := p.Grow(size);
    forall b | b in live ensures IsHeld(q.chunks, b) {
      var i :| 0 <= i < |p.chunks| && Holds(p.chunks[i], b);
      assert Holds(q.chunks[i], b);
    }
  }

  lemma AddChunkKeeps(p: Pool, live: set<Block>, capacity: Size, base: nat)
    requires Valid(p, live) && HEADER + capacity < SIZE_LIMIT && IsFree(p, base, HEADER + capacity)
    ensures Valid(WithChunk(p, capacity, base), live)
  {
    var q := WithChunk(p, capacity, base);
    assert forall i :: 0 <= i < |p.chunks| ==> q.chunks[i + 1] == p.chunks[i];
    assert forall i :: 0 < i < |q.chunks| ==> q.chunks[i] == p.chunks[i - 1];
    forall b | b in live ensures IsHeld(q.chunks, b) {
      var i :| 0 <= i < |p.chunks| && Holds(p.chunks[i], b);
      assert Holds(q.chunks[i + 1], b);
    }
  }

  /** What a live block holds lies below the top of the head, or outside the head's area. */
  lemma LiveIsBelowTop(p: Pool, live: set<Block>, b: Block)
    requires Valid(p, live) && b in live
    ensures b.End() <= p.Head().Top() || p.Head().End() <= b.ptr
  {
    var i :| 0 <= i < |p.chunks| && Holds(p.chunks[i], b);
    assert i > 0 ==> Apart(p.chunks[0], p.chunks[i]);
  }

  lemma AddBlock(p: Pool, live: set<Block>, b: Block)
    requires Valid(p, live) && IsHeld(p.chunks, b)
    requires forall c :: c in live ==> Disjoint(c, b)
    ensures Valid(p, live + {b})
  {
  }

  lemma DropBlock(p: Pool, live: set<Block>, b: Block)
    requires Valid(p, live)
    ensures Valid(p, live - {b})
  {
  }

  /** Bumping a head with room makes a block apart from all others. */
  lemma BumpKeeps(p: Pool, live: set<Block>, size: Size)
    requires Valid(p, live) && 0 < size && p.Head().size + Up(size) <= p.Head().capacity
    ensures IsNew(p, live, size, Result(p.Grow(p.Head().size + Up(size)), Some(p.Head().Top())))
  {
    var b := Block(p.Head().Top(), size);
    var q := p.Grow(p.Head().size + Up(size));
    GrowKeeps(p, live, p.Head().size + Up(size));
    assert Holds(q.chunks[0], b);
    forall c | c in live ensures Disjoint(c, b) {
      LiveIsBelowTop(p, live, c);
    }
    AddBlock(q, live, b);
  }

  /** What `Malloc` promises: a block like the other live ones, apart from all of them; nothing written. */
  predicate IsNew(p: Pool, live: set<Block>, size: Size, r: Result) {
    match r.ptr
    case None => r.pool == p
    case Some(ptr) =>
      && Block(ptr, size) !in live && Valid(r.pool, live + {Block(ptr, size)})
      && (forall c :: c in live ==> Disjoint(c, Block(ptr, size)))
      && r.pool.memory == p.memory
  }

  /** The three ways through `Malloc` when nothing wraps. */
  lemma MallocPath(p: Pool, size: Size, base: Option<nat>)
    requires p.chunks != [] && 0 < size && Fits(p, size) && Answers(p, size, base)
    ensures var capacity := Larger(p.chunkCapacity, Up(size));
            if p.Head().size + Up(size) <= p.Head().capacity then
              MallocIn(p, size, base) == Result(p.Grow(p.Head().size + Up(size)), Some(p.Head().Top()))
            else if base.None? then MallocIn(p, size, base) == Result(p, None)
            else
              var q := WithChunk(p, capacity, base.value);
              && HEADER + capacity < SIZE_LIMIT && IsFree(p, base.value, HEADER + capacity)
              && q.chunks != [] && q.Head().size + Up(size) <= q.Head().capacity && q.memory == p.memory
              && MallocIn(p, size, base) == Result(q.Grow(q.Head().size + Up(size)), Some(q.Head().Top()))
  {
    AlignIsUp(size);
  }

  lemma MallocKeeps(p: Pool, live: set<Block>, size: Size, base: Option<nat>)
    requires Valid(p, live) && 0 < size && Fits(p, size) && Answers(p, size, base)
    ensures IsNew(p, live, size, MallocIn(p, size, base))
  {
    hide *;
    MallocPath(p, size, base);
    if p.Head().size + Up(size) <= p.Head().capacity {
      BumpKeeps(p, live, size);
    } else if base.Some? {
      var capacity := Larger(p.chunkCapacity, Up(size));
      var q := WithChunk(p, capacity, base.value);
      AddChunkKeeps(p, live, capacity, base.value);
      BumpKeeps(q, live, size);
      SameMemory(p, q, live, size, MallocIn(p, size, base));
    } else {
      RefusedIsNew(p, live, size);
    }
  }

  lemma SameMemory(p: Pool, q: Pool, live: set<Block>, size: Size, r: Result)
    requires IsNew(q, live, size, r) && r.ptr.Some? && q.memory == p.memory
    ensures IsNew(p, live, size, r)
  {
  }

  lemma RefusedIsNew(p: Pool, live: set<Block>, size: Size)
    ensures IsNew(p, live, size, Result(p, None))
  {
  }

  /**
   * `Malloc` hands out a block inside a chunk, 8-aligned and apart from every live one, exactly when none
   * of its sums wraps.
   */
  lemma MallocIsSoundIff(p: Pool, live: set<Block>, size: Size, base: Option<nat>)
    requires Valid(p, live) && 0 < size && Answers(p, size, base)
    ensures var r := MallocIn(p, size, base);
            r.ptr.Some? ==> (IsNew(p, live, size, r) <==> Fits(p, size))
  {
    var r := MallocIn(p, size, base);
    if Fits(p, size) {
      MallocKeeps(p, live, size, base);
    } else if r.ptr.Some? {
      MallocWraps(p, live, size, base);
      BrokenIsNotValid(r.pool, live + {Block(r.ptr.value, size)}, Block(r.ptr.value, size));
    }
  }

  /** From a pool in any state, asking for 2^64 - 1 bytes gives the next free address and takes nothing. */
  lemma MallocMayWrap(p: Pool, live: set<Block>)
    requires Valid(p, live)
    ensures var r := MallocIn(p, SIZE_LIMIT - 1, None);
            r == Result(p, Some(p.Head().Top())) && !IsNew(p, live, SIZE_LIMIT - 1, r)
  {
    assert IsChunk(p.Head());
    assert MallocIn(p, SIZE_LIMIT - 1, None) == Result(p.Grow(p.Head().size), Some(p.Head().Top()));
    assert p.chunks == [p.Head()] + p.chunks[1..];
    MallocIsSoundIff(p, live, SIZE_LIMIT - 1, None);
  }

  /** Either the head is no chunk the base allocator granted, or the block ends past all memory. */
  predicate IsBroken(p: Pool, b: Block)
    requires p.chunks != []
  {
    !IsChunk(p.Head()) || b.End() > SIZE_LIMIT
  }

  lemma BrokenIsNotValid(p: Pool, live: set<Block>, b: Block)
    requires p.chunks != [] && b in live && IsBroken(p, b)
    ensures !Valid(p, live)
  {
    if b.End() > SIZE_LIMIT {
      assert forall c: Chunk :: IsChunk(c) ==> !Holds(c, b);
    }
  }

  /** When a sum wraps, the block does not fit in any chunk. */
  lemma MallocWraps(p: Pool, live: set<Block>, size: Size, base: Option<nat>)
    requires Valid(p, live) && 0 < size && !Fits(p, size) && MallocIn(p, size, base).ptr.Some?
    ensures var r := MallocIn(p, size, base);
            r.pool.chunks != [] && IsBroken(r.pool, Block(r.ptr.value, size))
  {
    AlignIsUp(size);
  }

  lemma HeldEnds(p: Pool, live: set<Block>, b: Block)
    requires Valid(p, live) && b in live
    ensures b.End() <= SIZE_LIMIT
  {
    var i :| 0 <= i < |p.chunks| && Holds(p.chunks[i], b);
    assert IsChunk(p.chunks[i]);
  }

  // ---------------------------------------------------------------------------------------------
  // Realloc
  // ---------------------------------------------------------------------------------------------

  /** The test for the last allocation never takes a block of another chunk for one of the head. */
  lemma LastIsInHead(p: Pool, live: set<Block>, b: Block)
    requires Valid(p, live) && b in live && IsLast(p, b.ptr, b.size)
    ensures Holds(p.Head(), b) && b.End() == p.Head().Top()
  {
    var i :| 0 <= i < |p.chunks| && Holds(p.chunks[i], b);
    assert IsChunk(p.chunks[i]);
    AlignIsUp(b.size);
    assert i > 0 ==> Apart(p.chunks[0], p.chunks[i]);
  }

  /** A live block's size does not wrap when it is aligned. */
  lemma LiveSize(p: Pool, live: set<Block>, b: Block)
    requires Valid(p, live) && b in live
    ensures Align(b.size) == Up(b.size) && b.End() <= SIZE_LIMIT && b.size > 0
  {
    HeldEnds(p, live, b);
    AlignIsUp(b.size);
  }

  /** None of the sums `Realloc` makes on the way it takes wraps. */
  predicate ReallocFits(p: Pool, b: Block, size: Size)
    requires p.chunks != []
  {
    || Up(size) <= Up(b.size)
    || (&& size <= SIZE_LIMIT - 8
        && if IsLast(p, b.ptr, b.size) then
             && p.Head().size + (Up(size) - Up(b.size)) < SIZE_LIMIT
             && (p.Head().size + (Up(size) - Up(b.size)) <= p.Head().capacity || Fits(p, size))
           else Fits(p, size))
  }

  function Contents(memory: map<nat, Ch>, ptr: nat, n: nat): Str {
    seq<Ch>(n, k requires 0 <= k < n => Read(memory, ptr + k))
  }

  /** The first `n` bytes of the block are found where it now is, and other live blocks read as before. */
  predicate KeepsContents(before: map<nat, Ch>, after: map<nat, Ch>, live: set<Block>, b: Block, ptr: nat, n: nat) {
    && Contents(after, ptr, n) == Contents(before, b.ptr, n)
    && forall c :: c in live && c != b ==> Contents(after, c.ptr, c.size) == Contents(before, c.ptr, c.size)
  }

  /** The block in hand after `Realloc` replaces the one given, whether it stayed or moved. */
  function Replaced(live: set<Block>, b: Block, ptr: nat, size: Size): set<Block> {
    live - {b} + {Block(ptr, size)}
  }

  /** What `Realloc` promises: a valid block, its bytes, and everybody else's. */
  predicate IsSound(p: Pool, live: set<Block>, b: Block, size: Size, r: Result) {
    match r.ptr
    case None => r.pool == p
    case Some(ptr) =>
      Valid(r.pool, Replaced(live, b, ptr, size))
      && KeepsContents(p.memory, r.pool.memory, live, b, ptr, if b.size < size then b.size else size)
  }

  lemma InsideIsSound(p: Pool, live: set<Block>, b: Block, size: Size)
    requires Valid(p, live) && b in live && 0 < size && Up(size) <= Up(b.size)
    ensures IsSound(p, live, b, size, Result(p, Some(b.ptr)))
  {
    var i :| 0 <= i < |p.chunks| && Holds(p.chunks[i], b);
    assert Holds(p.chunks[i], Block(b.ptr, size));
    DropBlock(p, live, b);
    forall c | c in live - {b} ensures Disjoint(c, Block(b.ptr, size)) {
      assert Disjoint(c, b);
    }
    AddBlock(p, live - {b}, Block(b.ptr, size));
  }

  /** Growing the last block in place. */
  lemma GrowInPlace(p: Pool, live: set<Block>, b: Block, size: Size)
    requires Valid(p, live) && b in live && IsLast(p, b.ptr, b.size) && Up(size) > Up(b.size)
    requires p.Head().size + (Up(size) - Up(b.size)) <= p.Head().capacity
    ensures IsSound(p, live, b, size, Result(p.Grow(p.Head().size + (Up(size) - Up(b.size))), Some(b.ptr)))
  {
    var more := Block(b.ptr, size);
    var q := p.Grow(p.Head().size + (Up(size) - Up(b.size)));
    LastIsInHead(p, live, b);
    GrowKeeps(p, live, q.Head().size);
    DropBlock(q, live, b);
    GrownHolds(p, live, b, size);
    hide Up;
    forall c | c in live - {b} ensures Disjoint(c, more) {
      LiveIsBelowTop(p, live, c);
      assert Disjoint(c, b) && c.size > 0;
      StillDisjoint(c, b, more, p.Head());
    }
    AddBlock(q, live - {b}, more);
  }

  lemma GrownHolds(p: Pool, live: set<Block>, b: Block, size: Size)
    requires Valid(p, live) && Holds(p.Head(), b) && b.End() == p.Head().Top() && Up(size) > Up(b.size)
    requires p.Head().size + (Up(size) - Up(b.size)) <= p.Head().capacity
    ensures Holds(p.Grow(p.Head().size + (Up(size) - Up(b.size))).Head(), Block(b.ptr, size))
    ensures Block(b.ptr, size).End() <= p.Head().End()
  {
    assert IsChunk(p.chunks[0]);
  }

  lemma StillDisjoint(c: Block, b: Block, more: Block, head: Chunk)
    requires c.size > 0 && Disjoint(c, b) && b.End() == head.Top()
    requires c.End() <= head.Top() || head.End() <= c.ptr
    requires more.ptr == b.ptr && more.End() <= head.End()
    ensures Disjoint(c, more)
  {
  }

  /** Moving a block: the copy reads as the original, and no other live block is written. */
  lemma CopyKeeps(memory: map<nat, Ch>, live: set<Block>, b: Block, ptr: nat, size: Size)
    requires b in live && Up(b.size) < Up(size)
    requires forall c :: c in live ==> Disjoint(c, Block(ptr, size))
    ensures KeepsContents(memory, Copy(memory, ptr, b.ptr, Up(b.size)), live, b, ptr, b.size)
  {
    var after := Copy(memory, ptr, b.ptr, Up(b.size));
    forall k | 0 <= k < b.size ensures Contents(after, ptr, b.size)[k] == Contents(memory, b.ptr, b.size)[k] {
      CopyReads(memory, ptr, b.ptr, Up(b.size), ptr + k);
    }
    forall c | c in live && c != b ensures Contents(after, c.ptr, c.size) == Contents(memory, c.ptr, c.size) {
      assert Disjoint(c, Block(ptr, size));
      forall k | 0 <= k < c.size ensures Contents(after, c.ptr, c.size)[k] == Contents(memory, c.ptr, c.size)[k] {
        CopyReads(memory, ptr, b.ptr, Up(b.size), c.ptr + k);
      }
    }
  }

  /** The move: `Malloc`, and the bytes copied when it succeeds. */
  function Move(p: Pool, b: Block, size: Size, base: Option<nat>): Result
    requires p.chunks != []
  {
    var r := MallocIn(p, Align(size), base);
    if r.ptr.None? then r else Result(r.pool.(memory := Copy(r.pool.memory, r.ptr.value, b.ptr, Up(b.size))), r.ptr)
  }

  /** The three ways through `Realloc` when nothing wraps. */
  lemma ReallocPath(p: Pool, live: set<Block>, b: Block, size: Size, base: Option<nat>)
    requires Valid(p, live) && b in live && 0 < size && ReallocFits(p, b, size)
    ensures var r := ReallocIn(p, b.ptr, b.size, size, base);
            var top := p.Head().size + (Up(size) - Up(b.size));
            if Up(size) <= Up(b.size) then r == Result(p, Some(b.ptr))
            else if IsLast(p, b.ptr, b.size) && top <= p.Head().capacity then r == Result(p.Grow(top), Some(b.ptr))
            else Fits(p, size) && r == Move(p, b, size, base)
  {
    LiveSize(p, live, b);
    AlignIsUp(size);
  }

  /** `Realloc` of a live block without wrapping: the result is sound and keeps the contents. */
  lemma ReallocIsSound(p: Pool, live: set<Block>, b: Block, size: Size, base: Option<nat>)
    requires Valid(p, live) && b in live && 0 < size && ReallocFits(p, b, size) && Answers(p, Align(size), base)
    ensures IsSound(p, live, b, size, ReallocIn(p, b.ptr, b.size, size, base))
  {
    hide *;
    ReallocPath(p, live, b, size, base);
    if Up(size) <= Up(b.size) {
      InsideIsSound(p, live, b, size);
    } else if IsLast(p, b.ptr, b.size) && p.Head().size + (Up(size) - Up(b.size)) <= p.Head().capacity {
      GrowInPlace(p, live, b, size);
    } else {
      MoveIsSound(p, live, b, size, base);
    }
  }

  lemma UpTwice(x: nat)
    ensures Up(Up(x)) == Up(x)
  {
  }

  lemma MoveIsSound(p: Pool, live: set<Block>, b: Block, size: Size, base: Option<nat>)
    requires Valid(p, live) && b in live && Up(b.size) < Up(size) && Fits(p, size) && Answers(p, Align(size), base)
    ensures IsSound(p, live, b, size, Move(p, b, size, base))
  {
    hide *;
    LiveSize(p, live, b);
    AlignedFits(p, size);
    MallocKeeps(p, live, Align(size), base);
    MoveCopies(p, b, size, base);
    CopiedIsSound(p, live, b, size, MallocIn(p, Align(size), base), Move(p, b, size, base));
  }

  lemma MoveCopies(p: Pool, b: Block, size: Size, base: Option<nat>)
    requires p.chunks != []
    ensures var r := MallocIn(p, Align(size), base);
            Move(p, b, size, base)
            == if r.ptr.None? then r else Result(r.pool.(memory := Copy(r.pool.memory, r.ptr.value, b.ptr, Up(b.size))), r.ptr)
  {
  }

  lemma CopiedIsSound(p: Pool, live: set<Block>, b: Block, size: Size, r: Result, moved: Result)
    requires b in live && 0 < b.size && Up(b.size) < Up(size) < SIZE_LIMIT && Up(Up(size)) == Up(size)
    requires IsNew(p, live, Up(size), r)
    requires moved == if r.ptr.None? then r else Result(r.pool.(memory := Copy(r.pool.memory, r.ptr.value, b.ptr, Up(b.size))), r.ptr)
    ensures IsSound(p, live, b, size, moved)
  {
    hide Valid, KeepsContents, Copy, Up;
    if r.ptr.Some? {
      var wide, block := Block(r.ptr.value, Up(size)), Block(r.ptr.value, size);
      forall c | c in live ensures Disjoint(c, block) {
        assert Disjoint(c, wide);
        SameEnd(wide, block);
      }
      SameEnd(wide, block);
      CopyKeeps(r.pool.memory, live, b, r.ptr.value, size);
      MovedIsValid(r.pool, live, b, block, wide, moved.pool.memory);
    }
  }

  lemma SameEnd(wide: Block, block: Block)
    requires wide.ptr == block.ptr && wide.size == Up(block.size) == Up(Up(block.size))
    ensures wide.End() == block.End() && (block.size > 0 ==> wide.size > 0)
    ensures forall c :: Disjoint(c, wide) <==> Disjoint(c, block)
  {
  }

  lemma AlignedFits(p: Pool, size: Size)
    requires p.chunks != [] && Fits(p, size)
    ensures Align(size) == Up(size) == Up(Up(size)) && Fits(p, Align(size))
  {
    AlignIsUp(size);
    UpTwice(size);
  }

  /** The block asked for takes the room of the aligned one, and the old one is given up. */
  lemma MovedIsValid(p: Pool, live: set<Block>, b: Block, block: Block, wide: Block, memory: map<nat, Ch>)
    requires Valid(p, live + {wide}) && wide !in live
    requires block.ptr == wide.ptr && block.End() == wide.End() && block.size > 0
    requires forall c :: c in live ==> Disjoint(c, block)
    ensures Valid(p.(memory := memory), live - {b} + {block})
  {
    var both := live + {wide};
    assert wide in both && both - {wide} == live;
    var i :| 0 <= i < |p.chunks| && Holds(p.chunks[i], wide);
    assert Holds(p.chunks[i], block);
    DropBlock(p, both, wide);
    DropBlock(p, live, b);
    AddBlock(p, live - {b}, block);
  }

  lemma ReallocWraps(p: Pool, live: set<Block>, b: Block, size: Size, base: Option<nat>)
    requires Valid(p, live) && b in live && 0 < size && !ReallocFits(p, b, size)
    requires ReallocIn(p, b.ptr, b.size, size, base).ptr.Some?
    ensures var r := ReallocIn(p, b.ptr, b.size, size, base);
            r.pool.chunks != [] && IsBroken(r.pool, Block(r.ptr.value, size))
  {
    LiveSize(p, live, b);
    AlignIsUp(size);
    if size > SIZE_LIMIT - 8 {
    } else if IsLast(p, b.ptr, b.size) && !NeedsChunk(p, Align(size) - Align(b.size)) {
    } else {
      UpTwice(size);
      AlignIsUp(Align(size));
      MallocWraps(p, live, Align(size), base);
    }
  }

  /**
   * `Realloc` leaves the live blocks valid and the bytes in place, whether it shrinks, grows in place or
   * moves, exactly when none of its sums wraps.
   */
  lemma ReallocIsSoundIff(p: Pool, live: set<Block>, b: Block, size: Size, base: Option<nat>)
    requires Valid(p, live) && b in live && 0 < size && Answers(p, Align(size), base)
    ensures var r := ReallocIn(p, b.ptr, b.size, size, base);
            r.ptr.Some? ==> (IsSound(p, live, b, size, r) <==> ReallocFits(p, b, size))
  {
    var r := ReallocIn(p, b.ptr, b.size, size, base);
    if ReallocFits(p, b, size) {
      ReallocIsSound(p, live, b, size, base);
    } else if r.ptr.Some? {
      ReallocWraps(p, live, b, size, base);
      BrokenIsNotValid(r.pool, Replaced(live, b, r.ptr.value, size), Block(r.ptr.value, size));
    }
  }

  // ---------------------------------------------------------------------------------------------
  // Runs
  // ---------------------------------------------------------------------------------------------

  /** A call by the pool's user, with the base allocator's answer in case it is asked. */
  datatype Call =
    | MallocCall(size: Size, base: Option<nat>)
    | ReallocCall(b: Block, size: Size, base: Option<nat>)
    | ClearCall
    | WriteCall(b: Block, k: nat, c: Ch)

  /** The pool, and the blocks its user may use. */
  datatype Use = Use(pool: Pool, live: set<Block>)

  /** What the user and the base allocator must respect: no block that is not live, no sum that wraps, free areas only. */
  predicate MayCall(u: Use, call: Call)
    requires u.pool.chunks != []
  {
    match call
    case MallocCall(size, base) => size > 0 ==> Fits(u.pool, size) && Answers(u.pool, size, base)
    case ReallocCall(b, size, base) =>
      b in u.live && (size > 0 ==> ReallocFits(u.pool, b, size) && Answers(u.pool, Align(size), base))
    case ClearCall => true
    case WriteCall(b, k, _) => b in u.live && k < b.size
  }

  function Do(u: Use, call: Call): Use
    requires u.pool.chunks != []
  {
    match call
    case MallocCall(size, base) =>
      var r := MallocIn(u.pool, size, base);
      Use(r.pool, if r.ptr.Some? then u.live + {Block(r.ptr.value, size)} else u.live)
    case ReallocCall(b, size, base) =>
      var r := ReallocIn(u.pool, b.ptr, b.size, size, base);
      Use(r.pool, if r.ptr.Some? then Replaced(u.live, b, r.ptr.value, size) else u.live)
    case ClearCall => Use(Cleared(u.pool), {})
    case WriteCall(b, k, c) => Use(u.pool.(memory := u.pool.memory[b.ptr + k := c]), u.live)
  }

  lemma ClearKeeps(p: Pool, live: set<Block>)
    requires Valid(p, live)
    ensures Valid(Cleared(p), {})
  {
    assert IsChunk(p.chunks[|p.chunks| - 1]);
  }

  lemma DoKeeps(u: Use, call: Call)
    requires Valid(u.pool, u.live) && MayCall(u, call)
    ensures Valid(Do(u, call).pool, Do(u, call).live)
  {
    match call
    case MallocCall(size, base) =>
      if size > 0 {
        MallocKeeps(u.pool, u.live, size, base);
      }
    case ReallocCall(b, size, base) =>
      if size > 0 {
        ReallocIsSound(u.pool, u.live, b, size, base);
      }
    case ClearCall => ClearKeeps(u.pool, u.live);
    case WriteCall(_, _, _) =>
  }

  /** A call that changes a block: its own reallocation, a write into it, or clearing the pool. */
  predicate Changes(call: Call, b: Block) {
    match call
    case MallocCall(_, _) => false
    case ReallocCall(c, _, _) => c == b
    case ClearCall => true
    case WriteCall(c, _, _) => c == b
  }

  /** No other call touches a live block's bytes, or takes the block away. */
  lemma DoKeepsBytes(u: Use, call: Call, b: Block)
    requires Valid(u.pool, u.live) && MayCall(u, call) && b in u.live && !Changes(call, b)
    ensures b in Do(u, call).live
    ensures Contents(Do(u, call).pool.memory, b.ptr, b.size) == Contents(u.pool.memory, b.ptr, b.size)
  {
    match call
    case MallocCall(size, base) =>
      if size > 0 {
        MallocKeeps(u.pool, u.live, size, base);
      }
    case ReallocCall(c, size, base) =>
      if size > 0 {
        ReallocIsSound(u.pool, u.live, c, size, base);
      }
    case WriteCall(c, k, x) =>
      assert Disjoint(b, c);
      WriteKeeps(u.pool.memory, b, c, k, x);
  }

  lemma WriteKeeps(memory: map<nat, Ch>, b: Block, c: Block, k: nat, x: Ch)
    requires Disjoint(b, c) && k < c.size
    ensures Contents(memory[c.ptr + k := x], b.ptr, b.size) == Contents(memory, b.ptr, b.size)
  {
    var after := memory[c.ptr + k := x];
    forall j | 0 <= j < b.size ensures Contents(after, b.ptr, b.size)[j] == Contents(memory, b.ptr, b.size)[j] {
      assert b.ptr + j != c.ptr + k;
      assert Read(after, b.ptr + j) == Read(memory, b.ptr + j);
    }
  }

  predicate MayRun(u: Use, calls: seq<Call>)
    decreases |calls|
  {
    calls == [] || (u.pool.chunks != [] && MayCall(u, calls[0]) && MayRun(Do(u, calls[0]), calls[1..]))
  }

  function Run(u: Use, calls: seq<Call>): Use
    requires MayRun(u, calls)
    decreases |calls|
  {
    if calls == [] then u else Run(Do(u, calls[0]), calls[1..])
  }

  /** In every run, live blocks stay 8-aligned, inside a chunk and pairwise disjoint. */
  lemma {:induction false} RunKeeps(u: Use, calls: seq<Call>)
    requires Valid(u.pool, u.live) && MayRun(u, calls)
    ensures Valid(Run(u, calls).pool, Run(u, calls).live)
    decreases |calls|
  {
    if calls != [] {
      hide Valid, Do, MayCall;
      DoKeeps(u, calls[0]);
      RunKeeps(Do(u, calls[0]), calls[1..]);
    }
  }

  /** In every run, a live block that nobody reallocates, writes or clears is still live and reads as before. */
  lemma {:induction false} RunKeepsBytes(u: Use, calls: seq<Call>, b: Block)
    requires Valid(u.pool, u.live) && MayRun(u, calls) && b in u.live
    requires forall call :: call in calls ==> !Changes(call, b)
    ensures b in Run(u, calls).live
    ensures Contents(Run(u, calls).pool.memory, b.ptr, b.size) == Contents(u.pool.memory, b.ptr, b.size)
    decreases |calls|
  {
    if calls != [] {
      hide Valid, Do, MayCall, Changes, Contents;
      assert calls[0] in calls;
      DoKeeps(u, calls[0]);
      DoKeepsBytes(u, calls[0], b);
      RunKeepsBytes(Do(u, calls[0]), calls[1..], b);
    }
  }

  // ---------------------------------------------------------------------------------------------
  // The allocator
  // ---------------------------------------------------------------------------------------------

  /** The sum of the chunks' capacities, in `size_t`. */
  function CapacityOf(chunks: seq<Chunk>): Size {
    if chunks == [] then 0 else Plus(chunks[0].capacity, CapacityOf(chunks[1..]))
  }

  function SizeOf(chunks: seq<Chunk>): Size {
    if chunks == [] then 0 else Plus(chunks[0].size, SizeOf(chunks[1..]))
  }

  lemma PlusAssociates(a: Size, b: Size, c: Size)
    ensures Plus(Plus(a, b), c) == Plus(a, Plus(b, c))
  {
  }

  /** What a growing head chunk adds to the bytes in use. */
  lemma GrowCounts(p: Pool, more: Size)
    requires p.chunks != []
    ensures SizeOf(Bump(p, more).pool.chunks) == Plus(SizeOf(p.chunks), more)
    ensures CapacityOf(Bump(p, more).pool.chunks) == CapacityOf(p.chunks)
  {
    var q := Bump(p, more).pool;
    assert q.chunks[1..] == p.chunks[1..];
    var others := SizeOf(p.chunks[1..]);
    PlusAssociates(p.Head().size, more, others);
    PlusAssociates(p.Head().size, others, more);
    assert Plus(more, others) == Plus(others, more);
  }

  /** A block adds its aligned size to the bytes in use, and a new chunk its capacity; a refusal adds nothing. */
  lemma MallocCounts(p: Pool, size: Size, base: Option<nat>)
    requires p.chunks != []
    ensures var r := MallocIn(p, size, base);
            && SizeOf(r.pool.chunks) == Plus(SizeOf(p.chunks), if r.ptr.Some? then Align(size) else 0)
            && CapacityOf(r.pool.chunks) == Plus(CapacityOf(p.chunks), if |r.pool.chunks| > |p.chunks| then Larger(p.chunkCapacity, Align(size)) else 0)
            && |p.chunks| <= |r.pool.chunks| <= |p.chunks| + 1
  {
    if size > 0 {
      if !NeedsChunk(p, Align(size)) {
        GrowCounts(p, Align(size));
      } else if base.Some? {
        var q := WithChunk(p, Larger(p.chunkCapacity, Align(size)), base.value);
        assert q.chunks[1..] == p.chunks;
        GrowCounts(q, Align(size));
        assert Plus(q.Head().capacity, CapacityOf(p.chunks)) == Plus(CapacityOf(p.chunks), q.Head().capacity);
      }
    }
  }

  /** The base allocator is asked for a chunk exactly when the head chunk has no room, and the block starts the chunk. */
  lemma ChunkIsAddedIff(p: Pool, live: set<Block>, size: Size, base: nat)
    requires Valid(p, live) && 0 < size && Fits(p, size)
    ensures var r := MallocIn(p, size, Some(base));
            if p.Head().size + Up(size) > p.Head().capacity
            then r.pool.chunks[1..] == p.chunks && r.ptr == Some(base + HEADER)
            else r.pool.chunks[1..] == p.chunks[1..] && r.ptr == Some(p.Head().Top())
  {
    AlignIsUp(size);
  }

  /**
   * A cleared pool has nothing in use and starts afresh in the chunk it had first: every block that fits there is
   * placed at the start of that chunk.
   */
  lemma ClearStartsAfresh(p: Pool, size: Size, base: Option<nat>)
    requires p.chunks != []
    ensures var first, q := p.chunks[|p.chunks| - 1], Cleared(p);
            && SizeOf(q.chunks) == 0 && CapacityOf(q.chunks) == first.capacity
            && (0 < size && Align(size) <= first.capacity ==> MallocIn(q, size, base).ptr == Some(first.Buffer()))
  {
    var q := Cleared(p);
    assert q.chunks[1..] == [];
  }

  /**
   * `MemoryPoolAllocator` on its shared data: the list of chunks, head first. The base allocator's
   * answer to a request, if one is made, is a parameter.
   */
  class MemoryPoolAllocator {
    var chunks: seq<Chunk>
    const chunkCapacity: Size
    var memory: map<nat, Ch>

    /** A first chunk, empty or in a user's buffer of `capacity` bytes. */
    constructor (first: Chunk, chunkCapacity: Size, memory: map<nat, Ch>)
      requires IsChunk(first) && first.size == 0
      ensures Valid(Now(), {}) && Now() == Pool([first], chunkCapacity, memory)
    {
      chunks := [first];
      this.chunkCapacity := chunkCapacity;
      this.memory := memory;
    }

    function Now(): Pool
      reads this
    {
      Pool(chunks, chunkCapacity, memory)
    }

    method AddChunk(capacity: Size, base: Option<nat>) returns (ok: bool)
      modifies `chunks
      ensures ok == base.Some?
      ensures Now() == if ok then WithChunk(old(Now()), capacity, base.value) else old(Now())
    {
      if base.None? {
        return false;
      }
      chunks := [Chunk(base.value, Plus(HEADER, capacity), capacity, 0)] + chunks;
      return true;
    }

    method Malloc(size0: Size, base: Option<nat>) returns (ptr: Option<nat>)
      requires chunks != []
      modifies `chunks
      ensures Result(Now(), ptr) == MallocIn(old(Now()), size0, base)
    {
      if size0 == 0 {
        return None;
      }
      var size := Align(size0);
      if Plus(chunks[0].size, size) > chunks[0].capacity {
        var ok := AddChunk(if chunkCapacity > size then chunkCapacity else size, base);
        if !ok {
          return None;
        }
      }
      ptr := Some(chunks[0].Top());
      chunks := [chunks[0].(size := Plus(chunks[0].size, size))] + chunks[1..];
    }

    method Realloc(ptr0: Option<nat>, originalSize0: Size, newSize0: Size, base: Option<nat>) returns (ptr: Option<nat>)
      requires chunks != []
      modifies this
      ensures Result(Now(), ptr)
           == if ptr0.None? then MallocIn(old(Now()), newSize0, base)
              else ReallocIn(old(Now()), ptr0.value, originalSize0, newSize0, base)
    {
      if ptr0.None? {
        ptr := Malloc(newSize0, base);
        return;
      }
      if newSize0 == 0 {
        return None;
      }
      var originalSize, newSize := Align(originalSize0), Align(newSize0);
      if originalSize >= newSize {
        return ptr0;
      }
      if ptr0.value + originalSize == chunks[0].Top() {
        var increment := newSize - originalSize;
        if Plus(chunks[0].size, increment) <= chunks[0].capacity {
          chunks := [chunks[0].(size := Plus(chunks[0].size, increment))] + chunks[1..];
          return ptr0;
        }
      }
      ptr := Malloc(newSize, base);
      if ptr.Some? && originalSize != 0 {
        memory := Copy(memory, ptr.value, ptr0.value, originalSize);
      }
    }

    /** `Clear`; `freed` are the chunks given back to the base allocator. */
    method Clear() returns (freed: seq<Chunk>)
      requires chunks != []
      modifies `chunks
      ensures Now() == Cleared(old(Now()))
      ensures freed == old(chunks)[..|old(chunks)| - 1]
    {
      freed := [];
      while |chunks| > 1
        invariant chunks != [] && freed + chunks == old(chunks)
      {
        freed, chunks := freed + [chunks[0]], chunks[1..];
      }
      chunks := [chunks[0].(size := 0)];
    }

    method Capacity() returns (capacity: Size)
      ensures capacity == CapacityOf(chunks)
    {
      capacity := 0;
      for k := 0 to |chunks|
        invariant Plus(capacity, CapacityOf(chunks[k..])) == CapacityOf(chunks)
      {
        assert chunks[k..][0] == chunks[k] && chunks[k..][1..] == chunks[k + 1..];
        PlusAssociates(capacity, chunks[k].capacity, CapacityOf(chunks[k + 1..]));
        capacity := Plus(capacity, chunks[k].capacity);
      }
    }

    method SizeInUse() returns (size: Size)
      ensures size == SizeOf(chunks)
    {
      size := 0;
      for k := 0 to |chunks|
        invariant Plus(size, SizeOf(chunks[k..])) == SizeOf(chunks)
      {
        assert chunks[k..][0] == chunks[k] && chunks[k..][1..] == chunks[k + 1..];
        PlusAssociates(size, chunks[k].size, SizeOf(chunks[k + 1..]));
        size := Plus(size, chunks[k].size);
      }
    }
  }
}
