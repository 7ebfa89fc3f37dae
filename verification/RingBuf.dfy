/**
 * HRingBuf of include/hv/hbuf.h: blocks allocated at the tail of a ring and freed at its head, in the
 * order they were allocated. A block never wraps: what is left at the end of the buffer may stay unused.
 */
module RingBuf {
  import opened Text

  datatype Ring = Ring(cap: nat, head: nat, tail: nat, size: nat)

  /** A block handed out and not yet freed. */
  datatype Block = Block(start: nat, length: nat) {
    function End(): nat {
      start + length
    }
  }

  datatype Allocated = Allocated(ring: Ring, ret: Option<nat>)

  function Wrap(r: Ring, at: nat): nat {
    if at == r.cap then 0 else at
  }

  /** `alloc`. */
  function Alloc(r: Ring, len: nat): Allocated {
    if r.head < r.tail || r.size == 0 then
      if r.cap - r.tail >= len then Allocated(r.(tail := Wrap(r, r.tail + len), size := r.size + len), Some(r.tail))
      else if r.head >= len then Allocated(r.(tail := len, size := r.size + len), Some(0))
      else Allocated(r, None)
    else if r.head - r.tail >= len then Allocated(r.(tail := r.tail + len, size := r.size + len), Some(r.tail))
    else Allocated(r, None)
  }

  /** The block to be freed lies at the head; if not, the head is at the unused end of the buffer. */
  predicate IsAtHead(r: Ring, len: nat) {
    len <= r.cap - r.head
  }

  /** `free`. */
  function Free(r: Ring, len: nat): Ring
    requires len <= r.size
  {
    if IsAtHead(r, len) then r.(head := Wrap(r, r.head + len), size := r.size - len)
    else r.(head := len, size := r.size - len)
  }

  // ---------------------------------------------------------------------------------------------
  // The invariant
  // ---------------------------------------------------------------------------------------------

  /** Blocks one after the other without a gap, from one position up to another. */
  predicate IsRun(blocks: seq<Block>, from: nat, to: nat)
    decreases |blocks|
  {
    if blocks == [] then from == to
    else blocks[0].start == from && blocks[0].length > 0 && IsRun(blocks[1..], blocks[0].End(), to)
  }

  function Total(blocks: seq<Block>): nat {
    if blocks == [] then 0 else blocks[0].length + Total(blocks[1..])
  }

  /**
   * The live blocks, oldest first: those from the head up to `end`, then those that start again at 0
   * because the next one did not fit between `end` and the end of the buffer.
   */
  datatype Layout = Layout(upper: seq<Block>, lower: seq<Block>, end: nat) {
    function Live(): seq<Block> {
      upper + lower
    }
  }

  predicate Describes(r: Ring, l: Layout) {
    && (r.head < r.cap || r.head == r.cap == 0)
    && r.size == Total(l.upper) + Total(l.lower)
    && IsRun(l.upper, r.head, l.end) && l.end <= r.cap
    && if l.lower == [] then r.tail == if l.upper == [] then r.head else Wrap(r, l.end)
       else IsRun(l.lower, 0, r.tail) && r.tail <= r.head && l.lower[0].length > r.cap - l.end
  }

  lemma {:induction false} RunGrows(blocks: seq<Block>, from: nat, to: nat, len: nat)
    requires IsRun(blocks, from, to) && len > 0
    ensures IsRun(blocks + [Block(to, len)], from, to + len)
    ensures Total(blocks + [Block(to, len)]) == Total(blocks) + len
    decreases |blocks|
  {
    if blocks == [] {
      assert ([] + [Block(to, len)])[1..] == [];
    } else {
      assert (blocks + [Block(to, len)])[1..] == blocks[1..] + [Block(to, len)];
      RunGrows(blocks[1..], blocks[0].End(), to, len);
    }
  }

  lemma {:induction false} RunBounds(blocks: seq<Block>, from: nat, to: nat)
    requires IsRun(blocks, from, to)
    ensures to == from + Total(blocks) && (blocks != [] ==> Total(blocks) > 0)
    decreases |blocks|
  {
    if blocks != [] {
      RunBounds(blocks[1..], blocks[0].End(), to);
    }
  }

  lemma {:induction false} RunContains(blocks: seq<Block>, from: nat, to: nat, k: nat)
    requires IsRun(blocks, from, to) && k < |blocks|
    ensures from <= blocks[k].start && blocks[k].length > 0 && blocks[k].End() <= to
    decreases |blocks|
  {
    RunBounds(blocks[1..], blocks[0].End(), to);
    if k > 0 {
      RunContains(blocks[1..], blocks[0].End(), to, k - 1);
    }
  }

  lemma {:induction false} RunDisjoint(blocks: seq<Block>, from: nat, to: nat, j: nat, k: nat)
    requires IsRun(blocks, from, to) && j < k < |blocks|
    ensures blocks[j].End() <= blocks[k].start
    decreases |blocks|
  {
    if j == 0 {
      RunContains(blocks[1..], blocks[0].End(), to, k - 1);
    } else {
      RunDisjoint(blocks[1..], blocks[0].End(), to, j - 1, k - 1);
    }
  }

  /** Live blocks lie in the buffer and do not overlap; `size` is the sum of their lengths. */
  lemma LiveAreDisjoint(r: Ring, l: Layout)
    requires Describes(r, l)
    ensures forall k :: 0 <= k < |l.Live()| ==> l.Live()[k].length > 0 && l.Live()[k].End() <= r.cap
    ensures forall j, k :: 0 <= j < k < |l.Live()| ==> l.Live()[j].End() <= l.Live()[k].start || l.Live()[k].End() <= l.Live()[j].start
    ensures r.size == Total(l.upper) + Total(l.lower) <= r.cap
  {
    var live, n := l.Live(), |l.upper|;
    RunBounds(l.upper, r.head, l.end);
    RunBounds(l.lower, 0, if l.lower == [] then 0 else r.tail);
    forall k | 0 <= k < |live|
      ensures live[k].length > 0 && live[k].End() <= if k < n then l.end else r.head
      ensures k < n ==> r.head <= live[k].start
    {
      if k < n {
        RunContains(l.upper, r.head, l.end, k);
      } else {
        RunContains(l.lower, 0, r.tail, k - n);
      }
    }
    forall j, k | 0 <= j < k < |live| ensures live[j].End() <= live[k].start || live[k].End() <= live[j].start {
      if k < n {
        RunDisjoint(l.upper, r.head, l.end, j, k);
      } else if j >= n {
        RunDisjoint(l.lower, 0, r.tail, j - n, k - n);
      }
    }
  }

  // ---------------------------------------------------------------------------------------------
  // Runs
  // ---------------------------------------------------------------------------------------------

  /** Where `alloc` puts its block among the live ones: last. */
  function AllocLayout(r: Ring, l: Layout, len: nat): Layout
    requires Alloc(r, len).ret.Some?
  {
    var block := Block(Alloc(r, len).ret.value, len);
    if (r.head < r.tail || r.size == 0) && r.cap - r.tail >= len then Layout(l.upper + [block], l.lower, l.end + len)
    else Layout(l.upper, l.lower + [block], l.end)
  }

  /** The tail moves up to the end of the buffer. */
  lemma UpperGrows(r: Ring, l: Layout, len: nat)
    requires Describes(r, l) && len > 0 && (r.head < r.tail || r.size == 0) && r.cap - r.tail >= len
    ensures l.lower == [] && r.tail == l.end
    ensures Describes(r.(tail := Wrap(r, r.tail + len), size := r.size + len), Layout(l.upper + [Block(r.tail, len)], l.lower, l.end + len))
  {
    RunBounds(l.upper, r.head, l.end);
    RunBounds(l.lower, 0, if l.lower == [] then 0 else r.tail);
    RunGrows(l.upper, r.head, l.end, len);
  }

  /** The tail moves up to the head, from 0 or from where it is below the head. */
  lemma LowerGrows(r: Ring, l: Layout, len: nat, at: nat)
    requires Describes(r, l) && len > 0
    requires if r.head < r.tail || r.size == 0 then at == 0 && r.cap - r.tail < len <= r.head else at == r.tail && len <= r.head - r.tail
    ensures Describes(r.(tail := at + len, size := r.size + len), Layout(l.upper, l.lower + [Block(at, len)], l.end))
  {
    RunBounds(l.upper, r.head, l.end);
    RunBounds(l.lower, 0, if l.lower == [] then 0 else r.tail);
    assert IsRun(l.lower, 0, at);
    RunGrows(l.lower, 0, at, len);
    assert l.lower == [] ==> (l.lower + [Block(at, len)])[0] == Block(at, len);
    assert l.lower != [] ==> (l.lower + [Block(at, len)])[0] == l.lower[0];
  }

  lemma AllocKeeps(r: Ring, l: Layout, len: nat)
    requires Describes(r, l) && len > 0
    ensures var a := Alloc(r, len);
            && (a.ret.None? ==> a.ring == r)
            && (a.ret.Some? ==>
                  var l' := AllocLayout(r, l, len);
                  Describes(a.ring, l') && l'.Live() == l.Live() + [Block(a.ret.value, len)])
  {
    hide IsRun, Total;
    var a := Alloc(r, len);
    if a.ret.Some? {
      if (r.head < r.tail || r.size == 0) && r.cap - r.tail >= len {
        UpperGrows(r, l, len);
        assert l.upper + [Block(r.tail, len)] + [] == l.upper + [] + [Block(r.tail, len)];
      } else {
        LowerGrows(r, l, len, a.ret.value);
        Regroup3(l.upper, l.lower, [Block(a.ret.value, len)]);
      }
    }
  }

  /** The layout without its oldest block. When nothing is left above, what starts at 0 is all there is. */
  function FreeLayout(r: Ring, l: Layout): Layout
    requires l.Live() != []
  {
    if l.upper == [] then Layout(l.lower[1..], [], r.tail)
    else if |l.upper| == 1 && l.end == r.cap then Layout(l.lower, [], r.tail)
    else Layout(l.upper[1..], l.lower, l.end)
  }

  /** What `free` of the oldest block must do. */
  predicate FreesOldest(r: Ring, l: Layout, oldest: Block) {
    && oldest.length <= r.size
    && (IsAtHead(r, oldest.length) <==> oldest.start == r.head)
    && (!IsAtHead(r, oldest.length) ==> oldest.start == 0)
    && Describes(Free(r, oldest.length), l)
  }

  /** The oldest block lies at the head. */
  lemma FreeUpper(r: Ring, l: Layout)
    requires Describes(r, l) && l.upper != []
    ensures FreesOldest(r, FreeLayout(r, l), l.upper[0])
  {
    RunBounds(l.upper, r.head, l.end);
    RunBounds(l.lower, 0, if l.lower == [] then 0 else r.tail);
    RunBounds(l.upper[1..], l.upper[0].End(), l.end);
    assert |l.upper| == 1 ==> l.upper[1..] == [];
  }

  /** The oldest block starts at 0, and the head is at the unused end of the buffer. */
  lemma FreeLower(r: Ring, l: Layout)
    requires Describes(r, l) && l.upper == [] && l.lower != []
    ensures FreesOldest(r, FreeLayout(r, l), l.lower[0])
  {
    RunBounds(l.lower, 0, r.tail);
    RunBounds(l.lower[1..], l.lower[0].End(), r.tail);
  }

  /**
   * Freeing the oldest live block. The head skips the unused end of the buffer exactly when that block is
   * not at the head, which is when it starts at 0.
   */
  lemma FreeKeeps(r: Ring, l: Layout)
    requires Describes(r, l) && l.Live() != []
    ensures FreesOldest(r, FreeLayout(r, l), l.Live()[0])
    ensures FreeLayout(r, l).Live() == l.Live()[1..]
  {
    hide Describes, FreesOldest, IsRun, Total, Free;
    if l.upper == [] {
      FreeLower(r, l);
      assert l.Live() == l.lower && l.lower[1..] + [] == l.lower[1..];
    } else {
      FreeUpper(r, l);
      assert l.Live()[1..] == l.upper[1..] + l.lower;
      if |l.upper| == 1 {
        assert l.upper[1..] == [] && [] + l.lower == l.lower && l.lower + [] == l.lower;
      }
    }
  }

  datatype Call = AllocCall(len: nat) | FreeCall

  /** The ring, and the live blocks as its user knows them, oldest first. */
  datatype Use = Use(ring: Ring, live: seq<Block>)

  predicate Allowed(u: Use, call: Call) {
    match call
    case AllocCall(len) => len > 0
    case FreeCall => u.live != []
  }

  /** The blocks the user holds are those of a layout that describes the ring. */
  ghost predicate IsSound(u: Use) {
    exists l :: Describes(u.ring, l) && l.Live() == u.live
  }

  /** What the user holds is never more than the ring counts, so freeing never takes `size` below 0. */
  lemma FreeIsSafe(u: Use)
    requires IsSound(u) && u.live != []
    ensures u.live[0].length <= u.ring.size
  {
    var l :| Describes(u.ring, l) && l.Live() == u.live;
    FreeKeeps(u.ring, l);
  }

  ghost function Do(u: Use, call: Call): Use
    requires IsSound(u) && Allowed(u, call)
  {
    match call
    case AllocCall(len) =>
      var a := Alloc(u.ring, len);
      Use(a.ring, if a.ret.Some? then u.live + [Block(a.ret.value, len)] else u.live)
    case FreeCall =>
      FreeIsSafe(u);
      Use(Free(u.ring, u.live[0].length), u.live[1..])
  }

  lemma DoKeeps(u: Use, call: Call)
    requires IsSound(u) && Allowed(u, call)
    ensures IsSound(Do(u, call))
  {
    var l :| Describes(u.ring, l) && l.Live() == u.live;
    match call
    case AllocCall(len) => AllocKeeps(u.ring, l, len);
    case FreeCall => FreeKeeps(u.ring, l);
  }

  ghost predicate MayRun(u: Use, calls: seq<Call>)
    requires IsSound(u)
    decreases |calls|
  {
    calls == [] || (Allowed(u, calls[0]) && (DoKeeps(u, calls[0]); MayRun(Do(u, calls[0]), calls[1..])))
  }

  ghost function Run(u: Use, calls: seq<Call>): (end: Use)
    requires IsSound(u) && MayRun(u, calls)
    ensures IsSound(end)
    decreases |calls|
  {
    if calls == [] then u
    else
      DoKeeps(u, calls[0]);
      Run(Do(u, calls[0]), calls[1..])
  }

  lemma {:induction false} TotalAppend(a: seq<Block>, b: seq<Block>)
    ensures Total(a + b) == Total(a) + Total(b)
    decreases |a|
  {
    if a == [] {
      assert a + b == b;
    } else {
      assert (a + b)[1..] == a[1..] + b;
      TotalAppend(a[1..], b);
    }
  }

  /** An empty ring of some capacity, before any call. */
  ghost function Start(cap: nat): (u: Use)
    ensures IsSound(u)
  {
    assert Describes(Ring(cap, 0, 0, 0), Layout([], [], 0)) && Layout([], [], 0).Live() == [];
    Use(Ring(cap, 0, 0, 0), [])
  }

  /** From an empty ring of any capacity, allocating and freeing in order. */
  lemma BlocksStayDisjoint(cap: nat, calls: seq<Call>)
    requires MayRun(Start(cap), calls)
    ensures var u := Run(Start(cap), calls);
            && (forall k :: 0 <= k < |u.live| ==> u.live[k].length > 0 && u.live[k].End() <= u.ring.cap)
            && (forall j, k :: 0 <= j < k < |u.live| ==> u.live[j].End() <= u.live[k].start || u.live[k].End() <= u.live[j].start)
            && u.ring.size == Total(u.live)
  {
    hide *;
    SoundIsDisjoint(Run(Start(cap), calls));
  }

  lemma SoundIsDisjoint(u: Use)
    requires IsSound(u)
    ensures forall k :: 0 <= k < |u.live| ==> u.live[k].length > 0 && u.live[k].End() <= u.ring.cap
    ensures forall j, k :: 0 <= j < k < |u.live| ==> u.live[j].End() <= u.live[k].start || u.live[k].End() <= u.live[j].start
    ensures u.ring.size == Total(u.live)
  {
    var l :| Describes(u.ring, l) && l.Live() == u.live;
    LiveAreDisjoint(u.ring, l);
    TotalAppend(l.upper, l.lower);
  }

  // ---------------------------------------------------------------------------------------------
  // Refusals
  // ---------------------------------------------------------------------------------------------

  /** The free units after the newest block, up to the next block or the end of the buffer. */
  function RoomBehind(r: Ring, l: Layout): int {
    if l.lower == [] then r.cap - l.end else r.head - r.tail
  }

  /** The free units at the start of the buffer when no block has been put there yet. */
  function RoomBelow(r: Ring, l: Layout): int {
    if l.lower == [] then r.head else 0
  }

  /** A block is refused exactly when it fits neither behind the newest block nor below the head. */
  lemma RefusedIff(r: Ring, l: Layout, len: nat)
    requires Describes(r, l) && len > 0
    ensures Alloc(r, len).ret.None? <==> len > RoomBehind(r, l) && len > RoomBelow(r, l)
  {
    RunBounds(l.upper, r.head, l.end);
    RunBounds(l.lower, 0, if l.lower == [] then 0 else r.tail);
  }

  /**
   * An empty ring hands out every block that its buffer could hold exactly when its head is at 0: `free`
   * does not bring it back there.
   */
  lemma EmptyRefusesIff(r: Ring, l: Layout)
    requires Describes(r, l) && l.Live() == []
    ensures forall len: nat :: len > 0 ==> (Alloc(r, len).ret.None? <==> len > r.cap - r.head && len > r.head)
    ensures (forall len: nat :: 0 < len <= r.cap ==> Alloc(r, len).ret.Some?) <==> r.head == 0
  {
    assert l.upper == [] && l.lower == [];
    forall len: nat | len > 0 ensures Alloc(r, len).ret.None? <==> len > r.cap - r.head && len > r.head {
      RefusedIff(r, l, len);
    }
    if r.head > 0 {
      assert Alloc(r, r.cap).ret.None?;
    }
  }

  lemma FirstCall(u: Use, call: Call, calls: seq<Call>, after: Use)
    requires IsSound(u) && Allowed(u, call) && Do(u, call) == after && IsSound(after) && MayRun(after, calls)
    ensures MayRun(u, [call] + calls) && Run(u, [call] + calls) == Run(after, calls)
  {
    hide IsSound, Do, Allowed;
    assert ([call] + calls)[1..] == calls;
  }

  lemma AllocStep(u: Use, len: nat)
    requires IsSound(u) && len > 0 && Alloc(u.ring, len).ret.Some?
    ensures var a := Alloc(u.ring, len);
            var after := Use(a.ring, u.live + [Block(a.ret.value, len)]);
            IsSound(after) && Do(u, AllocCall(len)) == after
  {
    hide IsSound;
    DoKeeps(u, AllocCall(len));
  }

  lemma FreeStep(u: Use)
    requires IsSound(u) && u.live != []
    ensures u.live[0].length <= u.ring.size
    ensures var after := Use(Free(u.ring, u.live[0].length), u.live[1..]);
            IsSound(after) && Do(u, FreeCall) == after
  {
    hide IsSound;
    FreeIsSafe(u);
    DoKeeps(u, FreeCall);
  }

  /** An empty ring of 10 refuses 7, after 6 have been handed out and freed. */
  lemma EmptyMayRefuse()
    ensures MayRun(Start(10), [AllocCall(6), FreeCall])
    ensures var u := Run(Start(10), [AllocCall(6), FreeCall]);
            u.live == [] && Alloc(u.ring, 7).ret.None?
  {
    hide IsSound, Do;
    var full, end := Use(Ring(10, 0, 6, 6), [Block(0, 6)]), Use(Ring(10, 6, 6, 0), []);
    AllocStep(Start(10), 6);
    assert Start(10).live + [Block(0, 6)] == full.live;
    FreeStep(full);
    assert full.live[1..] == end.live;
    assert MayRun(end, []) && Run(end, []) == end;
    hide MayRun, Run;
    FirstCall(full, FreeCall, [], end);
    FirstCall(Start(10), AllocCall(6), [FreeCall] + [], full);
    assert [AllocCall(6)] + ([FreeCall] + []) == [AllocCall(6), FreeCall];
  }

  // ---------------------------------------------------------------------------------------------
  // The ring buffer
  // ---------------------------------------------------------------------------------------------

  class HRingBuf {
    const cap: nat
    var head: nat
    var tail: nat
    var size: nat

    constructor (cap: nat)
      ensures Now() == Ring(cap, 0, 0, 0)
    {
      this.cap := cap;
      head, tail, size := 0, 0, 0;
    }

    function Now(): Ring
      reads this
    {
      Ring(cap, head, tail, size)
    }

    method AllocBlock(len: nat) returns (ret: Option<nat>)
      requires tail <= cap
      modifies this
      ensures Allocated(Now(), ret) == Alloc(old(Now()), len)
    {
      ret := None;
      if head < tail || size == 0 {
        if cap - tail >= len {
          ret := Some(tail);
          tail := tail + len;
          if tail == cap {
            tail := 0;
          }
        } else if head >= len {
          ret := Some(0);
          tail := len;
        }
      } else if head - tail >= len {
        ret := Some(tail);
        tail := tail + len;
      }
      size := size + if ret.Some? then len else 0;
    }

    method FreeBlock(len: nat)
      requires len <= size
      modifies this
      ensures Now() == Free(old(Now()), len)
    {
      size := size - len;
      if len <= cap - head {
        head := head + len;
        if head == cap {
          head := 0;
        }
      } else {
        head := len;
      }
    }
  }
}
