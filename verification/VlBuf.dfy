/**
 * HVLBuf of include/hv/hbuf.h: a deque of bytes kept in a stretch of a buffer, which slides to one
 * end of it or moves to a larger one when there is no room where the bytes go.
 */
module VlBuf {
  import opened Text

  // ---------------------------------------------------------------------------------------------
  // The deque it stands for
  // ---------------------------------------------------------------------------------------------

  datatype Operation =
    | PushFront(bytes: Str)
    | PushBack(bytes: Str)
    | PopFront(len: nat)
    | PopBack(len: nat)
    | Clear

  /** What an operation leaves, and what it hands out; popping more than there is does nothing. */
  function After(content: Str, op: Operation): Str {
    match op
    case PushFront(bytes) => bytes + content
    case PushBack(bytes) => content + bytes
    case PopFront(len) => if len <= |content| then content[len..] else content
    case PopBack(len) => if len <= |content| then content[..|content| - len] else content
    case Clear => []
  }

  function Popped(content: Str, op: Operation): Option<Str> {
    match op
    case PopFront(len) => if len <= |content| then Some(content[..len]) else None
    case PopBack(len) => if len <= |content| then Some(content[|content| - len..]) else None
    case _ => None
  }

  // ---------------------------------------------------------------------------------------------
  // The buffer's fields
  // ---------------------------------------------------------------------------------------------

  /** `HBuf::len`, `_offset` and `_size`. */
  datatype Fields = Fields(cap: nat, offset: nat, size: nat)

  predicate IsInBounds(f: Fields) {
    f.offset + f.size <= f.cap
  }

  function Max(a: nat, b: nat): nat {
    if a > b then a else b
  }

  /** The capacity after `resize`, if it is needed. */
  function Room(f: Fields, len: nat): nat
    requires IsInBounds(f)
  {
    if len > f.cap - f.size then Max(f.cap, len) * 2 else f.cap
  }

  const SIZE_LIMIT := 0x1_0000_0000_0000_0000

  /**
   * The capacity asked for when the bytes do not fit is doubled in `size_t`. It is the one meant, and the bytes then
   * fit, if and only if buffer and bytes are shorter than 2^63.
   */
  lemma DoublingFitsIff(f: Fields, len: nat)
    requires IsInBounds(f) && f.cap < SIZE_LIMIT && len < SIZE_LIMIT && len > f.cap - f.size
    ensures var doubled := Max(f.cap, len) * 2 % SIZE_LIMIT;
            && (f.size + len <= doubled <==> Max(f.cap, len) < 0x8000_0000_0000_0000)
            && (Max(f.cap, len) < 0x8000_0000_0000_0000 ==> doubled == Room(f, len))
  {
    var m := Max(f.cap, len);
    if m >= 0x8000_0000_0000_0000 {
      assert m * 2 % SIZE_LIMIT == m * 2 - SIZE_LIMIT < m;
    }
  }

  class HVLBuf {
    var base: array<Ch>
    var offset: nat
    var size: nat

    ghost predicate Valid()
      reads this
    {
      offset + size <= base.Length
    }

    function Content(): Str
      requires Valid()
      reads this, base
    {
      base[offset..offset + size]
    }

    constructor (cap: nat)
      ensures Valid() && Content() == [] && fresh(base) && base.Length == cap
    {
      base := new Ch[cap];
      offset, size := 0, 0;
    }

    /** `HBuf::resize`: the bytes are where they were, as far as the new capacity goes. */
    method Resize(cap: nat)
      requires Valid() && base.Length <= cap
      modifies `base
      ensures Valid() && Content() == old(Content()) && base.Length == cap
      ensures base == old(base) || fresh(base)
    {
      if cap == base.Length {
        return;
      }
      var bigger := new Ch[cap];
      forall k | 0 <= k < base.Length {
        bigger[k] := base[k];
      }
      assert bigger[offset..offset + size] == base[offset..offset + size];
      base := bigger;
    }

    /** `memmove` of the bytes to another place in the buffer. */
    method Slide(to: nat)
      requires Valid() && to + size <= base.Length
      modifies this`offset, base
      ensures Valid() && offset == to && Content() == old(Content())
    {
      ghost var content := Content();
      forall k | 0 <= k < size {
        base[to + k] := base[offset + k];
      }
      offset := to;
      assert forall k :: 0 <= k < size ==> base[to + k] == content[k];
      assert base[to..to + size] == content;
    }

    /** `memcpy` of bytes from outside into the buffer. */
    method CopyIn(at: nat, bytes: Str)
      requires at + |bytes| <= base.Length
      modifies base
      ensures base[at..at + |bytes|] == bytes
      ensures forall k :: 0 <= k < base.Length && !(at <= k < at + |bytes|) ==> base[k] == old(base[k])
    {
      forall k | 0 <= k < |bytes| {
        base[at + k] := bytes[k];
      }
      assert forall k :: 0 <= k < |bytes| ==> base[at + k] == bytes[k];
    }

    method PushFront(bytes: Str)
      requires Valid()
      modifies this, base
      ensures Valid() && Content() == After(old(Content()), Operation.PushFront(bytes))
      ensures base == old(base) || fresh(base)
      ensures base.Length == Room(Fields(old(base.Length), old(offset), old(size)), |bytes|)
    {
      var len := |bytes|;
      if len > base.Length - size {
        Resize(Max(base.Length, len) * 2);
      }
      if offset < len {
        Slide(base.Length - size);
      }
      PutBefore(bytes);
    }

    method PutBefore(bytes: Str)
      requires Valid() && |bytes| <= offset
      modifies this`offset, this`size, base
      ensures Valid() && Content() == bytes + old(Content())
    {
      ghost var content := Content();
      CopyIn(offset - |bytes|, bytes);
      assert base[offset..offset + size] == content;
      offset, size := offset - |bytes|, size + |bytes|;
      assert base[offset..offset + size] == base[offset..offset + |bytes|] + base[offset + |bytes|..offset + size];
    }

    method PutAfter(bytes: Str)
      requires Valid() && offset + size + |bytes| <= base.Length
      modifies this`size, base
      ensures Valid() && Content() == old(Content()) + bytes
    {
      ghost var content := Content();
      var end := offset + size;
      CopyIn(end, bytes);
      assert base[offset..end] == content;
      size := size + |bytes|;
      assert base[offset..offset + size] == base[offset..end] + base[end..offset + size];
    }

    method PushBack(bytes: Str)
      requires Valid()
      modifies this, base
      ensures Valid() && Content() == After(old(Content()), Operation.PushBack(bytes))
      ensures base == old(base) || fresh(base)
      ensures base.Length == Room(Fields(old(base.Length), old(offset), old(size)), |bytes|)
    {
      var len := |bytes|;
      if len > base.Length - size {
        Resize(Max(base.Length, len) * 2);
      } else if len > base.Length - offset - size {
        Slide(0);
      }
      PutAfter(bytes);
    }

    method PopFront(len: nat) returns (out: Option<Str>)
      requires Valid()
      modifies this`offset, this`size
      ensures Valid() && Content() == After(old(Content()), Operation.PopFront(len))
      ensures out == Popped(old(Content()), Operation.PopFront(len))
    {
      ghost var content := Content();
      out := None;
      if len <= size {
        out := Some(base[offset..offset + len]);
        assert out.value == content[..len];
        offset := offset + len;
        if offset >= base.Length {
          offset := 0;
        }
        size := size - len;
        assert Content() == content[len..];
      }
    }

    method PopBack(len: nat) returns (out: Option<Str>)
      requires Valid()
      modifies this`size
      ensures Valid() && Content() == After(old(Content()), Operation.PopBack(len))
      ensures out == Popped(old(Content()), Operation.PopBack(len))
    {
      ghost var content := Content();
      out := None;
      if len <= size {
        out := Some(base[offset + size - len..offset + size]);
        assert out.value == content[size - len..];
        size := size - len;
        assert Content() == content[..size];
      }
    }

    method ClearAll()
      requires Valid()
      modifies this`offset, this`size
      ensures Valid() && Content() == After(old(Content()), Operation.Clear)
    {
      offset, size := 0, 0;
    }

    /** Any interleaving of the operations leaves, and hands out, what the deque does. */
    method Perform(ops: seq<Operation>) returns (outs: seq<Option<Str>>)
      requires Valid()
      modifies this, base
      ensures Valid() && Content() == AfterAll(old(Content()), ops)
      ensures outs == PoppedAll(old(Content()), ops)
    {
      outs := [];
      ghost var start := Content();
      assert ops[0..] == ops;
      for k := 0 to |ops|
        invariant Valid() && (base == old(base) || fresh(base))
        invariant AfterAll(Content(), ops[k..]) == AfterAll(start, ops)
        invariant outs + PoppedAll(Content(), ops[k..]) == PoppedAll(start, ops)
      {
        ghost var before, held, rest := Content(), outs, ops[k + 1..];
        assert ops[k..][0] == ops[k] && ops[k..][1..] == rest;
        var out: Option<Str> := None;
        match ops[k] {
          case PushFront(bytes) => PushFront(bytes);
          case PushBack(bytes) => PushBack(bytes);
          case PopFront(len) => out := PopFront(len);
          case PopBack(len) => out := PopBack(len);
          case Clear => ClearAll();
        }
        outs := outs + [out];
        Regroup3(held, [out], PoppedAll(Content(), rest));
      }
      assert ops[|ops|..] == [];
    }
  }

  function AfterAll(content: Str, ops: seq<Operation>): Str
    decreases |ops|
  {
    if ops == [] then content else AfterAll(After(content, ops[0]), ops[1..])
  }

  function PoppedAll(content: Str, ops: seq<Operation>): seq<Option<Str>>
    decreases |ops|
  {
    if ops == [] then [] else [Popped(content, ops[0])] + PoppedAll(After(content, ops[0]), ops[1..])
  }

  // ---------------------------------------------------------------------------------------------
  // Laws of the deque
  // ---------------------------------------------------------------------------------------------

  lemma PopStep(content: Str, n: nat, ops: seq<Operation>)
    requires n <= |content|
    ensures PoppedAll(content, [PopFront(n)] + ops) == [Some(content[..n])] + PoppedAll(content[n..], ops)
    ensures AfterAll(content, [PopFront(n)] + ops) == AfterAll(content[n..], ops)
  {
    assert ([PopFront(n)] + ops)[1..] == ops;
  }

  lemma JoinStep(bytes: Str, outs: seq<Option<Str>>)
    ensures Joined([Some(bytes)] + outs) == bytes + Joined(outs)
  {
    assert ([Some(bytes)] + outs)[1..] == outs;
  }

  lemma PiecesJoin(content: Str, n: nat, m: nat)
    requires n + m <= |content|
    ensures content[..n] + content[n..][..m] == content[..n + m] && content[n..][m..] == content[n + m..]
  {
  }

  lemma SumStep(lens: seq<nat>)
    requires lens != []
    ensures Sum(lens) == lens[0] + Sum(lens[1..]) && Pops(lens) == [PopFront(lens[0])] + Pops(lens[1..])
  {
  }

  lemma NoPops(content: Str, lens: seq<nat>)
    requires lens == []
    ensures Sum(lens) == 0 && Joined(PoppedAll(content, Pops(lens))) == content[..0] && AfterAll(content, Pops(lens)) == content[0..]
  {
  }

  /** Bytes leave at the front in the order they came at the back, in whatever pieces they are taken. */
  lemma {:induction false} QueueKeepsOrder(content: Str, lens: seq<nat>)
    requires Sum(lens) <= |content|
    ensures Joined(PoppedAll(content, Pops(lens))) == content[..Sum(lens)]
    ensures AfterAll(content, Pops(lens)) == content[Sum(lens)..]
    decreases |lens|
  {
    hide *;
    if lens == [] {
      NoPops(content, lens);
    } else {
      var n, more := lens[0], lens[1..];
      SumStep(lens);
      QueueKeepsOrder(content[n..], more);
      PopStep(content, n, Pops(more));
      JoinStep(content[..n], PoppedAll(content[n..], Pops(more)));
      PiecesJoin(content, n, Sum(more));
    }
  }

  function Sum(lens: seq<nat>): nat {
    if lens == [] then 0 else lens[0] + Sum(lens[1..])
  }

  function Pops(lens: seq<nat>): seq<Operation> {
    if lens == [] then [] else [PopFront(lens[0])] + Pops(lens[1..])
  }

  function Joined(outs: seq<Option<Str>>): Str {
    if outs == [] then [] else (if outs[0].Some? then outs[0].value else []) + Joined(outs[1..])
  }
}
