/**
 * In-situ string decoding: GenericInsituStringStream of include/rapidjson/stream.h and the in-situ
 * path of ParseString in include/rapidjson/reader.h. The decoded string overwrites the text it is
 * read from, and must be what decoding into a separate buffer gives.
 */
module InsituString {
  import opened Text
  import opened ParseTypes
  import opened StringCodec
  import Utf8

  /** `after` is `before` with `out` written over it at `head`. */
  ghost predicate Overlaid(before: Str, head: nat, out: Str, after: Str) {
    && |after| == |before|
    && head + |out| <= |before|
    && after[..head] == before[..head]
    && after[head..head + |out|] == out
    && after[head + |out|..] == before[head + |out|..]
  }

  /** A NUL-terminated buffer with a read cursor and a write cursor. */
  class InsituStream {
    const buf: array<Ch>
    var src: nat
    var dst: nat

    /** The write cursor never passes the read cursor. */
    ghost predicate Valid()
      reads this, buf
    {
      && buf.Length > 0
      && buf[buf.Length - 1] == NUL
      && dst <= src <= buf.Length
    }

    /** The text still to be read, without its terminator. */
    ghost function Unread(): Str
      reads this, buf
    {
      if src < buf.Length then buf[src..buf.Length - 1] else []
    }

    constructor (buffer: array<Ch>)
      requires buffer.Length > 0 && buffer[buffer.Length - 1] == NUL
      ensures Valid() && buf == buffer && src == 0 && dst == 0
    {
      buf := buffer;
      src, dst := 0, 0;
    }

    method PeekUnit() returns (c: Ch)
      requires Valid() && src < buf.Length
      ensures c == Peek(Unread())
    {
      c := buf[src];
    }

    method Take() returns (c: Ch)
      requires Valid() && src < buf.Length
      modifies `src
      ensures Valid() && src == old(src) + 1
      ensures c == Peek(old(Unread())) == buf[old(src)] && Unread() == Tail(old(Unread()))
      ensures c != NUL ==> src < buf.Length
    {
      c := buf[src];
      src := src + 1;
      assert c != NUL ==> buf[old(src)..buf.Length - 1][1..] == buf[src..buf.Length - 1];
    }

    /** `Put`: overwrites a unit that has already been read, and nothing else. */
    method Put(c: Ch)
      requires Valid() && dst < src
      requires dst == buf.Length - 1 ==> c == NUL
      modifies `dst, buf
      ensures Valid() && dst == old(dst) + 1
      ensures buf[..] == old(buf[..])[old(dst) := c]
      ensures Unread() == old(Unread())
    {
      buf[dst] := c;
      dst := dst + 1;
    }

    /** `PutBegin`: the output starts where the reading has got to. */
    method PutBegin() returns (head: nat)
      requires Valid()
      modifies `dst
      ensures Valid() && head == dst == src
    {
      dst := src;
      head := dst;
    }

    method PutAll(bytes: Str)
      requires Valid() && dst + |bytes| <= src < buf.Length
      modifies `dst, buf
      ensures Valid() && dst == old(dst) + |bytes|
      ensures Overlaid(old(buf[..]), old(dst), bytes, buf[..])
      ensures Unread() == old(Unread())
    {
      ghost var before := buf[..];
      ghost var start := dst;
      for k := 0 to |bytes|
        invariant Valid() && dst == start + k
        invariant Overlaid(before, start, bytes[..k], buf[..])
        invariant Unread() == old(Unread())
      {
        ghost var image := buf[..];
        Put(bytes[k]);
        FirstUnit(image, start + k, bytes[k], buf[..]);
        Extend(before, start, bytes[..k], image, [bytes[k]], buf[..]);
        assert bytes[..k + 1] == bytes[..k] + [bytes[k]];
      }
      assert bytes[..|bytes|] == bytes;
    }

    /** `ParseHex4`. */
    method ReadHex4() returns (codepoint: nat, ok: bool)
      requires Valid() && src < buf.Length
      modifies `src
      ensures Valid() && src < buf.Length && old(src) <= src
      ensures ok <==> ParseHex4(old(Unread())).Hex?
      ensures ok ==> ParseHex4(old(Unread())) == Hex(codepoint, Unread()) && src == old(src) + 4
    {
      hide HexDigits, HexDigit;
      codepoint, ok := 0, true;
      ghost var s := Unread();
      for i := 0 to 4
        invariant Valid() && src < buf.Length && src == old(src) + i
        invariant HexDigits(4 - i, codepoint, Unread()) == HexDigits(4, 0, s)
      {
        HexStep(4 - i, codepoint, Unread());
        var c := PeekUnit();
        var d := HexDigit(c);
        if d.None? {
          ok := false;
          return;
        }
        codepoint := codepoint * 16 + d.value;
        var taken := Take();
      }
      HexEnds(codepoint, Unread());
    }

    /** The code point of \uXXXX, from after its `u`, with its low surrogate when it needs one. */
    method TakeCodepoint() returns (r: Codepoint)
      requires Valid() && src < buf.Length
      modifies `src
      ensures Valid()
      ensures r == ReadCodepoint(old(Unread()))
      ensures r.Codepoint? ==> src < buf.Length && Unread() == r.rest
      ensures r.Codepoint? ==> src >= old(src) + (if r.value > 0xFFFF then 10 else 4)
    {
      hide ParseHex4, ReadLow;
      var codepoint, ok := ReadHex4();
      if !ok {
        return BadCodepoint(StringUnicodeEscapeInvalidHex);
      }
      if 0xD800 <= codepoint <= 0xDFFF {
        if codepoint > 0xDBFF {
          return BadCodepoint(StringUnicodeSurrogateInvalid);
        }
        r := TakeLow(codepoint);
        return;
      }
      return Codepoint(codepoint, buf[src..buf.Length - 1]);
    }

    /** The second half of a surrogate pair. */
    method TakeLow(high: nat) returns (r: Codepoint)
      requires Valid() && src < buf.Length && 0xD800 <= high <= 0xDBFF
      modifies `src
      ensures Valid()
      ensures r == ReadLow(high, old(Unread()))
      ensures r.Codepoint? ==> src == old(src) + 6 && src < buf.Length && Unread() == r.rest
    {
      hide ParseHex4;
      ghost var s := Unread();
      var c := PeekUnit();
      if c != BACKSLASH {
        return BadCodepoint(StringUnicodeSurrogateInvalid);
      }
      c := Take();
      c := PeekUnit();
      if c != LETTER_U {
        return BadCodepoint(StringUnicodeSurrogateInvalid);
      }
      c := Take();
      assert Unread() == s[2..];
      var codepoint2, ok2 := ReadHex4();
      if !ok2 {
        return BadCodepoint(StringUnicodeEscapeInvalidHex);
      }
      if codepoint2 < 0xDC00 || codepoint2 > 0xDFFF {
        return BadCodepoint(StringUnicodeSurrogateInvalid);
      }
      return Codepoint((high - 0xD800) * 0x400 + (codepoint2 - 0xDC00) + 0x10000, buf[src..buf.Length - 1]);
    }

    /** The escape at the read cursor is taken; its meaning is not yet written. */
    method TakeEscape(f: Flags) returns (r: Step)
      requires Valid() && src < buf.Length && Peek(Unread()) == BACKSLASH
      modifies `src
      ensures Valid()
      ensures r == EscapeStep(f, old(Unread()))
      ensures r.Copied? ==> old(src) < src < buf.Length && Unread() == r.rest && |r.out| <= src - old(src)
      ensures !r.Closed?
    {
      hide ReadCodepoint, Utf8.Encode;
      ghost var s := Unread();
      var escapeOffset := buf.Length - 1 - src;
      var c := Take();
      var e := PeekUnit();
      if Unescaped(e) != NUL {
        c := Take();
        return Copied([Unescaped(e)], buf[src..buf.Length - 1]);
      } else if f.escapedApostrophe && e == APOSTROPHE {
        c := Take();
        return Copied([APOSTROPHE], buf[src..buf.Length - 1]);
      } else if e == LETTER_U {
        c := Take();
        assert Unread() == s[2..];
        var cp := TakeCodepoint();
        if cp.BadCodepoint? {
          return Failed(cp.code, escapeOffset);
        }
        return Copied(Utf8.Encode(cp.value), cp.rest);
      } else {
        return Failed(StringEscapeInvalid, escapeOffset);
      }
    }

    /** The escape at the read cursor, read and its meaning written. */
    method Escape(f: Flags) returns (r: Step)
      requires Valid() && src < buf.Length && Peek(Unread()) == BACKSLASH
      modifies `src, `dst, buf
      ensures Valid()
      ensures r == EscapeStep(f, old(Unread()))
      ensures r.Copied? ==> Advanced(old(src), old(dst), old(buf[..]), r.out, r.rest)
      ensures !r.Closed? && Keeps(old(dst), old(buf[..]))
    {
      hide EscapeStep;
      r := TakeEscape(f);
      if r.Copied? {
        PutAll(r.out);
      }
    }

    /** Nothing before `at` was overwritten. */
    ghost predicate Keeps(at: nat, before: Str)
      reads this, buf
    {
      |before| == buf.Length && at <= buf.Length && buf[..at] == before[..at]
    }

    /** Both cursors moved on: `out` was written at the write cursor, nothing else changed. */
    ghost predicate Advanced(from: nat, at: nat, before: Str, out: Str, rest: Str)
      requires |before| == buf.Length
      reads this, buf
    {
      && from < src < buf.Length
      && dst == at + |out| <= src
      && Unread() == rest
      && Overlaid(before, at, out, buf[..])
    }

    /** One `RAPIDJSON_COPY` of `Validate`: takes a unit and puts it, but none after a NUL. */
    method CopyUnit(last: Ch, ghost before: Str, ghost start: nat, out: Str) returns (c: Ch, more: Str)
      requires Valid() && (last != NUL ==> src < buf.Length)
      requires dst == start + |out| && Overlaid(before, start, out, buf[..])
      modifies `src, `dst, buf
      ensures Valid() && old(src) <= src && (c != NUL ==> src < buf.Length)
      ensures dst == start + |more| && Overlaid(before, start, more, buf[..])
      ensures if last == NUL then c == NUL && more == out && Unread() == old(Unread())
              else c == Peek(old(Unread())) && more == out + [c] && Unread() == Tail(old(Unread()))
    {
      hide Overlaid;
      c, more := last, out;
      if c != NUL {
        ghost var image := buf[..];
        c := Take();
        Put(c);
        FirstUnit(image, start + |out|, c, buf[..]);
        Extend(before, start, out, image, [c], buf[..]);
        more := out + [c];
      }
    }

    /** `UTF8::Validate` with both cursors in one buffer. */
    method ValidateUnit() returns (v: Utf8.Validated)
      requires Valid() && src < buf.Length && Peek(Unread()) != NUL
      modifies `src, `dst, buf
      ensures Valid()
      ensures v == Utf8.Validate(old(Unread()))
      ensures v.ok ==> Advanced(old(src), old(dst), old(buf[..]), v.out, v.rest)
      ensures Keeps(old(dst), old(buf[..]))
    {
      hide Utf8.ValidateTail, Utf8.Validate, Utf8.InRange, Utf8.TailMasks;
      ghost var s, before, start := Unread(), buf[..], dst;
      var c := Take();
      Put(c);
      var out := [c];
      FirstUnit(before, start, c, buf[..]);
      LeadUnit(s);
      hide Overlaid;
      if c < 0x80 {
        return Utf8.Validated(true, out, buf[src..buf.Length - 1]);
      }
      var masks := Utf8.TailMasks(c);
      var ok := masks != [];
      while masks != []
        invariant Valid() && old(src) < src && dst == start + |out|
        invariant c != NUL ==> src < buf.Length
        invariant c == NUL ==> !ok
        invariant Overlaid(before, start, out, buf[..])
        invariant Utf8.ValidateTail(masks, ok, c, out, Unread()) == Utf8.Validate(s)
        decreases |masks|
      {
        TailStep(masks, ok, c, out, Unread());
        c, out := CopyUnit(c, before, start, out);
        ok := ok && Utf8.InRange(c, masks[0]);
        masks := masks[1..];
      }
      TailEnds(ok, c, out, Unread());
      return Utf8.Validated(ok, out, if src < buf.Length then buf[src..buf.Length - 1] else []);
    }

    /** One pass round the loop of `ParseStringToStream`, up to the closing quote. */
    method Advance(f: Flags) returns (r: Step)
      requires Valid() && src < buf.Length
      modifies `src, `dst, buf
      ensures Valid()
      ensures r == StringStep(f, old(Unread()))
      ensures r.Copied? ==> Advanced(old(src), old(dst), old(buf[..]), r.out, r.rest)
      ensures r.Closed? ==> src == old(src) + 1 && dst == old(dst) && buf[..] == old(buf[..]) && Unread() == r.rest
      ensures Keeps(old(dst), old(buf[..]))
    {
      var offset := buf.Length - 1 - src;
      var c := PeekUnit();
      if c == BACKSLASH {
        r := Escape(f);
      } else if c == QUOTE {
        c := Take();
        return Closed(buf[src..buf.Length - 1]);
      } else if c == NUL {
        return Failed(StringMissQuotationMark, offset);
      } else if c < 0x20 {
        return Failed(StringInvalidEncoding, offset);
      } else if f.validateEncoding {
        var v := ValidateUnit();
        return if v.ok then Copied(v.out, v.rest) else Failed(StringInvalidEncoding, offset);
      } else {
        c := Take();
        PutAll([c]);
        return Copied([c], buf[src..buf.Length - 1]);
      }
    }

    /** One pass round the loop, seen from the string decoded so far; `done` when it was the last. */
    method Pass(f: Flags, ghost before: Str, ghost head: nat, out: Str) returns (done: Option<StringResult>, more: Str)
      requires Valid() && src < buf.Length && dst == head + |out| && Overlaid(before, head, out, buf[..])
      modifies `src, `dst, buf
      ensures Valid()
      ensures done.None? ==>
                && old(src) < src < buf.Length && dst == head + |more| && Overlaid(before, head, more, buf[..])
                && DecodeString(f, more, Unread()) == DecodeString(f, out, old(Unread()))
      ensures done.Some? ==> done.value == DecodeString(f, out, old(Unread())) && Keeps(head, before)
      ensures done.Some? && done.value.StringOk? ==>
                && Unread() == done.value.rest && src < buf.Length && dst == head + |done.value.value| + 1
                && Overlaid(before, head, done.value.value + [NUL], buf[..])
    {
      hide StringStep, Overlaid, DecodeString;
      ghost var image := buf[..];
      DecodeInSteps(f, out, Unread());
      KeepsHead(before, head, out, image);
      var step := Advance(f);
      assert buf[..head] == buf[..head + |out|][..head] && image[..head] == image[..head + |out|][..head];
      match step
      case Failed(code, at) =>
        return Some(StringErr(code, at)), out;
      case Copied(piece, _) =>
        Extend(before, head, out, image, piece, buf[..]);
        return None, out + piece;
      case Closed(rest) =>
        Put(NUL);
        Extend(before, head, out, image, [NUL], buf[..]);
        return Some(StringOk(out, rest)), out;
    }

    /** `ParseStringToStream` with the stream as its own output. */
    method ParseStringToStream(f: Flags) returns (r: StringResult)
      requires Valid() && src < buf.Length && dst == src
      modifies `src, `dst, buf
      ensures Valid()
      ensures r == DecodeString(f, [], old(Unread())) && Keeps(old(dst), old(buf[..]))
      ensures r.StringOk? ==>
                && Unread() == r.rest && src < buf.Length && dst == old(dst) + |r.value| + 1
                && Overlaid(old(buf[..]), old(dst), r.value + [NUL], buf[..])
    {
      ghost var before, head := buf[..], dst;
      var out: Str := [];
      var done: Option<StringResult> := None;
      while done.None?
        invariant Valid()
        invariant done.None? ==>
                    && src < buf.Length && dst == head + |out| && Overlaid(before, head, out, buf[..])
                    && DecodeString(f, out, Unread()) == DecodeString(f, [], old(Unread()))
        invariant done.Some? ==> done.value == DecodeString(f, [], old(Unread())) && Keeps(head, before)
        invariant done.Some? && done.value.StringOk? ==>
                    && Unread() == done.value.rest && src < buf.Length && dst == head + |done.value.value| + 1
                    && Overlaid(before, head, done.value.value + [NUL], buf[..])
        decreases done.None?, buf.Length - src
      {
        done, out := Pass(f, before, head, out);
      }
      return done.value;
    }

    /**
     * The in-situ path of `ParseString`, from just after the opening quote. It returns what the
     * copying path returns; the decoded string and its terminator lie in what has been read, and
     * neither the text before the string nor the text still to be read is touched.
     */
    method ParseString(f: Flags) returns (r: StringResult, head: nat, length: nat)
      requires Valid() && src < buf.Length
      modifies `src, `dst, buf
      ensures Valid()
      ensures r == DecodeString(f, [], old(Unread()))
      ensures r.StringOk? ==> Unread() == r.rest
      ensures r.StringOk? ==> head == old(src) && length == |r.value| && head + length < dst <= src < buf.Length
      ensures r.StringOk? ==> buf[head..head + length] == r.value && buf[head + length] == NUL
      ensures Keeps(old(src), old(buf[..])) && (r.StringOk? ==> buf[src..] == old(buf[..])[src..])
    {
      head := PutBegin();
      r := ParseStringToStream(f);
      length := 0;
      if r.StringOk? {
        length := dst - head - 1;
        Terminated(old(buf[..]), head, r.value, buf[..], src);
      }
    }
  }

  // ---------------------------------------------------------------------------------------------
  // A whole text
  // ---------------------------------------------------------------------------------------------

  /** What a parser does to its stream: it takes a unit, or it parses a string after having taken its quote. */
  datatype Call = TakeUnit | TakeString

  /** The strings a stream has handed out, what it leaves unread, and whether a string or the end of the text stopped it. */
  datatype Handing = Handing(strings: seq<Str>, rest: Str, stopped: bool)

  /** What a copying stream hands out. */
  function Handed(f: Flags, calls: seq<Call>, s: Str): Handing
    decreases |calls|
  {
    if calls == [] then Handing([], s, false)
    else if calls[0].TakeUnit? then
      if Peek(s) == NUL then Handing([], s, true) else Handed(f, calls[1..], Tail(s))
    else
      match DecodeString(f, [], s)
      case StringErr(_, _) => Handing([], s, true)
      case StringOk(value, rest) =>
        var more := Handed(f, calls[1..], rest);
        more.(strings := [value] + more.strings)
  }

  /** A string handed out in place: its address and what it read as. */
  datatype Placed = Placed(head: nat, value: Str)

  function Values(placed: seq<Placed>): seq<Str> {
    seq(|placed|, k requires 0 <= k < |placed| => placed[k].value)
  }

  /** The string and its terminator lie at the address. */
  predicate LiesAt(image: Str, p: Placed) {
    p.head + |p.value| < |image| && image[p.head..p.head + |p.value|] == p.value && image[p.head + |p.value|] == NUL
  }

  predicate AllLie(image: Str, placed: seq<Placed>, end: nat) {
    forall k :: 0 <= k < |placed| ==> placed[k].head + |placed[k].value| < end && LiesAt(image, placed[k])
  }

  /** Strings that end before `end` lie where they lay if nothing before `end` has changed. */
  lemma StillLie(before: Str, after: Str, placed: seq<Placed>, end: nat)
    requires AllLie(before, placed, end) && end <= |before| == |after| && after[..end] == before[..end]
    ensures AllLie(after, placed, end)
  {
    forall k | 0 <= k < |placed| ensures LiesAt(after, placed[k]) {
      var p := placed[k];
      var last := p.head + |p.value|;
      assert LiesAt(before, p) && last < end;
      assert after[last] == after[..end][last] && before[last] == before[..end][last];
      SliceOfPrefix(before, end, p.head, last);
      SliceOfPrefix(after, end, p.head, last);
    }
  }

  lemma SliceOfPrefix(s: Str, end: nat, from: nat, to: nat)
    requires from <= to <= end <= |s|
    ensures s[..end][from..to] == s[from..to]
  {
  }

  lemma OneMoreLies(image: Str, placed: seq<Placed>, end: nat, p: Placed, newEnd: nat)
    requires AllLie(image, placed, end) && end <= newEnd && LiesAt(image, p) && p.head + |p.value| < newEnd
    ensures AllLie(image, placed + [p], newEnd) && Values(placed + [p]) == Values(placed) + [p.value]
  {
  }

  lemma EndMoves(image: Str, placed: seq<Placed>, end: nat, newEnd: nat)
    requires AllLie(image, placed, end) && end <= newEnd
    ensures AllLie(image, placed, newEnd)
  {
  }

  lemma HandedInSteps(f: Flags, calls: seq<Call>, k: nat, s: Str)
    requires k < |calls|
    ensures var more := Handed(f, calls[k..], s).strings;
            if calls[k].TakeUnit? then more == if Peek(s) == NUL then [] else Handed(f, calls[k + 1..], Tail(s)).strings
            else if DecodeString(f, [], s).StringErr? then more == []
            else more == [DecodeString(f, [], s).value] + Handed(f, calls[k + 1..], DecodeString(f, [], s).rest).strings
  {
    assert calls[k..][1..] == calls[k + 1..];
  }

  lemma NothingMore(f: Flags, calls: seq<Call>, s: Str, values: seq<Str>)
    ensures values + Handed(f, calls[|calls|..], s).strings == values && values + [] == values
    ensures calls[0..] == calls && Values([]) == [] && [] + Handed(f, calls, s).strings == Handed(f, calls, s).strings
  {
  }

  lemma NoneLie(image: Str, end: nat)
    ensures AllLie(image, [], end)
  {
  }

  /** One string in place, with those handed out before it. */
  method PerformString(stream: InsituStream, f: Flags, placed: seq<Placed>) returns (more: seq<Placed>, done: bool)
    requires stream.Valid() && stream.src < stream.buf.Length && AllLie(stream.buf[..], placed, stream.src)
    modifies stream`src, stream`dst, stream.buf
    ensures stream.Valid() && done == DecodeString(f, [], old(stream.Unread())).StringErr?
    ensures AllLie(stream.buf[..], more, if done then old(stream.src) else stream.src)
    ensures done ==> more == placed
    ensures !done ==> stream.src < stream.buf.Length && Values(more) == Values(placed) + [DecodeString(f, [], old(stream.Unread())).value]
    ensures !done ==> stream.Unread() == DecodeString(f, [], old(stream.Unread())).rest
  {
    hide DecodeString, AllLie, Values;
    ghost var before, from := stream.buf[..], stream.src;
    var r, head, length := stream.ParseString(f);
    StillLie(before, stream.buf[..], placed, from);
    more, done := placed, r.StringErr?;
    if !done {
      assert LiesAt(stream.buf[..], Placed(head, r.value));
      OneMoreLies(stream.buf[..], placed, from, Placed(head, r.value), stream.src);
      more := placed + [Placed(head, r.value)];
    }
  }

  /**
   * Any run of calls on the stream hands out the strings that copying would, and at its end every one of them
   * still lies at its address, unharmed by the strings decoded after it.
   */
  method Perform(stream: InsituStream, f: Flags, calls: seq<Call>) returns (placed: seq<Placed>)
    requires stream.Valid() && stream.src < stream.buf.Length
    modifies stream`src, stream`dst, stream.buf
    ensures stream.Valid()
    ensures Values(placed) == Handed(f, calls, old(stream.Unread())).strings
    ensures AllLie(stream.buf[..], placed, stream.buf.Length)
  {
    hide Handed, DecodeString, LiesAt, AllLie, Values;
    placed := [];
    var k, done := 0, false;
    NothingMore(f, calls, stream.Unread(), []);
    NoneLie(stream.buf[..], stream.src);
    ghost var end: nat := stream.src;
    ghost var handed := Handed(f, calls, stream.Unread()).strings;
    ghost var due := handed;
    while k < |calls| && !done
      invariant 0 <= k <= |calls| && stream.Valid() && (!done ==> stream.src < stream.buf.Length)
      invariant end <= stream.buf.Length && (!done ==> end == stream.src) && AllLie(stream.buf[..], placed, end)
      invariant handed == Values(placed) + due
      invariant due == if done then [] else Handed(f, calls[k..], stream.Unread()).strings
      decreases |calls| - k
    {
      ghost var s := stream.Unread();
      HandedInSteps(f, calls, k, s);
      if calls[k].TakeUnit? {
        var next := stream.PeekUnit();
        if next == NUL {
          done := true;
        } else {
          EndMoves(stream.buf[..], placed, end, end + 1);
          next := stream.Take();
          end := end + 1;
        }
      } else {
        ghost var before := Values(placed);
        placed, done := PerformString(stream, f, placed);
        if !done {
          end := stream.src;
          Regroup3(before, [due[0]], due[1..]);
        }
      }
      k := k + 1;
      due := if done then [] else Handed(f, calls[k..], stream.Unread()).strings;
    }
    NothingMore(f, calls, stream.Unread(), Values(placed));
    EndMoves(stream.buf[..], placed, end, stream.buf.Length);
  }

  lemma DecodeInSteps(f: Flags, out: Str, s: Str)
    ensures var step := StringStep(f, s);
            DecodeString(f, out, s) ==
              if step.Copied? then DecodeString(f, out + step.out, step.rest)
              else if step.Closed? then StringOk(out, step.rest)
              else StringErr(step.code, step.at)
  {
  }

  lemma KeepsHead(before: Str, head: nat, out: Str, after: Str)
    requires Overlaid(before, head, out, after)
    ensures |after| == |before| && head + |out| <= |after| && after[..head] == before[..head]
  {
  }

  lemma FirstUnit(before: Str, at: nat, c: Ch, after: Str)
    requires at < |before| && after == before[at := c]
    ensures Overlaid(before, at, [c], after)
  {
  }

  lemma TailStep(masks: seq<bv8>, ok: bool, last: Ch, out: Str, s: Str)
    requires masks != []
    ensures Utf8.ValidateTail(masks, ok, last, out, s) ==
              if last == NUL then Utf8.ValidateTail(masks[1..], ok && Utf8.InRange(last, masks[0]), last, out, s)
              else Utf8.ValidateTail(masks[1..], ok && Utf8.InRange(Peek(s), masks[0]), Peek(s), out + [Peek(s)], Tail(s))
    ensures !Utf8.InRange(NUL, masks[0])
  {
  }

  lemma LeadUnit(s: Str)
    ensures var c := Peek(s);
            Utf8.Validate(s) ==
              if c < 0x80 then Utf8.Validated(true, [c], Tail(s))
              else Utf8.ValidateTail(Utf8.TailMasks(c), Utf8.TailMasks(c) != [], c, [c], Tail(s))
  {
  }

  lemma TailEnds(ok: bool, last: Ch, out: Str, s: Str)
    ensures Utf8.ValidateTail([], ok, last, out, s) == Utf8.Validated(ok, out, s)
  {
  }

  lemma HexStep(n: nat, codepoint: nat, s: Str)
    requires 0 < n <= 4
    ensures var d := HexDigit(Peek(s));
            HexDigits(n, codepoint, s) == if d.None? then BadHex else HexDigits(n - 1, codepoint * 16 + d.value, Tail(s))
    ensures HexDigit(NUL) == None
  {
  }

  lemma HexEnds(codepoint: nat, s: Str)
    ensures HexDigits(0, codepoint, s) == Hex(codepoint, s)
  {
  }

  /** Writing a piece where the output had got to makes the output that piece longer. */
  lemma Extend(before: Str, head: nat, out: Str, image: Str, piece: Str, after: Str)
    requires Overlaid(before, head, out, image)
    requires Overlaid(image, head + |out|, piece, after)
    ensures Overlaid(before, head, out + piece, after)
  {
    var mid := head + |out|;
    var end := mid + |piece|;
    assert after[..head] == after[..mid][..head] == image[..mid][..head] == image[..head];
    assert after[head..end] == after[..mid][head..] + after[mid..end];
    assert image[..mid][head..] == image[head..mid];
    assert image[end..] == image[mid..][|piece|..];
    assert before[end..] == before[mid..][|piece|..];
  }

  lemma Terminated(before: Str, head: nat, out: Str, after: Str, read: nat)
    requires Overlaid(before, head, out + [NUL], after)
    requires head + |out| + 1 <= read <= |before|
    ensures after[head..head + |out|] == out && after[head + |out|] == NUL
    ensures after[read..] == before[read..]
  {
    var end := head + |out| + 1;
    assert after[head..end][..|out|] == out && after[head..end][|out|] == NUL;
    assert after[head..end][..|out|] == after[head..head + |out|];
    assert after[read..] == after[end..][read - end..];
    assert before[read..] == before[end..][read - end..];
  }
}
