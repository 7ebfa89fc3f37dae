/**
 * Decoding and writing JSON strings: ParseStringToStream and ParseHex4 of include/rapidjson/reader.h
 * against WriteString of include/rapidjson/writer.h.
 */
module StringCodec {
  import opened Text
  import opened ParseTypes
  import Utf8

  /** The reader's escape table; 0 marks a character that does not follow a backslash. */
  function Unescaped(e: Ch): Ch {
    if e == QUOTE || e == SLASH || e == BACKSLASH then e
    else if e == 0x62 then 0x08
    else if e == 0x66 then 0x0C
    else if e == 0x6E then LF
    else if e == 0x72 then CR
    else if e == 0x74 then TAB
    else NUL
  }

  function HexDigit(c: Ch): (d: Option<nat>)
    ensures d.Some? ==> d.value < 16
  {
    if IsDigit(c) then Some(c - ZERO)
    else if 0x41 <= c <= 0x46 then Some(c - 0x37)
    else if 0x61 <= c <= 0x66 then Some(c - 0x57)
    else None
  }

  datatype Hex = BadHex | Hex(codepoint: nat, rest: Str)

  /** The digits of \uXXXX still to be read once `codepoint` has been read. */
  function HexDigits(n: nat, codepoint: nat, s: Str): (h: Hex)
    requires n <= 4
    ensures h.Hex? ==> |h.rest| == |s| - n
  {
    if n == 0 then Hex(codepoint, s)
    else
      var d := HexDigit(Peek(s));
      if d.None? then BadHex else HexDigits(n - 1, codepoint * 16 + d.value, Tail(s))
  }

  /** `ParseHex4`. */
  function ParseHex4(s: Str): (h: Hex)
    ensures h.Hex? ==> |h.rest| == |s| - 4 && h.codepoint < 0x1_0000
  {
    HexBound(4, 0, s);
    HexDigits(4, 0, s)
  }

  lemma {:induction false} HexBound(n: nat, codepoint: nat, s: Str)
    requires n <= 4
    ensures HexDigits(n, codepoint, s).Hex? ==>
              HexDigits(n, codepoint, s).codepoint < (codepoint + 1) * [1, 16, 256, 4096, 65536][n]
  {
    if n > 0 && HexDigit(Peek(s)).Some? {
      HexBound(n - 1, codepoint * 16 + HexDigit(Peek(s)).value, Tail(s));
    }
  }

  datatype Codepoint =
    | BadCodepoint(code: ErrorCode)
    | Codepoint(value: nat, rest: Str)

  /** What \uXXXX stands for, from after its `u`; a high surrogate must be followed by a low one. */
  function ReadCodepoint(s: Str): (r: Codepoint)
    ensures r.Codepoint? ==> r.value <= 0x10FFFF && |s| - |r.rest| >= 4
    ensures r.Codepoint? && r.value > 0xFFFF ==> |s| - |r.rest| >= 10
    ensures r.Codepoint? ==> Utf8.IsScalar(r.value)
  {
    var high := ParseHex4(s);
    if high.BadHex? then BadCodepoint(StringUnicodeEscapeInvalidHex)
    else if !(0xD800 <= high.codepoint <= 0xDFFF) then Codepoint(high.codepoint, high.rest)
    else if high.codepoint > 0xDBFF then BadCodepoint(StringUnicodeSurrogateInvalid)
    else ReadLow(high.codepoint, high.rest)
  }

  /** What is left of a surrogate pair once its high half has been read. */
  function ReadLow(high: nat, s: Str): (r: Codepoint)
    requires 0xD800 <= high <= 0xDBFF
    ensures r.Codepoint? ==> 0x10000 <= r.value <= 0x10FFFF && |s| - |r.rest| == 6
  {
    if Peek(s) != BACKSLASH || Peek(s[1..]) != LETTER_U then BadCodepoint(StringUnicodeSurrogateInvalid)
    else
      var low := ParseHex4(s[2..]);
      if low.BadHex? then BadCodepoint(StringUnicodeEscapeInvalidHex)
      else if low.codepoint < 0xDC00 || low.codepoint > 0xDFFF then BadCodepoint(StringUnicodeSurrogateInvalid)
      else Codepoint((high - 0xD800) * 0x400 + (low.codepoint - 0xDC00) + 0x10000, low.rest)
  }

  /** What one pass round the loop of `ParseStringToStream` does. */
  datatype Step =
    | Copied(out: Str, rest: Str)
    | Closed(rest: Str)
    | Failed(code: ErrorCode, at: nat)

  /** The escape that starts at `s`, whose first unit is a backslash. */
  function EscapeStep(f: Flags, s: Str): (r: Step)
    requires Peek(s) == BACKSLASH
    ensures r.Copied? ==> |r.out| <= |s| - |r.rest| && |r.rest| < |s|
    ensures r.Failed? ==> r.at <= |s|
    ensures !r.Closed?
  {
    var e := Peek(s[1..]);
    if Unescaped(e) != NUL then Copied([Unescaped(e)], s[2..])
    else if f.escapedApostrophe && e == APOSTROPHE then Copied([APOSTROPHE], s[2..])
    else if e == LETTER_U then
      match ReadCodepoint(s[2..])
      case BadCodepoint(code) => Failed(code, |s|)
      case Codepoint(value, rest) => Copied(Utf8.Encode(value), rest)
    else Failed(StringEscapeInvalid, |s|)
  }

  /** One pass round the loop. With equal encodings and no validation, one unit is copied blindly. */
  function StringStep(f: Flags, s: Str): (r: Step)
    ensures r.Copied? ==> |r.out| <= |s| - |r.rest| && |r.rest| < |s|
    ensures r.Closed? ==> s != [] && r.rest == s[1..]
    ensures r.Failed? ==> r.at <= |s|
  {
    var c := Peek(s);
    if c == BACKSLASH then EscapeStep(f, s)
    else if c == QUOTE then Closed(s[1..])
    else if c == NUL then Failed(StringMissQuotationMark, |s|)
    else if c < 0x20 then Failed(StringInvalidEncoding, |s|)
    else if f.validateEncoding then
      Utf8.ValidateIsDecode(s);
      var v := Utf8.Validate(s);
      if v.ok then
        assert |v.out| + |v.rest| == |v.out + v.rest|;
        Copied(v.out, v.rest)
      else Failed(StringInvalidEncoding, |s|)
    else Copied([c], s[1..])
  }

  datatype StringResult =
    | StringOk(value: Str, rest: Str)
    | StringErr(code: ErrorCode, at: nat)

  /** `ParseStringToStream`, from just after the opening quote, into a stream that already holds `out`. */
  function DecodeString(f: Flags, out: Str, s: Str): (r: StringResult)
    ensures r.StringOk? ==> |r.rest| < |s|
    ensures r.StringErr? ==> r.at <= |s|
    decreases |s|
  {
    match StringStep(f, s)
    case Copied(bytes, rest) => DecodeString(f, out + bytes, rest)
    case Closed(rest) => StringOk(out, rest)
    case Failed(code, at) => StringErr(code, at)
  }

  // ---------------------------------------------------------------------------------------------
  // WriteString
  // ---------------------------------------------------------------------------------------------

  /** The writer's escape table: the letter after the backslash, 0 for a character written as it is. */
  function EscapeLetter(c: Ch): Ch {
    if c == QUOTE || c == BACKSLASH then c
    else if c == 0x08 then 0x62
    else if c == TAB then 0x74
    else if c == LF then 0x6E
    else if c == 0x0C then 0x66
    else if c == CR then 0x72
    else if c < 0x20 then LETTER_U
    else NUL
  }

  function HexChar(d: nat): Ch
    requires d < 16
  {
    if d < 10 then ZERO + d else 0x37 + d
  }

  function EscapeUnit(c: Ch): (out: Str)
    ensures out != []
  {
    var letter := EscapeLetter(c);
    if letter == NUL then [c]
    else if letter == LETTER_U then [BACKSLASH, LETTER_U, ZERO, ZERO, HexChar(c / 16), HexChar(c % 16)]
    else [BACKSLASH, letter]
  }

  function EscapeAll(value: Str): Str {
    if value == [] then [] else EscapeUnit(value[0]) + EscapeAll(value[1..])
  }

  /** `WriteString` with the default write flags, which copy a unit that needs no escape. */
  function WriteString(value: Str): Str {
    [QUOTE] + EscapeAll(value) + [QUOTE]
  }

  /** The four digits the writer gives a control character are read back as that character. */
  lemma ControlIsRead(c: Ch, post: Str)
    requires c < 0x20
    ensures ParseHex4([ZERO, ZERO, HexChar(c / 16), HexChar(c % 16)] + post) == Hex(c, post)
  {
    var s3 := [HexChar(c % 16)] + post;
    var s2 := [HexChar(c / 16)] + s3;
    var s1 := [ZERO] + s2;
    var s0 := [ZERO] + s1;
    assert [ZERO, ZERO, HexChar(c / 16), HexChar(c % 16)] + post == s0;
    assert s0[1..] == s1 && s1[1..] == s2 && s2[1..] == s3 && s3[1..] == post;
    assert HexDigits(1, c / 16, s3) == Hex(c, post);
    assert HexDigits(2, 0, s2) == Hex(c, post);
    assert HexDigits(3, 0, s1) == Hex(c, post);
  }

  lemma EscapedUnitIsRead(f: Flags, c: Ch, post: Str)
    requires EscapeLetter(c) != NUL
    ensures StringStep(f, EscapeUnit(c) + post) == Copied([c], post)
  {
    var e := EscapeUnit(c);
    var s := e + post;
    assert s[0] == e[0] && s[1..][0] == e[1];
    assert s[2..] == e[2..] + post;
    if EscapeLetter(c) == LETTER_U {
      ControlIsRead(c, post);
      assert e[2..] == [ZERO, ZERO, HexChar(c / 16), HexChar(c % 16)];
    } else {
      assert s[2..] == post;
    }
  }

  lemma PlainUnitIsRead(f: Flags, c: Ch, post: Str)
    requires EscapeLetter(c) == NUL
    requires f.validateEncoding ==> c < 0x80
    ensures StringStep(f, [c] + post) == Copied([c], post)
  {
    var s := [c] + post;
    assert s[0] == c && s[1..] == post;
  }

  /** In the bytes of a code point past ASCII nothing is escaped, so `Validate` reads them back as one. */
  lemma EncodedIsRead(f: Flags, cp: nat, post: Str)
    requires f.validateEncoding && Utf8.IsScalar(cp) && cp > 0x7F
    ensures StringStep(f, Utf8.Encode(cp) + post) == Copied(Utf8.Encode(cp), post)
  {
    var s := Utf8.Encode(cp) + post;
    assert s[0] == Utf8.Encode(cp)[0] && s[0] >= 0xC0;
    Utf8.DecodeEncode(cp, post);
    Utf8.ValidateIsDecode(s);
  }

  /** Nothing in the bytes is escaped. */
  predicate IsPlain(bytes: Str) {
    bytes == [] || (EscapeLetter(bytes[0]) == NUL && IsPlain(bytes[1..]))
  }

  lemma {:induction false} EscapeAllKeeps(bytes: Str, value: Str)
    requires IsPlain(bytes)
    ensures EscapeAll(bytes + value) == bytes + EscapeAll(value)
  {
    hide EscapeAll, EscapeLetter;
    if bytes == [] {
      assert bytes + value == value && bytes + EscapeAll(value) == EscapeAll(value);
    } else {
      var c, more := bytes[0], bytes[1..];
      assert bytes == [c] + more;
      EscapeAllKeeps(more, value);
      EscapeAllStep(c, more + value);
      Regroup3([c], more, value);
      Regroup3([c], more, EscapeAll(value));
    }
  }

  lemma EscapeAllStep(c: Ch, value: Str)
    requires EscapeLetter(c) == NUL
    ensures EscapeAll([c] + value) == [c] + EscapeAll(value)
  {
    assert ([c] + value)[1..] == value;
  }

  lemma UnitIsRead(f: Flags, value: Str, tail: Str)
    requires value != []
    requires f.validateEncoding ==> value[0] < 0x80
    ensures StringStep(f, EscapeAll(value) + tail) == Copied([value[0]], EscapeAll(value[1..]) + tail)
  {
    var more := EscapeAll(value[1..]) + tail;
    assert EscapeAll(value) + tail == EscapeUnit(value[0]) + more;
    if EscapeLetter(value[0]) == NUL {
      PlainUnitIsRead(f, value[0], more);
    } else {
      EscapedUnitIsRead(f, value[0], more);
    }
  }

  lemma HighBytesAreKept(bytes: Str, value: Str)
    requires forall k :: 0 <= k < |bytes| ==> bytes[k] >= 0x80
    ensures EscapeAll(bytes + value) == bytes + EscapeAll(value)
  {
    hide EscapeAll;
    HighIsPlain(bytes);
    EscapeAllKeeps(bytes, value);
  }

  lemma {:induction false} HighIsPlain(bytes: Str)
    requires forall k :: 0 <= k < |bytes| ==> bytes[k] >= 0x80
    ensures IsPlain(bytes)
  {
    if bytes != [] {
      HighIsPlain(bytes[1..]);
    }
  }

  lemma CodePointIsRead(f: Flags, cp: nat, rest: Str, tail: Str)
    requires f.validateEncoding && Utf8.IsScalar(cp) && cp > 0x7F
    ensures StringStep(f, EscapeAll(Utf8.Encode(cp) + rest) + tail) == Copied(Utf8.Encode(cp), EscapeAll(rest) + tail)
  {
    hide StringStep, EscapeAll, Utf8.Encode;
    var head := Utf8.Encode(cp);
    Utf8.EncodedBytesAreHigh(cp);
    HighBytesAreKept(head, rest);
    assert EscapeAll(head + rest) + tail == head + (EscapeAll(rest) + tail);
    EncodedIsRead(f, cp, EscapeAll(rest) + tail);
  }

  /** A string the reader can return: any bytes, or UTF-8 when it validates. */
  predicate IsReadableString(f: Flags, s: Str) {
    f.validateEncoding ==> Utf8.IsUtf8(s)
  }

  /** One pass of the reader takes back one piece of what was written. */
  lemma NextPieceIsRead(f: Flags, value: Str, tail: Str) returns (head: Str, rest: Str)
    requires value != [] && IsReadableString(f, value)
    ensures value == head + rest && head != [] && IsReadableString(f, rest)
    ensures StringStep(f, EscapeAll(value) + tail) == Copied(head, EscapeAll(rest) + tail)
  {
    hide StringStep, EscapeAll, EscapeUnit;
    if f.validateEncoding && value[0] >= 0x80 {
      var d := Utf8.Decode(value);
      Utf8.DecodeOnlyShortest(value);
      head, rest := Utf8.Encode(d.cp), d.rest;
      assert value[0] == head[0];
      Utf8.EncodedBytesAreHigh(d.cp);
      CodePointIsRead(f, d.cp, rest, tail);
    } else {
      UnitIsRead(f, value, tail);
      head, rest := [value[0]], value[1..];
    }
  }

  /**
   * Reading undoes writing: the reader returns the very bytes that were written and stops at the
   * closing quote. When it validates encodings, the bytes must be UTF-8.
   */
  lemma {:induction false} DecodeUndoesWrite(f: Flags, out: Str, value: Str, post: Str)
    requires IsReadableString(f, value)
    ensures DecodeString(f, out, EscapeAll(value) + ([QUOTE] + post)) == StringOk(out + value, post)
    decreases |value|
  {
    hide ReadCodepoint, EscapeUnit, Utf8.Validate;
    var tail := [QUOTE] + post;
    if value == [] {
      assert EscapeAll(value) + tail == tail;
      assert tail[1..] == post && out + value == out;
    } else {
      hide StringStep;
      var head, rest := NextPieceIsRead(f, value, tail);
      DecodeUndoesWrite(f, out + head, rest, post);
      assert out + head + rest == out + value;
    }
  }

  /**
   * The reverse reading of the validation flag: what a validating reader accepts is UTF-8, whatever
   * mixture of plain bytes and escapes spelled it.
   */
  lemma {:induction false} ValidatedIsUtf8(f: Flags, out: Str, s: Str)
    requires f.validateEncoding && Utf8.IsUtf8(out)
    ensures DecodeString(f, out, s).StringOk? ==> Utf8.IsUtf8(DecodeString(f, out, s).value)
    decreases |s|
  {
    match StringStep(f, s)
    case Copied(bytes, rest) =>
      CopiedIsOneScalar(f, s);
      Utf8.AppendScalar(out, bytes);
      ValidatedIsUtf8(f, out + bytes, rest);
    case Closed(_) =>
    case Failed(_, _) =>
  }

  lemma CopiedIsOneScalar(f: Flags, s: Str)
    requires f.validateEncoding && StringStep(f, s).Copied?
    ensures exists cp: nat :: Utf8.IsScalar(cp) && StringStep(f, s).out == Utf8.Encode(cp)
  {
    var c := Peek(s);
    if c == BACKSLASH {
      var e := Peek(s[1..]);
      if Unescaped(e) != NUL {
        assert StringStep(f, s).out == Utf8.Encode(Unescaped(e));
      } else if f.escapedApostrophe && e == APOSTROPHE {
        assert StringStep(f, s).out == Utf8.Encode(APOSTROPHE);
      }
    } else {
      Utf8.ValidateIsDecode(s);
      assert StringStep(f, s).out == Utf8.Encode(Utf8.Decode(s).cp);
    }
  }

  lemma ReadStringIsReadable(f: Flags, s: Str)
    ensures DecodeString(f, [], s).StringOk? ==> IsReadableString(f, DecodeString(f, [], s).value)
  {
    if f.validateEncoding {
      assert Utf8.IsUtf8([]);
      ValidatedIsUtf8(f, [], s);
    }
  }
}
