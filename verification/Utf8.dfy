/** The UTF-8 encoding of include/rapidjson/encodings.h, and its bijection with code points. */
module Utf8 {
  import opened Text

  /** A Unicode scalar value: any code point that is not a surrogate. */
  predicate IsScalar(cp: nat) {
    cp <= 0x10FFFF && !(0xD800 <= cp <= 0xDFFF)
  }

  /**
   * `Encode`. The operands of every bit-or in the source have disjoint bits, so each byte is
   * written here as a sum of its marker and a slice of the code point.
   */
  function Encode(cp: nat): (bytes: Str)
    requires cp <= 0x10FFFF
    ensures 1 <= |bytes| <= 4
    ensures |bytes| == 1 <==> cp <= 0x7F
    ensures |bytes| <= 2 <==> cp <= 0x7FF
    ensures |bytes| <= 3 <==> cp <= 0xFFFF
  {
    if cp <= 0x7F then
      [cp]
    else if cp <= 0x7FF then
      [0xC0 + cp / 0x40, 0x80 + cp % 0x40]
    else if cp <= 0xFFFF then
      [0xE0 + cp / 0x1000, 0x80 + cp / 0x40 % 0x40, 0x80 + cp % 0x40]
    else
      [0xF0 + cp / 0x40000, 0x80 + cp / 0x1000 % 0x40, 0x80 + cp / 0x40 % 0x40, 0x80 + cp % 0x40]
  }

  /** Past ASCII, no byte of an encoding is an ASCII byte. */
  lemma EncodedBytesAreHigh(cp: nat)
    requires cp <= 0x10FFFF
    ensures Encode(cp)[0] >= 0x80 <==> cp > 0x7F
    ensures cp > 0x7F ==> forall k :: 0 <= k < |Encode(cp)| ==> Encode(cp)[k] >= 0x80
  {
  }

  /** The 256-entry `type` table of `GetRange`, row by row. */
  function GetRange(c: Ch): bv8 {
    if c < 0x80 then 0
    else if c < 0x90 then 0x10
    else if c < 0xA0 then 0x40
    else if c < 0xC0 then 0x20
    else if c < 0xC2 then 8
    else if c < 0xE0 then 2
    else if c == 0xE0 then 10
    else if c < 0xED then 3
    else if c == 0xED then 4
    else if c < 0xF0 then 3
    else if c == 0xF0 then 11
    else if c < 0xF4 then 6
    else if c == 0xF4 then 5
    else 8
  }

  /** `RAPIDJSON_TRANS(mask)`: the byte belongs to one of the continuation ranges in the mask. */
  predicate InRange(c: Ch, mask: bv8) {
    GetRange(c) & mask != 0
  }

  /** The masks the bytes after a lead byte are tested with; none for a byte that cannot lead. */
  function TailMasks(lead: Ch): seq<bv8> {
    var kind := GetRange(lead);
    if kind == 2 then [0x70]
    else if kind == 3 then [0x70, 0x70]
    else if kind == 4 then [0x50, 0x70]
    else if kind == 5 then [0x10, 0x70, 0x70]
    else if kind == 6 then [0x70, 0x70, 0x70]
    else if kind == 10 then [0x20, 0x70]
    else if kind == 11 then [0x60, 0x70, 0x70]
    else []
  }

  /** `(0xFF >> type) & c`, which is 0 for the types the shift pushes out of the byte. */
  function LeadBits(lead: Ch): nat {
    var kind := GetRange(lead);
    if kind == 2 then lead % 0x40
    else if kind == 3 then lead % 0x20
    else if kind == 4 then lead % 0x10
    else if kind == 5 then lead % 0x08
    else if kind == 6 then lead % 0x04
    else 0
  }

  datatype Decoded = Decoded(ok: bool, cp: nat, rest: Str)

  /** The run of `RAPIDJSON_COPY(); RAPIDJSON_TRANS(mask)` pairs of `Decode`; it never stops early. */
  function DecodeTail(masks: seq<bv8>, ok: bool, cp: nat, s: Str): Decoded
    decreases |masks|
  {
    if masks == [] then Decoded(ok, cp, s)
    else
      var c := Peek(s);
      DecodeTail(masks[1..], ok && InRange(c, masks[0]), cp * 0x40 + c % 0x40, Tail(s))
  }

  /** `Decode`: takes one code point from the stream and says whether it was well formed. */
  function Decode(s: Str): Decoded {
    var lead := Peek(s);
    if lead < 0x80 then Decoded(true, lead, Tail(s))
    else if TailMasks(lead) == [] then Decoded(false, LeadBits(lead), Tail(s))
    else DecodeTail(TailMasks(lead), true, LeadBits(lead), Tail(s))
  }

  datatype Validated = Validated(ok: bool, out: Str, rest: Str)

  /** As `DecodeTail` for `Validate`, which copies each byte and takes none after a NUL. */
  function ValidateTail(masks: seq<bv8>, ok: bool, last: Ch, out: Str, s: Str): Validated
    decreases |masks|
  {
    if masks == [] then Validated(ok, out, s)
    else if last == NUL then ValidateTail(masks[1..], ok && InRange(last, masks[0]), last, out, s)
    else
      var c := Peek(s);
      ValidateTail(masks[1..], ok && InRange(c, masks[0]), c, out + [c], Tail(s))
  }

  /** `Validate`: copies one code point's bytes verbatim and says whether they were well formed. */
  function Validate(s: Str): Validated {
    var lead := Peek(s);
    if lead < 0x80 then Validated(true, [lead], Tail(s))
    else if TailMasks(lead) == [] then Validated(false, [lead], Tail(s))
    else ValidateTail(TailMasks(lead), true, lead, [lead], Tail(s))
  }

  // ---------------------------------------------------------------------------------------------
  // The reference: the UTF8-char syntax of RFC 3629 section 4
  // ---------------------------------------------------------------------------------------------

  predicate IsTail(c: Ch) {
    0x80 <= c <= 0xBF
  }

  /** The second byte the grammar allows after a lead byte of a sequence of two or more bytes. */
  predicate IsSecond(lead: Ch, c: Ch) {
    IsTail(c)
    && (lead == 0xE0 ==> 0xA0 <= c)
    && (lead == 0xED ==> c <= 0x9F)
    && (lead == 0xF0 ==> 0x90 <= c)
    && (lead == 0xF4 ==> c <= 0x8F)
  }

  /** How many bytes the UTF8-char at the start of `s` takes, 0 when there is none. */
  function CharLength(s: Str): (n: nat)
    ensures n <= |s|
  {
    if s == [] then 0
    else if s[0] <= 0x7F then 1
    else if 0xC2 <= s[0] <= 0xDF then
      if |s| >= 2 && IsSecond(s[0], s[1]) then 2 else 0
    else if 0xE0 <= s[0] <= 0xEF then
      if |s| >= 3 && IsSecond(s[0], s[1]) && IsTail(s[2]) then 3 else 0
    else if 0xF0 <= s[0] <= 0xF4 then
      if |s| >= 4 && IsSecond(s[0], s[1]) && IsTail(s[2]) && IsTail(s[3]) then 4 else 0
    else 0
  }

  function Join2(a: int, b: int): int {
    (a - 0xC0) * 0x40 + (b - 0x80)
  }

  function Join3(a: int, b: int, c: int): int {
    (a - 0xE0) * 0x1000 + (b - 0x80) * 0x40 + (c - 0x80)
  }

  function Join4(a: int, b: int, c: int, d: int): int {
    (a - 0xF0) * 0x40000 + (b - 0x80) * 0x1000 + (c - 0x80) * 0x40 + (d - 0x80)
  }

  /** The code point the grammar assigns to that UTF8-char. */
  function CharValue(s: Str): nat
    requires CharLength(s) > 0
  {
    var n := CharLength(s);
    if n == 1 then s[0]
    else if n == 2 then Join2(s[0], s[1])
    else if n == 3 then Join3(s[0], s[1], s[2])
    else Join4(s[0], s[1], s[2], s[3])
  }

  lemma MasksAreRanges(c: Ch)
    ensures InRange(c, 0x70) <==> IsTail(c)
    ensures InRange(c, 0x50) <==> 0x80 <= c <= 0x9F
    ensures InRange(c, 0x10) <==> 0x80 <= c <= 0x8F
    ensures InRange(c, 0x20) <==> 0xA0 <= c <= 0xBF
    ensures InRange(c, 0x60) <==> 0x90 <= c <= 0xBF
  {
  }

  /** Which lead bytes take how many more, and what the first mask then lets through. */
  lemma LeadBytes(lead: Ch, c: Ch)
    requires lead >= 0x80
    ensures |TailMasks(lead)| ==
            if 0xC2 <= lead <= 0xDF then 1 else if 0xE0 <= lead <= 0xEF then 2 else if 0xF0 <= lead <= 0xF4 then 3 else 0
    ensures TailMasks(lead) != [] ==> TailMasks(lead)[0] in {0x70, 0x50, 0x10, 0x20, 0x60}
    ensures TailMasks(lead) != [] ==> (InRange(c, TailMasks(lead)[0]) <==> IsSecond(lead, c))
    ensures forall k :: 1 <= k < |TailMasks(lead)| ==> TailMasks(lead)[k] == 0x70
    ensures LeadBits(lead) ==
            if 0xC2 <= lead <= 0xDF then lead - 0xC0 else if 0xE0 <= lead <= 0xEF then lead - 0xE0
            else if 0xF0 <= lead <= 0xF4 then lead - 0xF0 else 0
  {
    MasksAreRanges(c);
  }

  // ---------------------------------------------------------------------------------------------
  // Decode and Validate follow the grammar
  // ---------------------------------------------------------------------------------------------

  lemma {:induction false} DecodeTailFails(masks: seq<bv8>, cp: nat, s: Str)
    ensures !DecodeTail(masks, false, cp, s).ok
    decreases |masks|
  {
    if masks != [] {
      DecodeTailFails(masks[1..], cp * 0x40 + Peek(s) % 0x40, Tail(s));
    }
  }

  /** How a run of mask tests ends: one byte taken and tested per mask. */
  lemma DecodeTailStep(masks: seq<bv8>, cp: nat, s: Str)
    requires masks != []
    requires masks[0] in {0x70, 0x50, 0x10, 0x20, 0x60}
    ensures s != [] && InRange(s[0], masks[0])
         ==> DecodeTail(masks, true, cp, s) == DecodeTail(masks[1..], true, cp * 0x40 + (s[0] - 0x80) % 0x40, s[1..])
    ensures s == [] || !InRange(s[0], masks[0]) ==> !DecodeTail(masks, true, cp, s).ok
  {
    var c := Peek(s);
    MasksAreRanges(c);
    if !InRange(c, masks[0]) {
      DecodeTailFails(masks[1..], cp * 0x40 + c % 0x40, Tail(s));
    }
  }

  /** Up to two bytes after the second: each must be a plain continuation byte. */
  lemma DecodeLastTails(masks: seq<bv8>, cp: nat, s: Str)
    requires |masks| <= 2 && forall k :: 0 <= k < |masks| ==> masks[k] == 0x70
    ensures var d := DecodeTail(masks, true, cp, s);
            && (d.ok <==> |s| >= |masks| && (|masks| >= 1 ==> IsTail(s[0])) && (|masks| == 2 ==> IsTail(s[1])))
            && (d.ok ==> d.rest == s[|masks|..])
            && (d.ok && |masks| == 1 ==> d.cp == cp * 0x40 + (s[0] - 0x80))
            && (d.ok && |masks| == 2 ==> d.cp == (cp * 0x40 + (s[0] - 0x80)) * 0x40 + (s[1] - 0x80))
            && (masks == [] ==> d.cp == cp)
  {
    if masks != [] {
      DecodeTailStep(masks, cp, s);
      MasksAreRanges(Peek(s));
      if s != [] && IsTail(s[0]) {
        var s1 := s[1..];
        if |masks| == 2 {
          DecodeTailStep(masks[1..], cp * 0x40 + (s[0] - 0x80), s1);
          MasksAreRanges(Peek(s1));
          assert s1 != [] ==> s1[0] == s[1] && s1[1..] == s[2..];
        }
      }
    }
  }

  lemma DecodeAfterSecond(masks: seq<bv8>, cp: nat, s: Str)
    requires |s| >= 2 && |masks| <= 2 && forall k :: 0 <= k < |masks| ==> masks[k] == 0x70
    ensures s[1..][1..] == s[2..]
    ensures var d := DecodeTail(masks, true, cp, s[2..]);
            && (d.ok <==> |s| >= 2 + |masks| && (|masks| >= 1 ==> IsTail(s[2])) && (|masks| == 2 ==> IsTail(s[3])))
            && (d.ok ==> d.rest == s[2 + |masks|..])
            && (d.ok && |masks| == 0 ==> d.cp == cp)
            && (d.ok && |masks| == 1 ==> d.cp == cp * 0x40 + (s[2] - 0x80))
            && (d.ok && |masks| == 2 ==> d.cp == (cp * 0x40 + (s[2] - 0x80)) * 0x40 + (s[3] - 0x80))
  {
    DecodeLastTails(masks, cp, s[2..]);
  }

  /** A lead byte and what `Decode` does with the bytes after it. */
  lemma DecodeAfterLead(s: Str)
    requires s != [] && 0xC2 <= s[0] <= 0xF4
    ensures var n := if s[0] <= 0xDF then 2 else if s[0] <= 0xEF then 3 else 4;
            var d := Decode(s);
            && (d.ok <==> |s| >= n && IsSecond(s[0], s[1]) && (n >= 3 ==> IsTail(s[2])) && (n == 4 ==> IsTail(s[3])))
            && (d.ok ==> d.rest == s[n..])
            && (d.ok && n == 2 ==> d.cp == Join2(s[0], s[1]))
            && (d.ok && n == 3 ==> d.cp == Join3(s[0], s[1], s[2]))
            && (d.ok && n == 4 ==> d.cp == Join4(s[0], s[1], s[2], s[3]))
  {
    hide TailMasks, LeadBits, GetRange, InRange, DecodeTail;
    var lead, s1 := s[0], s[1..];
    var m := TailMasks(lead);
    LeadBytes(lead, Peek(s1));
    DecodeTailStep(m, LeadBits(lead), s1);
    if s1 != [] && IsSecond(lead, s1[0]) {
      DecodeAfterSecond(m[1..], LeadBits(lead) * 0x40 + (s[1] - 0x80), s);
    }
  }

  /** `Decode` accepts exactly the UTF8-chars of RFC 3629 section 4, and reads their value. */
  lemma DecodeFollowsGrammar(s: Str)
    ensures s != [] ==> (Decode(s).ok <==> CharLength(s) > 0)
    ensures s != [] && Decode(s).ok ==> Decode(s).cp == CharValue(s) && Decode(s).rest == s[CharLength(s)..]
  {
    if s != [] && s[0] >= 0x80 {
      if 0xC2 <= s[0] <= 0xF4 {
        DecodeAfterLead(s);
      } else {
        LeadBytes(s[0], 0);
      }
    }
  }

  // ---------------------------------------------------------------------------------------------
  // Encode and the grammar
  // ---------------------------------------------------------------------------------------------

  lemma SplitJoin2(cp: nat)
    requires 0x80 <= cp <= 0x7FF
    ensures Join2(0xC0 + cp / 0x40, 0x80 + cp % 0x40) == cp && 2 <= cp / 0x40 <= 0x1F
  {
  }

  lemma SplitJoin3(cp: nat)
    requires 0x800 <= cp <= 0xFFFF
    ensures Join3(0xE0 + cp / 0x1000, 0x80 + cp / 0x40 % 0x40, 0x80 + cp % 0x40) == cp
    ensures 0 <= cp / 0x1000 <= 0xF
    ensures cp / 0x1000 == 0 ==> cp / 0x40 % 0x40 >= 0x20
    ensures cp / 0x1000 == 0xD && cp < 0xD800 ==> cp / 0x40 % 0x40 <= 0x1F
    ensures cp / 0x1000 == 0xD ==> cp < 0xE000
  {
    var a := cp / 0x40;
    assert cp / 0x1000 == a / 0x40;
  }

  lemma SplitJoin4(cp: nat)
    requires 0x10000 <= cp <= 0x10FFFF
    ensures Join4(0xF0 + cp / 0x40000, 0x80 + cp / 0x1000 % 0x40, 0x80 + cp / 0x40 % 0x40, 0x80 + cp % 0x40) == cp
    ensures 0 <= cp / 0x40000 <= 4
    ensures cp / 0x40000 == 0 ==> cp / 0x1000 % 0x40 >= 0x10
    ensures cp / 0x40000 == 4 ==> cp / 0x1000 % 0x40 <= 0x0F
  {
    var a := cp / 0x40;
    var b := a / 0x40;
    assert cp / 0x1000 == b && cp / 0x40000 == b / 0x40;
  }

  lemma EncodeFollowsGrammar(cp: nat, rest: Str)
    requires IsScalar(cp)
    ensures CharLength(Encode(cp) + rest) == |Encode(cp)|
    ensures CharValue(Encode(cp) + rest) == cp
  {
    var e := Encode(cp);
    var s := e + rest;
    assert forall k :: 0 <= k < |e| ==> s[k] == e[k];
    if cp > 0xFFFF {
      SplitJoin4(cp);
    } else if cp > 0x7FF {
      SplitJoin3(cp);
    } else if cp > 0x7F {
      SplitJoin2(cp);
    }
  }

  lemma JoinSplit4(a: int, b: int, c: int, d: int)
    requires 0xF0 <= a <= 0xF4 && 0x80 <= b <= 0xBF && 0x80 <= c <= 0xBF && 0x80 <= d <= 0xBF
    ensures var cp := Join4(a, b, c, d);
            && 0xF0 + cp / 0x40000 == a && 0x80 + cp / 0x1000 % 0x40 == b
            && 0x80 + cp / 0x40 % 0x40 == c && 0x80 + cp % 0x40 == d
  {
    var cp := Join4(a, b, c, d);
    var q1 := (a - 0xF0) * 0x1000 + (b - 0x80) * 0x40 + (c - 0x80);
    assert cp / 0x40 == q1;
    var q2 := (a - 0xF0) * 0x40 + (b - 0x80);
    assert q1 / 0x40 == q2;
    assert cp / 0x1000 == q2 && cp / 0x40000 == q2 / 0x40;
  }

  lemma JoinSplit3(a: int, b: int, c: int)
    requires 0xE0 <= a <= 0xEF && 0x80 <= b <= 0xBF && 0x80 <= c <= 0xBF
    ensures var cp := Join3(a, b, c);
            0xE0 + cp / 0x1000 == a && 0x80 + cp / 0x40 % 0x40 == b && 0x80 + cp % 0x40 == c
  {
    var cp := Join3(a, b, c);
    var q1 := (a - 0xE0) * 0x40 + (b - 0x80);
    assert cp / 0x40 == q1;
    assert cp / 0x1000 == q1 / 0x40;
  }

  lemma Grammar4(s: Str)
    requires CharLength(s) == 4
    ensures IsScalar(CharValue(s)) && s[..4] == Encode(CharValue(s))
  {
    JoinSplit4(s[0], s[1], s[2], s[3]);
    assert s[..4] == [s[0], s[1], s[2], s[3]];
    Join4Bounds(s[0], s[1], s[2], s[3]);
    hide Join4;
  }

  lemma Join3Bounds(a: Ch, b: Ch, c: Ch)
    requires 0xE0 <= a <= 0xEF && IsSecond(a, b) && IsTail(c)
    ensures 0x800 <= Join3(a, b, c) <= 0xFFFF && IsScalar(Join3(a, b, c))
  {
  }

  lemma Join4Bounds(a: Ch, b: Ch, c: Ch, d: Ch)
    requires 0xF0 <= a <= 0xF4 && IsSecond(a, b) && IsTail(c) && IsTail(d)
    ensures 0x10000 <= Join4(a, b, c, d) <= 0x10FFFF
  {
  }

  lemma Grammar3(s: Str)
    requires CharLength(s) == 3
    ensures IsScalar(CharValue(s)) && s[..3] == Encode(CharValue(s))
  {
    JoinSplit3(s[0], s[1], s[2]);
    assert s[..3] == [s[0], s[1], s[2]];
    Join3Bounds(s[0], s[1], s[2]);
    hide Join3;
  }

  lemma GrammarFollowsEncode(s: Str)
    requires CharLength(s) > 0
    ensures IsScalar(CharValue(s))
    ensures s[..CharLength(s)] == Encode(CharValue(s))
  {
    var n := CharLength(s);
    if n == 4 {
      Grammar4(s);
    } else if n == 3 {
      Grammar3(s);
    } else if n == 2 {
      assert s[..2] == [s[0], s[1]];
    }
  }

  /** Decoding undoes encoding, whatever follows (RFC 3629 section 3). */
  lemma DecodeEncode(cp: nat, rest: Str)
    requires IsScalar(cp)
    ensures Decode(Encode(cp) + rest) == Decoded(true, cp, rest)
  {
    EncodeFollowsGrammar(cp, rest);
    DecodeFollowsGrammar(Encode(cp) + rest);
    assert (Encode(cp) + rest)[|Encode(cp)|..] == rest;
  }

  /**
   * What `Decode` accepts is the encoding of a scalar value, so never an overlong form, a surrogate
   * or a value past U+10FFFF (RFC 3629 section 4).
   */
  lemma DecodeOnlyShortest(s: Str)
    requires s != []
    ensures Decode(s).ok <==> exists cp: nat, rest :: IsScalar(cp) && s == Encode(cp) + rest
    ensures Decode(s).ok ==> IsScalar(Decode(s).cp) && s == Encode(Decode(s).cp) + Decode(s).rest
  {
    hide Decode, CharLength, CharValue, Encode;
    DecodeFollowsGrammar(s);
    if Decode(s).ok {
      GrammarFollowsEncode(s);
      assert s == s[..CharLength(s)] + s[CharLength(s)..];
      assert IsScalar(Decode(s).cp) && s == Encode(Decode(s).cp) + Decode(s).rest;
    }
    forall cp: nat, rest | IsScalar(cp) && s == Encode(cp) + rest ensures Decode(s).ok {
      DecodeEncode(cp, rest);
    }
  }

  // ---------------------------------------------------------------------------------------------
  // Validate
  // ---------------------------------------------------------------------------------------------

  lemma {:induction false} ValidateTailFails(masks: seq<bv8>, last: Ch, out: Str, s: Str)
    ensures !ValidateTail(masks, false, last, out, s).ok
    decreases |masks|
  {
    if masks == [] {
    } else if last == NUL {
      ValidateTailFails(masks[1..], last, out, s);
    } else {
      ValidateTailFails(masks[1..], Peek(s), out + [Peek(s)], Tail(s));
    }
  }

  /** While the bytes are well formed, the two tails take the same ones and `Validate` copies them. */
  lemma {:induction false} ValidateTailAgrees(masks: seq<bv8>, last: Ch, cp: nat, out: Str, s: Str)
    requires last != NUL
    requires forall m :: m in masks ==> m in {0x70, 0x50, 0x10, 0x20, 0x60}
    ensures ValidateTail(masks, true, last, out, s).ok == DecodeTail(masks, true, cp, s).ok
    ensures ValidateTail(masks, true, last, out, s).ok ==>
              && ValidateTail(masks, true, last, out, s).rest == DecodeTail(masks, true, cp, s).rest
              && ValidateTail(masks, true, last, out, s).out + ValidateTail(masks, true, last, out, s).rest == out + s
    decreases |masks|
  {
    if masks != [] {
      var c := Peek(s);
      assert masks[0] in masks;
      assert forall m :: m in masks[1..] ==> m in masks;
      MasksAreRanges(c);
      if InRange(c, masks[0]) {
        assert out + [c] + Tail(s) == out + s;
        ValidateTailAgrees(masks[1..], c, cp * 0x40 + c % 0x40, out + [c], Tail(s));
      } else {
        ValidateTailFails(masks[1..], c, out + [c], Tail(s));
        DecodeTailFails(masks[1..], cp * 0x40 + c % 0x40, Tail(s));
      }
    }
  }

  /** `Validate` accepts exactly what `Decode` accepts, takes the same bytes and copies them verbatim. */
  lemma ValidateIsDecode(s: Str)
    requires s != []
    ensures Validate(s).ok == Decode(s).ok
    ensures Validate(s).ok ==>
              && IsScalar(Decode(s).cp)
              && Validate(s).rest == Decode(s).rest
              && Validate(s).out + Validate(s).rest == s
              && Validate(s).out == Encode(Decode(s).cp)
  {
    var lead := s[0];
    if lead >= 0x80 && TailMasks(lead) != [] {
      assert [lead] + Tail(s) == s;
      forall m | m in TailMasks(lead) ensures m in {0x70, 0x50, 0x10, 0x20, 0x60} {}
      ValidateTailAgrees(TailMasks(lead), lead, LeadBits(lead), [lead], Tail(s));
    }
    if Validate(s).ok {
      DecodeOnlyShortest(s);
      SamePrefix(Validate(s).out, Encode(Decode(s).cp), Decode(s).rest);
    }
  }

  lemma SamePrefix(a: Str, b: Str, rest: Str)
    requires a + rest == b + rest
    ensures a == b
  {
    assert |a| == |b|;
    assert a == (a + rest)[..|a|];
    assert b == (b + rest)[..|b|];
  }

  // ---------------------------------------------------------------------------------------------
  // Strings of code points
  // ---------------------------------------------------------------------------------------------

  predicate AllScalar(cps: seq<nat>) {
    forall k :: 0 <= k < |cps| ==> IsScalar(cps[k])
  }

  function EncodeAll(cps: seq<nat>): Str
    requires AllScalar(cps)
  {
    if cps == [] then [] else Encode(cps[0]) + EncodeAll(cps[1..])
  }

  /** Repeated `Decode` until the stream is used up. */
  function DecodeAll(s: Str): Option<seq<nat>>
    decreases |s|
  {
    if s == [] then Some([])
    else
      var d := Decode(s);
      if !d.ok || |d.rest| >= |s| then None
      else
        var more := DecodeAll(d.rest);
        if more.None? then None else Some([d.cp] + more.value)
  }

  /** The byte strings that are UTF-8. */
  predicate IsUtf8(s: Str) {
    DecodeAll(s).Some?
  }

  lemma {:induction false} DecodeAllEncodeAll(cps: seq<nat>)
    requires AllScalar(cps)
    ensures DecodeAll(EncodeAll(cps)) == Some(cps)
  {
    if cps != [] {
      DecodeEncode(cps[0], EncodeAll(cps[1..]));
      DecodeAllEncodeAll(cps[1..]);
      assert [cps[0]] + cps[1..] == cps;
    }
  }

  lemma {:induction false} EncodeAllDecodeAll(s: Str)
    requires IsUtf8(s)
    ensures AllScalar(DecodeAll(s).value)
    ensures EncodeAll(DecodeAll(s).value) == s
    decreases |s|
  {
    if s != [] {
      var d := Decode(s);
      DecodeOnlyShortest(s);
      EncodeAllDecodeAll(d.rest);
      var cps := DecodeAll(s).value;
      assert cps[1..] == DecodeAll(d.rest).value;
    }
  }

  /** UTF-8 is a bijection between the strings of scalar values and the strings `Decode` accepts. */
  lemma Bijection(s: Str)
    ensures IsUtf8(s) <==> exists cps :: AllScalar(cps) && s == EncodeAll(cps)
  {
    if IsUtf8(s) {
      EncodeAllDecodeAll(s);
    }
    forall cps | AllScalar(cps) && s == EncodeAll(cps) ensures IsUtf8(s) {
      DecodeAllEncodeAll(cps);
    }
  }

  lemma {:induction false} EncodeAllAppend(cps: seq<nat>, cp: nat)
    requires AllScalar(cps) && IsScalar(cp)
    ensures EncodeAll(cps + [cp]) == EncodeAll(cps) + Encode(cp)
  {
    if cps == [] {
      assert EncodeAll([cp]) == Encode(cp) + EncodeAll([]);
    } else {
      assert (cps + [cp])[1..] == cps[1..] + [cp];
      EncodeAllAppend(cps[1..], cp);
    }
  }

  lemma AppendScalar(s: Str, bytes: Str)
    requires IsUtf8(s)
    requires exists cp: nat :: IsScalar(cp) && bytes == Encode(cp)
    ensures IsUtf8(s + bytes)
  {
    var cp: nat :| IsScalar(cp) && bytes == Encode(cp);
    EncodeAllDecodeAll(s);
    EncodeAllAppend(DecodeAll(s).value, cp);
    DecodeAllEncodeAll(DecodeAll(s).value + [cp]);
  }
}
