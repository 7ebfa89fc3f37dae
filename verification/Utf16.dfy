/** The UTF-16 encoding of include/rapidjson/encodings.h and transcoding between it and UTF-8. */
module Utf16 {
  import opened Text
  import Utf8

  type Unit = u: int | 0 <= u < 0x1_0000

  /** `Encode`; the source asserts that the code point is a scalar value. */
  function Encode(cp: nat): (units: seq<Unit>)
    requires Utf8.IsScalar(cp)
    ensures 1 <= |units| <= 2
  {
    if cp <= 0xFFFF then [cp]
    else
      var v := cp - 0x10000;
      [v / 0x400 + 0xD800, v % 0x400 + 0xDC00]
  }

  datatype Decoded = Decoded(ok: bool, cp: nat, rest: seq<Unit>)

  function Peek(s: seq<Unit>): Unit {
    if s == [] then 0 else s[0]
  }

  function Tail(s: seq<Unit>): seq<Unit> {
    if s == [] then [] else s[1..]
  }

  function Decode(s: seq<Unit>): Decoded {
    var c := Peek(s);
    if c < 0xD800 || c > 0xDFFF then Decoded(true, c, Tail(s))
    else if c <= 0xDBFF then
      var low := Peek(Tail(s));
      Decoded(0xDC00 <= low <= 0xDFFF, c % 0x400 * 0x400 + low % 0x400 + 0x10000, Tail(Tail(s)))
    else Decoded(false, 0, Tail(s))
  }

  datatype Validated = Validated(ok: bool, out: seq<Unit>, rest: seq<Unit>)

  function Validate(s: seq<Unit>): Validated {
    var c := Peek(s);
    if c < 0xD800 || c > 0xDFFF then Validated(true, [c], Tail(s))
    else if c <= 0xDBFF then
      var low := Peek(Tail(s));
      Validated(0xDC00 <= low <= 0xDFFF, [c, low], Tail(Tail(s)))
    else Validated(false, [c], Tail(s))
  }

  lemma DecodeEncode(cp: nat, rest: seq<Unit>)
    requires Utf8.IsScalar(cp)
    ensures Decode(Encode(cp) + rest) == Decoded(true, cp, rest)
  {
    var e := Encode(cp);
    var s := e + rest;
    assert s[0] == e[0];
    if |e| == 2 {
      assert s[1] == e[1] && s[1..][1..] == rest;
    } else {
      assert s[1..] == rest;
    }
  }

  /** `Decode` accepts only unpaired non-surrogates and well-ordered surrogate pairs (RFC 2781 section 2.2). */
  lemma DecodeOnlyWellFormed(s: seq<Unit>)
    requires s != []
    ensures Decode(s).ok ==> Utf8.IsScalar(Decode(s).cp) && s == Encode(Decode(s).cp) + Decode(s).rest
    ensures Validate(s).ok == Decode(s).ok
    ensures Validate(s).ok ==> Validate(s).rest == Decode(s).rest && Validate(s).out + Validate(s).rest == s
  {
  }

  function EncodeAll(cps: seq<nat>): seq<Unit>
    requires Utf8.AllScalar(cps)
  {
    if cps == [] then [] else Encode(cps[0]) + EncodeAll(cps[1..])
  }

  /** `Transcoder<UTF8, UTF16>::Transcode` over a whole stream. */
  function FromUtf8(s: Str): Option<seq<Unit>>
    decreases |s|
  {
    if s == [] then Some([])
    else
      var d := Utf8.Decode(s);
      if !d.ok || !Utf8.IsScalar(d.cp) || |d.rest| >= |s| then None
      else
        var more := FromUtf8(d.rest);
        if more.None? then None else Some(Encode(d.cp) + more.value)
  }

  /** `Transcoder<UTF16, UTF8>::Transcode` over a whole stream. */
  function ToUtf8(s: seq<Unit>): Option<Str>
    decreases |s|
  {
    if s == [] then Some([])
    else
      var d := Decode(s);
      if !d.ok || !Utf8.IsScalar(d.cp) || |d.rest| >= |s| then None
      else
        var more := ToUtf8(d.rest);
        if more.None? then None else Some(Utf8.Encode(d.cp) + more.value)
  }

  lemma {:induction false} FromUtf8IsEncodeAll(s: Str)
    ensures FromUtf8(s).Some? <==> Utf8.IsUtf8(s)
    ensures Utf8.IsUtf8(s) ==> Utf8.AllScalar(Utf8.DecodeAll(s).value)
    ensures Utf8.IsUtf8(s) ==> FromUtf8(s) == Some(EncodeAll(Utf8.DecodeAll(s).value))
    decreases |s|
  {
    if s != [] {
      var d := Utf8.Decode(s);
      Utf8.DecodeOnlyShortest(s);
      if d.ok {
        FromUtf8IsEncodeAll(d.rest);
        if Utf8.IsUtf8(s) {
          assert Utf8.DecodeAll(s).value[1..] == Utf8.DecodeAll(d.rest).value;
        }
      }
    }
  }

  lemma {:induction false} ToUtf8IsEncodeAll(cps: seq<nat>)
    requires Utf8.AllScalar(cps)
    ensures ToUtf8(EncodeAll(cps)) == Some(Utf8.EncodeAll(cps))
  {
    if cps != [] {
      DecodeEncode(cps[0], EncodeAll(cps[1..]));
      ToUtf8IsEncodeAll(cps[1..]);
    }
  }

  /** Transcoding to UTF-16 and back is the identity on UTF-8 and is refused on anything else. */
  lemma TranscodeRoundTrip(s: Str)
    ensures FromUtf8(s).Some? <==> Utf8.IsUtf8(s)
    ensures FromUtf8(s).Some? ==> ToUtf8(FromUtf8(s).value) == Some(s)
  {
    FromUtf8IsEncodeAll(s);
    if Utf8.IsUtf8(s) {
      Utf8.EncodeAllDecodeAll(s);
      ToUtf8IsEncodeAll(Utf8.DecodeAll(s).value);
    }
  }
}
