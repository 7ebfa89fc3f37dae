/**
 * Where ParseStringToStream of include/rapidjson/reader.h gives up on a string, and with which error: at the first
 * character that is none of RFC 8259 section 7, or whose surrogate has no partner.
 */
module StringRefusal {
  import opened Text
  import opened ParseTypes
  import opened StringCodec
  import opened StringGrammar
  import Utf8

  predicate StartsUnicode(s: Str) {
    |s| >= 2 && s[..2] == BACKSLASH_U
  }

  predicate StartsHex4(s: Str) {
    |s| >= 4 && IsHex4(s[..4])
  }

  predicate IsHighUnit(v: nat) {
    0xD800 <= v <= 0xDBFF
  }

  predicate IsLowUnit(v: nat) {
    0xDC00 <= v <= 0xDFFF
  }

  /** An escape that names a high surrogate, and right after it another \u. */
  predicate StartsPair(s: Str) {
    StartsUnicode(s) && StartsHex4(s[2..]) && IsHighUnit(HexValue(s[2..][..4])) && StartsUnicode(s[6..])
  }

  /** The bytes of a code point come first. */
  ghost predicate StartsCodePoint(s: Str) {
    exists cp: nat, rest :: Utf8.IsScalar(cp) && s == Utf8.Encode(cp) + rest
  }

  /** What the unread text of a string starts with is no character, and the error it is refused with. */
  ghost predicate IsBroken(f: Flags, s: Str, code: ErrorCode) {
    var c := Peek(s);
    match code
    case StringMissQuotationMark => c == NUL
    case StringInvalidEncoding =>
      NUL < c < 0x20 || (f.validateEncoding && IsUnescaped(c) && !StartsCodePoint(s))
    case StringEscapeInvalid =>
      c == BACKSLASH && Peek(s[1..]) != LETTER_U && !IsChar(f, Short(Peek(s[1..])))
    case StringUnicodeEscapeInvalidHex =>
      StartsUnicode(s) && (!StartsHex4(s[2..]) || (StartsPair(s) && !StartsHex4(s[8..])))
    case StringUnicodeSurrogateInvalid =>
      && StartsUnicode(s) && StartsHex4(s[2..])
      && var v := HexValue(s[2..][..4]);
         || IsLowUnit(v)
         || (IsHighUnit(v) && !StartsUnicode(s[6..]))
         || (StartsPair(s) && StartsHex4(s[8..]) && !IsLowUnit(HexValue(s[8..][..4])))
    case _ => false
  }

  lemma UnicodeIs(s: Str)
    ensures StartsUnicode(s) <==> Peek(s) == BACKSLASH && Peek(s[1..]) == LETTER_U
  {
    if |s| >= 2 {
      assert s[..2] == [s[0], s[1]];
    }
  }

  /** What is left of a pair is refused. */
  lemma LowBreaks(high: nat, s: Str)
    requires IsHighUnit(high)
    ensures ReadLow(high, s) == if !StartsUnicode(s) then BadCodepoint(StringUnicodeSurrogateInvalid)
                                else if !StartsHex4(s[2..]) then BadCodepoint(StringUnicodeEscapeInvalidHex)
                                else if !IsLowUnit(HexValue(s[2..][..4])) then BadCodepoint(StringUnicodeSurrogateInvalid)
                                else ReadLow(high, s)
    ensures StartsUnicode(s) && StartsHex4(s[2..]) && IsLowUnit(HexValue(s[2..][..4])) ==> ReadLow(high, s).Codepoint?
  {
    hide ParseHex4, IsHex4, HexValue;
    UnicodeIs(s);
    if StartsUnicode(s) {
      ParseHex4Is(s[2..]);
    }
  }

  /** An escape is refused exactly when what follows its backslash makes no character. */
  lemma EscapeBreaks(f: Flags, s: Str, code: ErrorCode)
    requires Peek(s) == BACKSLASH
    ensures EscapeStep(f, s) == Failed(code, |s|) <==> IsBroken(f, s, code)
  {
    hide ParseHex4, IsHex4, HexValue, Utf8.Encode, ReadLow, Unescaped;
    var e := Peek(s[1..]);
    EscapeIs(e);
    UnicodeIs(s);
    if StartsUnicode(s) {
      ParseHex4Is(s[2..]);
      if StartsHex4(s[2..]) {
        var v := HexValue(s[2..][..4]);
        assert s[2..][4..] == s[6..];
        if IsHighUnit(v) {
          LowBreaks(v, s[6..]);
          assert StartsUnicode(s[6..]) ==> s[6..][2..] == s[8..];
        }
      }
    }
  }

  /** One pass round the loop fails, at where it started, exactly when no character starts there. */
  lemma BreaksIff(f: Flags, s: Str, code: ErrorCode)
    ensures StringStep(f, s) == Failed(code, |s|) <==> IsBroken(f, s, code)
  {
    hide EscapeStep, Utf8.Encode, IsChar, StartsPair, StartsHex4, HexValue;
    UnicodeIs(s);
    if Peek(s) == BACKSLASH {
      EscapeBreaks(f, s, code);
    } else if s != [] {
      Utf8.ValidateIsDecode(s);
      Utf8.DecodeOnlyShortest(s);
    }
  }

  lemma FailsWhereItStarts(f: Flags, s: Str)
    requires StringStep(f, s).Failed?
    ensures StringStep(f, s).at == |s|
  {
    hide ReadCodepoint, Unescaped;
  }

  /** The characters of a string are taken, whatever comes after them. */
  lemma {:induction false} CharsAreTaken(f: Flags, cs: seq<Char>, out: Str, tail: Str)
    requires IsString(f, cs) && IsPaired(f, cs)
    ensures DecodeString(f, out, SpellChars(cs) + tail) == DecodeString(f, out + Meanings(f, cs), tail)
    decreases |cs|
  {
    hide StringStep, SpellChar, Meaning, PairMeaning, IsChar, IsHigh, IsLow;
    if cs == [] {
      assert [] + tail == tail && out + [] == out;
    } else {
      Regroup3(SpellChar(cs[0]), SpellChars(cs[1..]), tail);
      if IsHigh(f, cs[0]) {
        assert cs[1..][0] == cs[1] && cs[1..][1..] == cs[2..];
        Regroup3(SpellChar(cs[1]), SpellChars(cs[2..]), tail);
        PairIsTaken(f, cs[0], cs[1], SpellChars(cs[2..]) + tail);
        CharsAreTaken(f, cs[2..], out + PairMeaning(f, cs[0], cs[1]), tail);
        Regroup3(out, PairMeaning(f, cs[0], cs[1]), Meanings(f, cs[2..]));
      } else {
        CharIsRead(f, cs[0], SpellChars(cs[1..]) + tail);
        CharsAreTaken(f, cs[1..], out + Meaning(f, cs[0]), tail);
        Regroup3(out, Meaning(f, cs[0]), Meanings(f, cs[1..]));
      }
    }
  }

  /** What is refused are characters of a string and then something that is none. */
  lemma {:induction false} RefusedIsBroken(f: Flags, out: Str, s: Str) returns (cs: seq<Char>, rest: Str)
    requires DecodeString(f, out, s).StringErr?
    ensures IsString(f, cs) && IsPaired(f, cs) && s == SpellChars(cs) + rest && IsBroken(f, rest, DecodeString(f, out, s).code)
    decreases |s|
  {
    hide StringStep, SpellChar, Meaning, SpellChars, Meanings, IsBroken;
    match StringStep(f, s)
    case Copied(bytes, t) =>
      var first := ReadIsChar(f, s);
      var more;
      more, rest := RefusedIsBroken(f, out + bytes, t);
      cs := first + more;
      PairedCons(f, first, more);
      Regroup3(SpellChars(first), SpellChars(more), rest);
    case Closed(_) =>
    case Failed(code, _) =>
      cs, rest := [], s;
      FailsWhereItStarts(f, s);
      BreaksIff(f, s, code);
      NothingIsSpelled(f);
      assert [] + s == s;
  }

  /**
   * From after its opening quote, a string is refused with an error at a place if and only if what comes before that
   * place is characters of a string, their surrogates paired, and what comes there is no character for that reason.
   */
  lemma StringRefusedIff(f: Flags, s: Str, code: ErrorCode, at: nat)
    ensures DecodeString(f, [], s) == StringErr(code, at)
       <==> exists cs, rest :: IsString(f, cs) && IsPaired(f, cs) && s == SpellChars(cs) + rest && IsBroken(f, rest, code) && at == |rest|
  {
    hide StringStep, SpellChars, Meanings, IsBroken, IsString, IsPaired;
    if DecodeString(f, [], s) == StringErr(code, at) {
      var cs, rest := RefusedIsBroken(f, [], s);
      BrokenIsRefused(f, cs, rest, code);
    }
    forall cs, rest | IsString(f, cs) && IsPaired(f, cs) && s == SpellChars(cs) + rest && IsBroken(f, rest, code) && at == |rest|
      ensures DecodeString(f, [], s) == StringErr(code, at)
    {
      BrokenIsRefused(f, cs, rest, code);
    }
  }

  lemma BrokenIsRefused(f: Flags, cs: seq<Char>, rest: Str, code: ErrorCode)
    requires IsString(f, cs) && IsPaired(f, cs) && IsBroken(f, rest, code)
    ensures DecodeString(f, [], SpellChars(cs) + rest) == StringErr(code, |rest|)
  {
    hide StringStep, SpellChars, Meanings, IsBroken, IsString, IsPaired;
    CharsAreTaken(f, cs, [], rest);
    BreaksIff(f, rest, code);
  }
}
