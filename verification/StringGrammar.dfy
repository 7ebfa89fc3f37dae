/**
 * The strings of RFC 8259 section 7, which ParseStringToStream of include/rapidjson/reader.h accepts and reads as
 * what they stand for, unless they have an escaped surrogate that is not half of a pair.
 */
module StringGrammar {
  import opened Text
  import opened ParseTypes
  import opened StringCodec
  import Utf8
  import Utf16

  type Scalar = cp: int | 0 <= cp && Utf8.IsScalar(cp)

  /**
   * A character of a string as it is spelled: unescaped (a code point when encodings are validated, a unit when
   * not), a backslash and a letter, or \uXXXX, which names a UTF-16 code unit.
   */
  datatype Char =
    | Plain(cp: Scalar)
    | Raw(unit: Ch)
    | Short(letter: Ch)
    | Unicode(digits: Str)

  predicate IsHex4(ds: Str) {
    |ds| == 4 && forall k :: 0 <= k < 4 ==> HexDigit(ds[k]).Some?
  }

  function HexValue(ds: Str): (v: Utf16.Unit)
    requires IsHex4(ds)
  {
    HexDigit(ds[0]).value * 0x1000 + HexDigit(ds[1]).value * 0x100 + HexDigit(ds[2]).value * 0x10 + HexDigit(ds[3]).value
  }

  /** The letters that may follow a backslash, and what they stand for. */
  const ESCAPES: map<Ch, Ch> := map[
    QUOTE := QUOTE, BACKSLASH := BACKSLASH, SLASH := SLASH,
    0x62 := 0x08, 0x66 := 0x0C, 0x6E := LF, 0x72 := CR, 0x74 := TAB]

  predicate IsUnescaped(c: nat) {
    c >= 0x20 && c != QUOTE && c != BACKSLASH
  }

  /** `char` of RFC 8259 section 7, and with a flag the apostrophe after a backslash. */
  predicate IsChar(f: Flags, c: Char) {
    match c
    case Plain(cp) => f.validateEncoding && IsUnescaped(cp)
    case Raw(unit) => !f.validateEncoding && IsUnescaped(unit)
    case Short(letter) => letter in ESCAPES || (f.escapedApostrophe && letter == APOSTROPHE)
    case Unicode(digits) => IsHex4(digits)
  }

  predicate IsString(f: Flags, cs: seq<Char>) {
    forall k :: 0 <= k < |cs| ==> IsChar(f, cs[k])
  }

  const BACKSLASH_U: Str := [BACKSLASH, LETTER_U]

  function SpellChar(c: Char): Str {
    match c
    case Plain(cp) => Utf8.Encode(cp)
    case Raw(unit) => [unit]
    case Short(letter) => [BACKSLASH, letter]
    case Unicode(digits) => BACKSLASH_U + digits
  }

  function SpellChars(cs: seq<Char>): Str {
    if cs == [] then [] else SpellChar(cs[0]) + SpellChars(cs[1..])
  }

  // --- surrogates ---

  /** An escape that names the first half of a surrogate pair. */
  predicate IsHigh(f: Flags, c: Char)
    requires IsChar(f, c)
  {
    c.Unicode? && 0xD800 <= HexValue(c.digits) <= 0xDBFF
  }

  /** An escape that names the second half. */
  predicate IsLow(f: Flags, c: Char)
    requires IsChar(f, c)
  {
    c.Unicode? && 0xDC00 <= HexValue(c.digits) <= 0xDFFF
  }

  /** Read from the left, every surrogate belongs to a pair. */
  predicate IsPaired(f: Flags, cs: seq<Char>)
    requires IsString(f, cs)
  {
    cs == [] ||
    if IsHigh(f, cs[0]) then |cs| > 1 && IsLow(f, cs[1]) && IsPaired(f, cs[2..])
    else !IsLow(f, cs[0]) && IsPaired(f, cs[1..])
  }

  /** Escape `k` is a surrogate, but neither a high one with a low one right after it nor such a low one. */
  predicate IsStray(f: Flags, cs: seq<Char>, k: nat)
    requires IsString(f, cs) && k < |cs|
  {
    || (IsHigh(f, cs[k]) && !(k + 1 < |cs| && IsLow(f, cs[k + 1])))
    || (IsLow(f, cs[k]) && !(k > 0 && IsHigh(f, cs[k - 1])))
  }

  lemma {:induction false} PairedIffNoneStray(f: Flags, cs: seq<Char>)
    requires IsString(f, cs)
    ensures IsPaired(f, cs) <==> forall k :: 0 <= k < |cs| ==> !IsStray(f, cs, k)
    decreases |cs|
  {
    hide IsChar, HexValue, IsHex4;
    if cs != [] {
      assert IsStray(f, cs, 0) || !IsStray(f, cs, 0);
      if IsHigh(f, cs[0]) {
        NotBoth(f, cs[0]);
        if |cs| > 1 && IsLow(f, cs[1]) {
          NotBoth(f, cs[1]);
          PairedIffNoneStray(f, cs[2..]);
          forall k | 0 <= k < |cs| - 2 ensures IsStray(f, cs[2..], k) <==> IsStray(f, cs, k + 2) { StrayFrom(f, cs, 2, k); }
          assert !IsStray(f, cs, 0) && !IsStray(f, cs, 1);
          Shifted(f, cs, 2);
        }
      } else {
        PairedIffNoneStray(f, cs[1..]);
        forall k | 0 <= k < |cs| - 1 ensures IsStray(f, cs[1..], k) <==> IsStray(f, cs, k + 1) { StrayFrom(f, cs, 1, k); }
        Shifted(f, cs, 1);
      }
    }
  }

  lemma NotBoth(f: Flags, c: Char)
    requires IsChar(f, c)
    ensures !(IsHigh(f, c) && IsLow(f, c))
  {
  }

  /** Whether an escape is stray does not depend on what comes before, if that does not end in a high surrogate. */
  lemma StrayFrom(f: Flags, cs: seq<Char>, n: nat, k: nat)
    requires IsString(f, cs) && 0 < n <= |cs| && k < |cs| - n && !IsHigh(f, cs[n - 1])
    ensures IsStray(f, cs[n..], k) <==> IsStray(f, cs, k + n)
  {
  }

  lemma Shifted(f: Flags, cs: seq<Char>, n: nat)
    requires IsString(f, cs) && n <= |cs|
    requires forall k :: 0 <= k < |cs| - n ==> (IsStray(f, cs[n..], k) <==> IsStray(f, cs, k + n))
    ensures (forall k :: 0 <= k < |cs| - n ==> !IsStray(f, cs[n..], k)) <==> (forall k :: n <= k < |cs| ==> !IsStray(f, cs, k))
  {
    if forall k :: 0 <= k < |cs| - n ==> !IsStray(f, cs[n..], k) {
      forall k | n <= k < |cs| ensures !IsStray(f, cs, k) {
        assert !IsStray(f, cs[n..], k - n);
      }
    } else {
      var k :| 0 <= k < |cs| - n && IsStray(f, cs[n..], k);
      assert IsStray(f, cs, k + n);
    }
  }

  // --- meaning ---

  /** The UTF-16 code units a character stands for when it is escaped with \u, or a pair of them. */
  function Pair(high: Char, low: Char): seq<Utf16.Unit>
    requires high.Unicode? && IsHex4(high.digits) && low.Unicode? && IsHex4(low.digits)
  {
    [HexValue(high.digits), HexValue(low.digits)]
  }

  /** The bytes a character stands for by itself. */
  function Meaning(f: Flags, c: Char): Str
    requires IsChar(f, c)
  {
    match c
    case Plain(cp) => Utf8.Encode(cp)
    case Raw(unit) => [unit]
    case Short(letter) => [if letter in ESCAPES then ESCAPES[letter] else letter]
    case Unicode(digits) => Utf8.Encode(HexValue(digits))
  }

  /** The bytes two surrogates stand for. */
  function PairMeaning(f: Flags, high: Char, low: Char): Str
    requires IsChar(f, high) && IsChar(f, low) && IsHigh(f, high) && IsLow(f, low)
  {
    Utf8.Encode(Utf16.Decode(Pair(high, low)).cp)
  }

  /** The bytes a string stands for, pairs taken together. */
  function Meanings(f: Flags, cs: seq<Char>): Str
    requires IsString(f, cs)
  {
    if cs == [] then []
    else if |cs| > 1 && IsHigh(f, cs[0]) && IsLow(f, cs[1]) then PairMeaning(f, cs[0], cs[1]) + Meanings(f, cs[2..])
    else Meaning(f, cs[0]) + Meanings(f, cs[1..])
  }

  // ---------------------------------------------------------------------------------------------
  // Hexadecimal digits and code points
  // ---------------------------------------------------------------------------------------------

  lemma {:induction false} HexDigitsAre(n: nat, codepoint: nat, s: Str)
    requires n <= 4
    ensures HexDigits(n, codepoint, s).Hex? <==> |s| >= n && forall k :: 0 <= k < n ==> HexDigit(s[k]).Some?
    decreases n
  {
    if n > 0 && HexDigit(Peek(s)).Some? {
      HexDigitsAre(n - 1, codepoint * 16 + HexDigit(Peek(s)).value, s[1..]);
      assert forall k :: 1 <= k < |s| ==> s[k] == s[1..][k - 1];
    }
  }

  /** `ParseHex4` takes four hexadecimal digits, in either case, and nothing else; the result is their value. */
  lemma ParseHex4Is(s: Str)
    ensures ParseHex4(s).Hex? <==> |s| >= 4 && IsHex4(s[..4])
    ensures |s| >= 4 && IsHex4(s[..4]) ==> ParseHex4(s) == Hex(HexValue(s[..4]), s[4..])
  {
    HexDigitsAre(4, 0, s);
    if |s| >= 4 && IsHex4(s[..4]) {
      var d0, d1, d2, d3 := HexDigit(s[..4][0]), HexDigit(s[..4][1]), HexDigit(s[..4][2]), HexDigit(s[..4][3]);
      assert s[1..][1..] == s[2..] && s[2..][1..] == s[3..] && s[3..][1..] == s[4..];
      assert HexDigits(1, (d0.value * 16 + d1.value) * 16 + d2.value, s[3..]) == Hex(HexValue(s[..4]), s[4..]);
      assert HexDigits(2, d0.value * 16 + d1.value, s[2..]) == Hex(HexValue(s[..4]), s[4..]);
      assert HexDigits(3, d0.value, s[1..]) == Hex(HexValue(s[..4]), s[4..]);
    }
  }

  lemma HexIsRead(digits: Str, post: Str)
    requires IsHex4(digits)
    ensures ParseHex4(digits + post) == Hex(HexValue(digits), post)
  {
    assert (digits + post)[..4] == digits && (digits + post)[4..] == post;
    ParseHex4Is(digits + post);
  }

  /** What \uXXXX is read as, given what follows. */
  lemma UnitIsRead(f: Flags, c: Char, post: Str)
    requires IsChar(f, c) && c.Unicode?
    ensures !IsHigh(f, c) && !IsLow(f, c) ==> ReadCodepoint(c.digits + post) == Codepoint(HexValue(c.digits), post)
    ensures IsLow(f, c) ==> ReadCodepoint(c.digits + post) == BadCodepoint(StringUnicodeSurrogateInvalid)
    ensures IsHigh(f, c) ==> ReadCodepoint(c.digits + post) == ReadLow(HexValue(c.digits), post)
  {
    hide ParseHex4, IsHex4, ReadLow;
    HexIsRead(c.digits, post);
  }

  lemma PairIsScalar(high: Utf16.Unit, low: Utf16.Unit)
    requires 0xD800 <= high <= 0xDBFF && 0xDC00 <= low <= 0xDFFF
    ensures Utf16.Decode([high, low]).cp == (high - 0xD800) * 0x400 + (low - 0xDC00) + 0x10000
    ensures Utf8.IsScalar(Utf16.Decode([high, low]).cp)
  {
    assert [high, low][1..] == [low];
  }

  lemma PairIsRead(f: Flags, high: Char, low: Char, post: Str)
    requires IsChar(f, high) && IsChar(f, low) && IsHigh(f, high) && IsLow(f, low)
    ensures Utf8.IsScalar(Utf16.Decode(Pair(high, low)).cp)
    ensures ReadCodepoint(high.digits + (SpellChar(low) + post)) == Codepoint(Utf16.Decode(Pair(high, low)).cp, post)
  {
    hide ParseHex4, IsHex4, HexValue, Utf16.Decode;
    PairIsScalar(HexValue(high.digits), HexValue(low.digits));
    var second := BACKSLASH_U + (low.digits + post);
    Regroup3(BACKSLASH_U, low.digits, post);
    UnitIsRead(f, high, second);
    HexIsRead(low.digits, post);
    assert second[1..][0] == LETTER_U && second[2..] == low.digits + post;
  }

  /** What is not a low surrogate after a high one is refused, whether it is another character or the quote. */
  lemma LowIsMissed(f: Flags, high: nat, c: Char, post: Str)
    requires IsChar(f, c) && !IsLow(f, c) && 0xD800 <= high <= 0xDBFF
    ensures ReadLow(high, SpellChar(c) + post) == BadCodepoint(StringUnicodeSurrogateInvalid)
  {
    hide ParseHex4, Utf8.Encode;
    var s := SpellChar(c) + post;
    match c
    case Plain(cp) =>
      Utf8.EncodedBytesAreHigh(cp);
      PlainStarts(cp, post);
    case Raw(unit) =>
    case Short(letter) => assert s[1..][0] == letter;
    case Unicode(digits) =>
      Regroup3(BACKSLASH_U, digits, post);
      assert s[1..][0] == LETTER_U && s[2..] == digits + post;
      HexIsRead(digits, post);
  }

  lemma PlainStarts(cp: nat, post: Str)
    requires Utf8.IsScalar(cp)
    ensures (Utf8.Encode(cp) + post)[0] == Utf8.Encode(cp)[0] && (cp <= 0x7F ==> Utf8.Encode(cp)[0] == cp)
  {
  }

  lemma TakeHex(s: Str) returns (digits: Str, rest: Str)
    requires ParseHex4(s).Hex?
    ensures s == digits + rest && IsHex4(digits) && ParseHex4(s) == Hex(HexValue(digits), rest)
  {
    ParseHex4Is(s);
    digits, rest := s[..4], s[4..];
  }

  /** Four digits naming a scalar value, or a high surrogate and then an escaped low one, are all that is read. */
  lemma ReadIsCodePoint(f: Flags, s: Str) returns (c: Char, low: Option<Char>)
    requires ReadCodepoint(s).Codepoint?
    ensures IsChar(f, c) && c.Unicode? && !IsLow(f, c) && (IsHigh(f, c) <==> low.Some?)
    ensures low.Some? ==> IsChar(f, low.value) && IsLow(f, low.value)
    ensures s == c.digits + ((if low.Some? then SpellChar(low.value) else []) + ReadCodepoint(s).rest)
    ensures ReadCodepoint(s).value == if low.Some? then Utf16.Decode(Pair(c, low.value)).cp else HexValue(c.digits)
  {
    hide ParseHex4, IsHex4, HexValue;
    var digits, t := TakeHex(s);
    c, low := Unicode(digits), None;
    if 0xD800 <= HexValue(digits) <= 0xDFFF {
      var digits2, rest := TakeHex(t[2..]);
      low := Some(Unicode(digits2));
      assert t == BACKSLASH_U + t[2..];
      Regroup3(BACKSLASH_U, digits2, rest);
    } else {
      assert [] + t == t;
    }
  }

  // ---------------------------------------------------------------------------------------------
  // Characters
  // ---------------------------------------------------------------------------------------------

  lemma EscapeIs(letter: Ch)
    ensures Unescaped(letter) != NUL <==> letter in ESCAPES
    ensures letter in ESCAPES ==> Unescaped(letter) == ESCAPES[letter]
  {
  }

  /** One pass round the loop takes a character that is not a surrogate, whatever follows it. */
  lemma CharIsRead(f: Flags, c: Char, post: Str)
    requires IsChar(f, c) && !IsHigh(f, c) && !IsLow(f, c)
    ensures StringStep(f, SpellChar(c) + post) == Copied(Meaning(f, c), post)
  {
    hide EscapeStep, Utf8.Encode;
    var s := SpellChar(c) + post;
    match c
    case Plain(cp) => PlainIsRead(f, cp, post);
    case Raw(unit) => assert s[1..] == post;
    case Short(letter) => ShortIsRead(f, letter, post);
    case Unicode(_) =>
      EscapeIsTaken(f, c, post);
      UnitIsRead(f, c, post);
  }

  /** An escape with `u` is what is read after it. */
  lemma EscapeIsTaken(f: Flags, c: Char, post: Str)
    requires IsChar(f, c) && c.Unicode?
    ensures var s := SpellChar(c) + post;
            StringStep(f, s) == match ReadCodepoint(c.digits + post)
                                case BadCodepoint(code) => Failed(code, |s|)
                                case Codepoint(value, rest) => Copied(Utf8.Encode(value), rest)
  {
    hide ReadCodepoint, Utf8.Encode;
    var s := SpellChar(c) + post;
    EscapeIs(LETTER_U);
    Regroup3(BACKSLASH_U, c.digits, post);
    assert s[1..][0] == LETTER_U && s[2..] == c.digits + post;
  }

  lemma ShortIsRead(f: Flags, letter: Ch, post: Str)
    requires IsChar(f, Short(letter))
    ensures StringStep(f, SpellChar(Short(letter)) + post) == Copied(Meaning(f, Short(letter)), post)
  {
    hide ReadCodepoint, Unescaped;
    var s := SpellChar(Short(letter)) + post;
    EscapeIs(letter);
    assert s[1..][0] == letter && s[2..] == post;
  }

  lemma PlainIsRead(f: Flags, cp: nat, post: Str)
    requires f.validateEncoding && Utf8.IsScalar(cp) && IsUnescaped(cp)
    ensures StringStep(f, Utf8.Encode(cp) + post) == Copied(Utf8.Encode(cp), post)
  {
    var s := Utf8.Encode(cp) + post;
    Utf8.EncodedBytesAreHigh(cp);
    Utf8.DecodeEncode(cp, post);
    Utf8.ValidateIsDecode(s);
    assert s[0] == Utf8.Encode(cp)[0];
  }

  /** A pair of surrogates is taken in one pass. */
  lemma PairIsTaken(f: Flags, high: Char, low: Char, post: Str)
    requires IsChar(f, high) && IsChar(f, low) && IsHigh(f, high) && IsLow(f, low)
    ensures StringStep(f, SpellChar(high) + (SpellChar(low) + post)) == Copied(PairMeaning(f, high, low), post)
  {
    hide ReadCodepoint, Utf8.Encode, StringStep;
    PairIsRead(f, high, low, post);
    EscapeIsTaken(f, high, SpellChar(low) + post);
  }

  /** What comes after a surrogate that stands alone. */
  function AfterStray(cs: seq<Char>, post: Str): Str
    requires cs != []
  {
    SpellChars(cs[1..]) + ([QUOTE] + post)
  }

  /** A surrogate that does not start a pair ends the reading. */
  lemma StrayIsRefused(f: Flags, cs: seq<Char>, post: Str)
    requires IsString(f, cs) && cs != []
    requires IsLow(f, cs[0]) || (IsHigh(f, cs[0]) && !(|cs| > 1 && IsLow(f, cs[1])))
    ensures var s := SpellChar(cs[0]) + AfterStray(cs, post);
            StringStep(f, s) == Failed(StringUnicodeSurrogateInvalid, |s|)
  {
    hide ReadCodepoint, StringStep, SpellChar, Utf8.Encode, ReadLow;
    var tail := AfterStray(cs, post);
    EscapeIsTaken(f, cs[0], tail);
    UnitIsRead(f, cs[0], tail);
    if IsHigh(f, cs[0]) {
      NotBoth(f, cs[0]);
      if |cs| > 1 {
        assert cs[1..][0] == cs[1];
        Regroup3(SpellChar(cs[1]), SpellChars(cs[1..][1..]), [QUOTE] + post);
        LowIsMissed(f, HexValue(cs[0].digits), cs[1], SpellChars(cs[1..][1..]) + ([QUOTE] + post));
      } else {
        QuoteIsNoLow(HexValue(cs[0].digits), post);
        assert cs[1..] == [] && [] + ([QUOTE] + post) == [QUOTE] + post;
      }
    }
  }

  lemma QuoteIsNoLow(high: nat, post: Str)
    requires 0xD800 <= high <= 0xDBFF
    ensures ReadLow(high, [QUOTE] + post) == BadCodepoint(StringUnicodeSurrogateInvalid)
  {
  }

  /** What is taken in one pass: a character that is not a surrogate, or a pair of surrogates. */
  predicate IsPiece(f: Flags, cs: seq<Char>)
    requires IsString(f, cs)
  {
    || (|cs| == 2 && IsHigh(f, cs[0]) && IsLow(f, cs[1]))
    || (|cs| == 1 && !IsHigh(f, cs[0]) && !IsLow(f, cs[0]))
  }

  /** What one pass takes is a character that is no surrogate, or a pair, and it copies what that stands for. */
  lemma ReadIsChar(f: Flags, s: Str) returns (cs: seq<Char>)
    requires StringStep(f, s).Copied?
    ensures IsString(f, cs) && s == SpellChars(cs) + StringStep(f, s).rest && StringStep(f, s).out == Meanings(f, cs)
    ensures IsPiece(f, cs)
  {
    hide ReadCodepoint, Utf8.Encode;
    var c: Char;
    if s[0] == BACKSLASH {
      var e := Peek(s[1..]);
      EscapeIs(e);
      if e in ESCAPES || (f.escapedApostrophe && e == APOSTROPHE) {
        c := Short(e);
        assert s == [BACKSLASH, e] + s[2..];
      } else {
        cs := ReadIsEscape(f, s);
        return;
      }
    } else if f.validateEncoding {
      c := ReadIsPlain(f, s);
    } else {
      c := Raw(s[0]);
    }
    cs := [c];
    OneChar(f, c);
  }

  lemma OneChar(f: Flags, c: Char)
    requires IsChar(f, c)
    ensures IsString(f, [c]) && SpellChars([c]) == SpellChar(c) && Meanings(f, [c]) == Meaning(f, c)
  {
    assert [c][1..] == [];
  }

  lemma TwoChars(f: Flags, high: Char, low: Char)
    requires IsChar(f, high) && IsChar(f, low) && IsHigh(f, high) && IsLow(f, low)
    ensures IsString(f, [high, low]) && SpellChars([high, low]) == SpellChar(high) + SpellChar(low)
    ensures Meanings(f, [high, low]) == PairMeaning(f, high, low)
  {
    var cs := [high, low];
    assert cs[1..] == [low] && cs[2..] == [];
    OneChar(f, low);
    NothingIsSpelled(f);
    hide PairMeaning, Meaning, HexValue, IsHex4, SpellChar, IsChar;
    assert Meanings(f, cs) == PairMeaning(f, high, low) + [];
  }

  lemma ReadIsEscape(f: Flags, s: Str) returns (cs: seq<Char>)
    requires |s| > 1 && s[0] == BACKSLASH && s[1] == LETTER_U && StringStep(f, s).Copied?
    ensures IsString(f, cs) && s == SpellChars(cs) + StringStep(f, s).rest && StringStep(f, s).out == Meanings(f, cs)
    ensures IsPiece(f, cs)
  {
    EscapeIs(LETTER_U);
    hide ReadCodepoint, Utf8.Encode;
    var c, low := ReadIsCodePoint(f, s[2..]);
    var rest := ReadCodepoint(s[2..]).rest;
    assert s == BACKSLASH_U + s[2..];
    hide StringStep, HexValue, IsHex4;
    if low.Some? {
      cs := [c, low.value];
      TwoChars(f, c, low.value);
      Regroup3(BACKSLASH_U, c.digits, SpellChar(low.value) + rest);
      Regroup3(SpellChar(c), SpellChar(low.value), rest);
    } else {
      cs := [c];
      OneChar(f, c);
      assert [] + rest == rest;
      Regroup3(BACKSLASH_U, c.digits, rest);
    }
  }

  lemma ReadIsPlain(f: Flags, s: Str) returns (c: Char)
    requires f.validateEncoding && StringStep(f, s).Copied? && s[0] != BACKSLASH
    ensures IsChar(f, c) && c.Plain? && s == SpellChar(c) + StringStep(f, s).rest && StringStep(f, s).out == Meaning(f, c)
  {
    Utf8.ValidateIsDecode(s);
    c := Plain(Utf8.Decode(s).cp);
    Utf8.EncodedBytesAreHigh(c.cp);
    assert s[0] == Utf8.Encode(c.cp)[0];
  }

  // ---------------------------------------------------------------------------------------------
  // Strings
  // ---------------------------------------------------------------------------------------------

  /**
   * A string of the grammar and its closing quote are read as what the string stands for, unless a surrogate in it
   * has no partner; then the reader refuses it.
   */
  lemma {:induction false} CharsAreRead(f: Flags, cs: seq<Char>, out: Str, post: Str)
    requires IsString(f, cs)
    ensures var r := DecodeString(f, out, SpellChars(cs) + ([QUOTE] + post));
            if IsPaired(f, cs) then r == StringOk(out + Meanings(f, cs), post)
            else r.StringErr? && r.code == StringUnicodeSurrogateInvalid
    decreases |cs|
  {
    hide StringStep, SpellChar, Meaning, PairMeaning, IsChar, IsHigh, IsLow;
    var tail := [QUOTE] + post;
    if cs == [] {
      assert [] + tail == tail;
      assert StringStep(f, tail) == Closed(post) by { QuoteCloses(f, post); }
      assert out + [] == out;
    } else {
      Regroup3(SpellChar(cs[0]), SpellChars(cs[1..]), tail);
      if IsHigh(f, cs[0]) && |cs| > 1 && IsLow(f, cs[1]) {
        assert cs[1..][0] == cs[1] && cs[1..][1..] == cs[2..];
        Regroup3(SpellChar(cs[1]), SpellChars(cs[2..]), tail);
        PairIsTaken(f, cs[0], cs[1], SpellChars(cs[2..]) + tail);
        CharsAreRead(f, cs[2..], out + PairMeaning(f, cs[0], cs[1]), post);
        Regroup3(out, PairMeaning(f, cs[0], cs[1]), Meanings(f, cs[2..]));
      } else if IsHigh(f, cs[0]) || IsLow(f, cs[0]) {
        StrayIsRefused(f, cs, post);
        NotBoth(f, cs[0]);
      } else {
        CharIsRead(f, cs[0], SpellChars(cs[1..]) + tail);
        CharsAreRead(f, cs[1..], out + Meaning(f, cs[0]), post);
        Regroup3(out, Meaning(f, cs[0]), Meanings(f, cs[1..]));
      }
    }
  }

  lemma QuoteCloses(f: Flags, post: Str)
    ensures StringStep(f, [QUOTE] + post) == Closed(post)
  {
    assert ([QUOTE] + post)[1..] == post;
  }

  /** A character or a pair in front of a string whose surrogates are paired. */
  lemma PairedCons(f: Flags, first: seq<Char>, more: seq<Char>)
    requires IsString(f, first) && IsString(f, more) && IsPaired(f, more)
    requires IsPiece(f, first)
    ensures IsString(f, first + more) && IsPaired(f, first + more)
    ensures SpellChars(first + more) == SpellChars(first) + SpellChars(more)
    ensures Meanings(f, first + more) == Meanings(f, first) + Meanings(f, more)
  {
    hide SpellChar, Meaning, PairMeaning, IsChar, IsHigh, IsLow;
    var cs := first + more;
    if |first| == 2 {
      assert cs[2..] == more && cs[1..] == [first[1]] + more && cs[1..][1..] == more;
      assert first == [first[0], first[1]];
      TwoChars(f, first[0], first[1]);
      Regroup3(SpellChar(first[0]), SpellChar(first[1]), SpellChars(more));
    } else {
      assert cs[1..] == more && first == [first[0]];
      OneChar(f, first[0]);
    }
  }

  lemma {:induction false} ReadIsChars(f: Flags, out: Str, s: Str) returns (cs: seq<Char>)
    requires DecodeString(f, out, s).StringOk?
    ensures IsString(f, cs) && IsPaired(f, cs)
    ensures s == SpellChars(cs) + ([QUOTE] + DecodeString(f, out, s).rest) && DecodeString(f, out, s).value == out + Meanings(f, cs)
    decreases |s|
  {
    hide SpellChar, Meaning, SpellChars, Meanings;
    match StringStep(f, s)
    case Copied(bytes, rest) =>
      var first := ReadIsChar(f, s);
      var more := ReadIsChars(f, out + bytes, rest);
      cs := first + more;
      PairedCons(f, first, more);
      Regroup3(SpellChars(first), SpellChars(more), [QUOTE] + DecodeString(f, out, s).rest);
      Regroup3(out, Meanings(f, first), Meanings(f, more));
    case Closed(rest) =>
      cs := [];
      assert s == [QUOTE] + rest;
      NothingIsSpelled(f);
      assert [] + ([QUOTE] + rest) == [QUOTE] + rest && out + [] == out;
    case Failed(_, _) =>
  }

  lemma NothingIsSpelled(f: Flags)
    ensures SpellChars([]) == [] && Meanings(f, []) == []
  {
  }

  /**
   * From after its opening quote, a string is accepted if and only if it is spelled with characters of the
   * grammar, their surrogates paired, and a closing quote; then the value is what it stands for.
   */
  lemma StringIff(f: Flags, s: Str, value: Str, rest: Str)
    ensures DecodeString(f, [], s) == StringOk(value, rest)
       <==> exists cs :: IsString(f, cs) && IsPaired(f, cs) && s == SpellChars(cs) + ([QUOTE] + rest) && value == Meanings(f, cs)
  {
    if DecodeString(f, [], s) == StringOk(value, rest) {
      var cs := ReadIsChars(f, [], s);
      assert [] + Meanings(f, cs) == Meanings(f, cs);
    }
    forall cs | IsString(f, cs) && IsPaired(f, cs) && s == SpellChars(cs) + ([QUOTE] + rest) && value == Meanings(f, cs)
      ensures DecodeString(f, [], s) == StringOk(value, rest)
    {
      CharsAreRead(f, cs, [], rest);
      assert [] + value == value;
    }
  }

  /**
   * A string of RFC 8259 section 7 is refused if and only if an escape in it is a surrogate that is neither a high
   * one followed at once by a low one nor that low one.
   */
  lemma RefusedIffStray(f: Flags, cs: seq<Char>, post: Str)
    requires IsString(f, cs)
    ensures DecodeString(f, [], SpellChars(cs) + ([QUOTE] + post)).StringErr? <==> exists k :: 0 <= k < |cs| && IsStray(f, cs, k)
  {
    CharsAreRead(f, cs, [], post);
    PairedIffNoneStray(f, cs);
  }

  /** The text "\uDC00" is a string of the grammar, and refused. */
  lemma LoneSurrogateIsRefused(f: Flags, post: Str)
    ensures var cs := [Unicode([0x44, 0x43, 0x30, 0x30])];
            && IsString(f, cs) && SpellChars(cs) == [BACKSLASH, LETTER_U, 0x44, 0x43, 0x30, 0x30]
            && DecodeString(f, [], SpellChars(cs) + ([QUOTE] + post)).StringErr?
  {
    var c := Unicode([0x44, 0x43, 0x30, 0x30]);
    assert HexValue(c.digits) == 0xDC00;
    OneChar(f, c);
    assert IsStray(f, [c], 0);
    RefusedIffStray(f, [c], post);
  }

  // ---------------------------------------------------------------------------------------------
  // Writing
  // ---------------------------------------------------------------------------------------------

  /** A hexadecimal digit in capitals. */
  predicate IsCapitalHex(c: Ch) {
    IsDigit(c) || 0x41 <= c <= 0x46
  }

  /**
   * A unit is written as it is when it may stand unescaped, else with a backslash and a letter when there is one for it,
   * else by its four digits, in capitals.
   */
  lemma UnitIsWritten(c: Ch)
    ensures IsUnescaped(c) ==> EscapeUnit(c) == [c]
    ensures forall letter :: letter in ESCAPES && ESCAPES[letter] == c && !IsUnescaped(c) ==> EscapeUnit(c) == SpellChar(Short(letter))
    ensures !IsUnescaped(c) && c !in ESCAPES.Values ==>
              var t := EscapeUnit(c);
              && |t| == 6 && t[..2] == BACKSLASH_U && IsHex4(t[2..]) && HexValue(t[2..]) == c
              && forall k :: 2 <= k < 6 ==> IsCapitalHex(t[k])
  {
    if !IsUnescaped(c) && EscapeLetter(c) != LETTER_U {
      assert EscapeLetter(c) in ESCAPES && ESCAPES[EscapeLetter(c)] == c;
      assert c in ESCAPES.Values;
    }
    if EscapeLetter(c) == LETTER_U {
      assert EscapeUnit(c)[2..] == [ZERO, ZERO, HexChar(c / 16), HexChar(c % 16)];
    }
  }

  lemma {:induction false} EscapeAllJoins(a: Str, b: Str)
    ensures EscapeAll(a + b) == EscapeAll(a) + EscapeAll(b)
    decreases |a|
  {
    if a == [] {
      assert a + b == b && [] + EscapeAll(b) == EscapeAll(b);
    } else {
      assert (a + b)[0] == a[0] && (a + b)[1..] == a[1..] + b;
      EscapeAllJoins(a[1..], b);
      Regroup3(EscapeUnit(a[0]), EscapeAll(a[1..]), EscapeAll(b));
    }
  }

  /** The bytes of a code point are written in no more units than there are bytes, or in at most six. */
  lemma CodePointIsWritten(cp: nat)
    requires Utf8.IsScalar(cp)
    ensures |Utf8.Encode(cp)| <= 4 && |EscapeAll(Utf8.Encode(cp))| <= 6
    ensures cp > 0x7F || IsUnescaped(cp) ==> |EscapeAll(Utf8.Encode(cp))| == |Utf8.Encode(cp)|
  {
    Utf8.EncodedBytesAreHigh(cp);
    var bytes := Utf8.Encode(cp);
    if cp > 0x7F {
      hide EscapeAll;
      HighBytesAreKept(bytes, []);
      assert bytes + [] == bytes;
      assert EscapeAll([]) == [] by { NothingIsWritten(); }
    } else {
      assert bytes == [cp] && bytes[1..] == [];
    }
  }

  lemma NothingIsWritten()
    ensures EscapeAll([]) == []
  {
  }

  lemma CharIsWritten(f: Flags, c: Char)
    requires IsChar(f, c) && !IsHigh(f, c) && !IsLow(f, c)
    ensures |EscapeAll(Meaning(f, c))| <= |SpellChar(c)|
  {
    match c
    case Plain(cp) => CodePointIsWritten(cp);
    case Raw(unit) => assert [unit][1..] == [];
    case Short(letter) =>
      var unit := if letter in ESCAPES then ESCAPES[letter] else letter;
      assert [unit][1..] == [] && EscapeLetter(unit) != LETTER_U;
    case Unicode(digits) => CodePointIsWritten(HexValue(digits));
  }

  lemma PairIsWritten(f: Flags, high: Char, low: Char)
    requires IsChar(f, high) && IsChar(f, low) && IsHigh(f, high) && IsLow(f, low)
    ensures |EscapeAll(PairMeaning(f, high, low))| <= |SpellChar(high)| + |SpellChar(low)|
  {
    PairIsScalar(HexValue(high.digits), HexValue(low.digits));
    CodePointIsWritten(Utf16.Decode(Pair(high, low)).cp);
  }

  /** What the writer writes for a string is the shortest of the spellings that are read as that string. */
  lemma {:induction false} ShortestIsWritten(f: Flags, cs: seq<Char>)
    requires IsString(f, cs) && IsPaired(f, cs)
    ensures |EscapeAll(Meanings(f, cs))| <= |SpellChars(cs)|
    decreases |cs|
  {
    hide SpellChar, Meaning, PairMeaning, IsChar, IsHigh, IsLow, EscapeAll;
    if cs == [] {
      NothingIsWritten();
    } else if IsHigh(f, cs[0]) {
      assert cs[1..][0] == cs[1] && cs[1..][1..] == cs[2..];
      PairIsWritten(f, cs[0], cs[1]);
      ShortestIsWritten(f, cs[2..]);
      EscapeAllJoins(PairMeaning(f, cs[0], cs[1]), Meanings(f, cs[2..]));
    } else {
      CharIsWritten(f, cs[0]);
      ShortestIsWritten(f, cs[1..]);
      EscapeAllJoins(Meaning(f, cs[0]), Meanings(f, cs[1..]));
    }
  }
}
