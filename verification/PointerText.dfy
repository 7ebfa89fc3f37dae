/**
 * The two texts of a JSON Pointer (RFC 6901 sections 3 and 6): Parse and Stringify of
 * include/rapidjson/pointer.h, for the string and the URI fragment form.
 */
module PointerText {
  import opened Text
  import opened StringCodec
  import Utf8

  const MODULUS := 0x1_0000_0000

  /** `kPointerInvalidIndex`. */
  const INVALID_INDEX := 0xFFFF_FFFF

  const UNDERSCORE: Ch := 0x5F

  datatype Token = Token(name: Str, index: nat)

  /** `PointerParseErrorCode` of include/rapidjson/error/error.h. */
  datatype PointerErrorCode =
    | TokenMustBeginWithSolidus
    | InvalidEscape
    | InvalidPercentEncoding
    | CharacterMustPercentEncode

  /** `at` counts the units from the error to the end of the source. */
  datatype PointerResult =
    | Tokens(tokens: seq<Token>)
    | PointerErr(code: PointerErrorCode, at: nat)

  /** `NeedPercentEncode`: all but the unreserved characters of RFC 3986 section 2.3. */
  predicate NeedPercentEncode(c: Ch) {
    !(IsDigit(c) || 0x41 <= c <= 0x5A || 0x61 <= c <= 0x7A || c == MINUS || c == DOT || c == UNDERSCORE || c == TILDE)
  }

  // ---------------------------------------------------------------------------------------------
  // The index of a token
  // ---------------------------------------------------------------------------------------------

  predicate AllDigits(name: Str) {
    forall k :: 0 <= k < |name| ==> IsDigit(name[k])
  }

  /** The two checks on the characters: digits only, and no leading zero before another digit. */
  predicate IsNumber(name: Str) {
    AllDigits(name) && name != [] && !(|name| > 1 && name[0] == ZERO)
  }

  /** The conversion loop in 32-bit arithmetic, with its test for overflow. */
  function Convert(digits: Str, n: nat): (index: nat)
    requires AllDigits(digits) && n < MODULUS
    ensures index < MODULUS
    decreases |digits|
  {
    if digits == [] then n
    else
      var m := (n * 10 + (digits[0] - ZERO)) % MODULUS;
      if m < n then INVALID_INDEX else Convert(digits[1..], m)
  }

  function IndexOf(name: Str): (index: nat)
    ensures index < MODULUS
  {
    if IsNumber(name) then Convert(name, 0) else INVALID_INDEX
  }

  /** The number some digits spell. */
  function Numeral(digits: Str): nat
    requires AllDigits(digits)
    decreases |digits|
  {
    if digits == [] then 0
    else Numeral(digits[..|digits| - 1]) * 10 + (digits[|digits| - 1] - ZERO)
  }

  /** The number the first `k` digits spell, in 32 bits. */
  function Wrapped(digits: Str, k: nat): (n: nat)
    requires AllDigits(digits) && k <= |digits|
    ensures n < MODULUS
  {
    Numeral(digits[..k]) % MODULUS
  }

  /** Digit `k` takes the wrapped number below what it was: what the loop's test sees. */
  predicate Drops(digits: Str, k: nat)
    requires AllDigits(digits) && k < |digits|
  {
    Wrapped(digits, k + 1) < Wrapped(digits, k)
  }

  lemma {:induction false} Wraps(x: nat, q: nat)
    ensures (x + q * MODULUS) % MODULUS == x % MODULUS
  {
    if q > 0 {
      Wraps(x, q - 1);
      assert x + q * MODULUS == x + (q - 1) * MODULUS + MODULUS;
    }
  }

  lemma WrapStep(value: nat, d: nat)
    ensures (value % MODULUS * 10 + d) % MODULUS == (value * 10 + d) % MODULUS
  {
    var q := value / MODULUS;
    assert value * 10 + d == (value % MODULUS * 10 + d) + q * 10 * MODULUS;
    Wraps(value % MODULUS * 10 + d, q * 10);
  }

  lemma NumeralStep(digits: Str, k: nat)
    requires AllDigits(digits) && k < |digits|
    ensures Numeral(digits[..k + 1]) == Numeral(digits[..k]) * 10 + (digits[k] - ZERO)
  {
    assert digits[..k + 1][..k] == digits[..k];
  }

  /** One pass round the conversion loop. */
  lemma ConvertStep(digits: Str, k: nat)
    requires AllDigits(digits) && k < |digits|
    ensures Convert(digits[k..], Wrapped(digits, k))
         == if Drops(digits, k) then INVALID_INDEX else Convert(digits[k + 1..], Wrapped(digits, k + 1))
  {
    var rest := digits[k..];
    assert rest[0] == digits[k] && rest[1..] == digits[k + 1..];
    NumeralStep(digits, k);
    WrapStep(Numeral(digits[..k]), digits[k] - ZERO);
  }

  predicate NeverDrops(digits: Str, k: nat)
    requires AllDigits(digits) && k <= |digits|
  {
    forall j :: k <= j < |digits| ==> !Drops(digits, j)
  }

  /** The loop gives up exactly when some digit makes the wrapped number drop. */
  lemma {:induction false} ConvertIs(digits: Str, k: nat)
    requires AllDigits(digits) && k <= |digits|
    ensures Convert(digits[k..], Wrapped(digits, k)) == if NeverDrops(digits, k) then Wrapped(digits, |digits|) else INVALID_INDEX
    decreases |digits| - k
  {
    if k < |digits| {
      ConvertStep(digits, k);
      ConvertIs(digits, k + 1);
      assert NeverDrops(digits, k) <==> !Drops(digits, k) && NeverDrops(digits, k + 1);
    }
  }

  /** What the index of a canonical numeral is. */
  lemma IndexIs(name: Str)
    requires IsNumber(name)
    ensures IndexOf(name) == if NeverDrops(name, 0) then Numeral(name) % MODULUS else INVALID_INDEX
  {
    ConvertIs(name, 0);
    assert name[0..] == name && name[..0] == [] && name[..|name|] == name;
  }

  lemma {:induction false} PrefixesGrow(digits: Str, j: nat, k: nat)
    requires AllDigits(digits) && j <= k <= |digits|
    ensures Numeral(digits[..j]) <= Numeral(digits[..k])
    decreases k
  {
    if j < k {
      PrefixesGrow(digits, j, k - 1);
      NumeralStep(digits, k - 1);
    }
  }

  lemma SmallNeverDrops(digits: Str)
    requires AllDigits(digits) && Numeral(digits) < MODULUS
    ensures NeverDrops(digits, 0)
  {
    forall k | 0 <= k < |digits| ensures !Drops(digits, k) {
      hide Drops, Numeral;
      SmallDigit(digits, k);
    }
  }

  lemma SmallDigit(digits: Str, k: nat)
    requires AllDigits(digits) && Numeral(digits) < MODULUS && k < |digits|
    ensures !Drops(digits, k)
  {
    hide Numeral;
    assert digits[..|digits|] == digits;
    PrefixesGrow(digits, k, k + 1);
    PrefixesGrow(digits, k + 1, |digits|);
  }

  /** What the index ought to be: the number spelled, when it is a valid array index. */
  function ExactIndex(name: Str): nat
    requires IsNumber(name)
  {
    if Numeral(name) < INVALID_INDEX then Numeral(name) else INVALID_INDEX
  }

  /**
   * When the index is exact: when the number fits 32 bits, and otherwise only when some digit makes
   * the wrapped number drop or the number wraps to the invalid index by itself.
   */
  lemma IndexIsExactIff(name: Str)
    requires IsNumber(name)
    ensures (IndexOf(name) == ExactIndex(name))
        <==> (Numeral(name) < MODULUS || !NeverDrops(name, 0) || Numeral(name) % MODULUS == INVALID_INDEX)
  {
    IndexIs(name);
    if Numeral(name) < MODULUS {
      SmallNeverDrops(name);
    }
  }

  /** The number spelled by nines. */
  function Nines(k: nat): nat {
    if k == 0 then 0 else Nines(k - 1) * 10 + 9
  }

  lemma {:induction false} NinesSpell(name: Str, k: nat)
    requires k <= |name| && forall j :: 0 <= j < |name| ==> name[j] == NINE
    ensures Numeral(name[..k]) == Nines(k)
  {
    if k > 0 {
      NinesSpell(name, k - 1);
      NumeralStep(name, k - 1);
    }
  }

  lemma NinesTable()
    ensures Nines(0) == 0 && Nines(1) == 9 && Nines(2) == 99 && Nines(3) == 999 && Nines(4) == 9999 && Nines(5) == 99999
    ensures Nines(6) == 999999 && Nines(7) == 9999999 && Nines(8) == 99999999 && Nines(9) == 999999999 && Nines(10) == 9999999999
  {
    assert Nines(5) == 99999;
  }

  lemma NineKept(name: Str, k: nat)
    requires |name| == 10 && k < 10 && forall j :: 0 <= j < |name| ==> name[j] == NINE
    ensures AllDigits(name) && !Drops(name, k)
  {
    hide Numeral, Nines;
    NinesTable();
    NinesSpell(name, k);
    NinesSpell(name, k + 1);
  }

  /**
   * The overflow test of `Parse` (include/rapidjson/pointer.h) misses this one: the name 9999999999 gets the
   * index 1410065407.
   */
  lemma MissedOverflow()
    ensures var name := seq(10, _ => NINE);
            IsNumber(name) && Numeral(name) == 9999999999 && IndexOf(name) == 1410065407
  {
    var name := seq(10, _ => NINE);
    forall k | 0 <= k < 10 ensures !Drops(name, k) {
      NineKept(name, k);
    }
    hide Drops, Numeral, Nines;
    NinesTable();
    NinesSpell(name, 10);
    assert name[..10] == name;
    IndexIs(name);
  }

  // ---------------------------------------------------------------------------------------------
  // Percent-encoding
  // ---------------------------------------------------------------------------------------------

  /** `PercentDecodeStream`. */
  datatype PercentStream = PercentStream(src: Str, valid: bool)

  datatype Taken = Taken(c: Ch, next: PercentStream)

  /** `Take`: one %XY triplet, or 0 and an invalid stream. */
  function Take(p: PercentStream): Taken {
    if Peek(p.src) != PERCENT || |p.src| < 3 then Taken(NUL, p.(valid := false))
    else
      var high, low := HexDigit(p.src[1]), HexDigit(p.src[2]);
      if high.None? then Taken(NUL, PercentStream(p.src[1..], false))
      else if low.None? then Taken(NUL, PercentStream(p.src[2..], false))
      else Taken(high.value * 16 + low.value, p.(src := p.src[3..]))
  }

  datatype PercentValidated = PercentValidated(ok: bool, out: Str, stream: PercentStream)

  function ValidatePercentTail(masks: seq<bv8>, ok: bool, last: Ch, out: Str, p: PercentStream): PercentValidated
    decreases |masks|
  {
    if masks == [] then PercentValidated(ok, out, p)
    else if last == NUL then ValidatePercentTail(masks[1..], ok && Utf8.InRange(last, masks[0]), last, out, p)
    else
      var t := Take(p);
      ValidatePercentTail(masks[1..], ok && Utf8.InRange(t.c, masks[0]), t.c, out + [t.c], t.next)
  }

  /** UTF-8's `Validate` over a percent-encoded stream. */
  function ValidatePercent(s: Str): PercentValidated {
    var t := Take(PercentStream(s, true));
    var masks := if t.c < 0x80 then [] else Utf8.TailMasks(t.c);
    ValidatePercentTail(masks, t.c < 0x80 || masks != [], t.c, [t.c], t.next)
  }

  /** The bytes of the run of triplets at the start of a text. */
  function Triplets(s: Str): Str
    decreases |s|
  {
    var t := Take(PercentStream(s, true));
    if !t.next.valid then [] else [t.c] + Triplets(s[3..])
  }

  function PercentEncode(bytes: Str): Str {
    if bytes == [] then []
    else [PERCENT, HexChar(bytes[0] / 16), HexChar(bytes[0] % 16)] + PercentEncode(bytes[1..])
  }

  lemma HexCharIsRead(d: nat)
    requires d < 16
    ensures HexDigit(HexChar(d)) == Some(d)
  {
  }

  lemma TakeEncoded(byte: Ch, post: Str)
    ensures var s := PercentEncode([byte]) + post;
            Take(PercentStream(s, true)) == Taken(byte, PercentStream(post, true)) && s[3..] == post && |s| == |post| + 3
  {
    var triplet := [PERCENT, HexChar(byte / 16), HexChar(byte % 16)];
    assert PercentEncode([byte]) == triplet + PercentEncode([]) == triplet;
    var s := triplet + post;
    HexCharIsRead(byte / 16);
    HexCharIsRead(byte % 16);
    assert s[1] == HexChar(byte / 16) && s[2] == HexChar(byte % 16) && s[3..] == post;
  }

  lemma PercentEncodeFirst(bytes: Str, post: Str)
    requires bytes != []
    ensures PercentEncode(bytes) + post == PercentEncode([bytes[0]]) + (PercentEncode(bytes[1..]) + post)
    ensures |PercentEncode(bytes)| == 3 + |PercentEncode(bytes[1..])|
  {
    var triplet := [PERCENT, HexChar(bytes[0] / 16), HexChar(bytes[0] % 16)];
    assert PercentEncode([bytes[0]]) == triplet + PercentEncode([]) == triplet;
    Regroup3(triplet, PercentEncode(bytes[1..]), post);
  }

  lemma TripletsOfOne(byte: Ch, post: Str)
    ensures Triplets(PercentEncode([byte]) + post) == [byte] + Triplets(post)
  {
    TakeEncoded(byte, post);
  }

  /** Encoding is undone by taking triplets. */
  lemma {:induction false} TripletsOfEncoded(bytes: Str, post: Str)
    ensures Triplets(PercentEncode(bytes) + post) == bytes + Triplets(post)
    ensures |PercentEncode(bytes)| == 3 * |bytes|
    decreases |bytes|
  {
    if bytes == [] {
      assert PercentEncode(bytes) + post == post;
      assert bytes + Triplets(post) == Triplets(post);
    } else {
      hide *;
      PercentEncodeFirst(bytes, post);
      TripletsOfOne(bytes[0], PercentEncode(bytes[1..]) + post);
      TripletsOfEncoded(bytes[1..], post);
      Regroup3([bytes[0]], bytes[1..], Triplets(post));
      assert [bytes[0]] + bytes[1..] == bytes;
    }
  }

  lemma {:induction false} TripletsFit(s: Str)
    ensures 3 * |Triplets(s)| <= |s|
    decreases |s|
  {
    if Take(PercentStream(s, true)).next.valid {
      TripletsFit(s[3..]);
    }
  }

  /** Validating the stream is validating its triplets; it is valid when no unit past them was wanted. */
  lemma {:induction false} ValidatePercentTailIs(masks: seq<bv8>, ok: bool, last: Ch, out: Str, p: PercentStream)
    requires p.valid || last == NUL
    ensures var v := Utf8.ValidateTail(masks, ok, last, out, Triplets(p.src));
            var w := ValidatePercentTail(masks, ok, last, out, p);
            && w.ok == v.ok && w.out == v.out && |out| <= |w.out| <= |out| + |Triplets(p.src)| + 1
            && (w.stream.valid <==> p.valid && |w.out| - |out| <= |Triplets(p.src)|)
            && (w.stream.valid ==> 3 * (|w.out| - |out|) <= |p.src| && w.stream.src == p.src[3 * (|w.out| - |out|)..])
    decreases |masks|
  {
    if masks == [] {
    } else if last == NUL {
      ValidatePercentTailIs(masks[1..], ok && Utf8.InRange(last, masks[0]), last, out, p);
    } else {
      var t := Take(p);
      var units := Triplets(p.src);
      assert p == PercentStream(p.src, true);
      assert t.c == Peek(units);
      assert t.next.valid ==> Triplets(t.next.src) == Tail(units);
      ValidatePercentTailIs(masks[1..], ok && Utf8.InRange(t.c, masks[0]), t.c, out + [t.c], t.next);
      if t.next.valid {
      } else {
        StoppedTail(masks[1..], ok && Utf8.InRange(NUL, masks[0]), out + [NUL], Triplets(t.next.src), Tail(units));
      }
    }
  }

  /** After a NUL no more is taken, so what the stream holds does not matter. */
  lemma {:induction false} StoppedTail(masks: seq<bv8>, ok: bool, out: Str, s: Str, s': Str)
    ensures Utf8.ValidateTail(masks, ok, NUL, out, s).ok == Utf8.ValidateTail(masks, ok, NUL, out, s').ok
    ensures Utf8.ValidateTail(masks, ok, NUL, out, s).out == out == Utf8.ValidateTail(masks, ok, NUL, out, s').out
    decreases |masks|
  {
    if masks != [] {
      StoppedTail(masks[1..], ok && Utf8.InRange(NUL, masks[0]), out, s, s');
    }
  }

  lemma ValidatePercentIs(s: Str)
    ensures var v := Utf8.Validate(Triplets(s));
            var w := ValidatePercent(s);
            && w.ok == v.ok && w.out == v.out && 1 <= |w.out| <= |Triplets(s)| + 1
            && (w.stream.valid <==> |w.out| <= |Triplets(s)|)
            && (w.stream.valid ==> 3 * |w.out| <= |s| && w.stream.src == s[3 * |w.out|..])
  {
    hide Utf8.TailMasks;
    var t := Take(PercentStream(s, true));
    var units := Triplets(s);
    assert t.c == Peek(units);
    var masks := if t.c < 0x80 then [] else Utf8.TailMasks(t.c);
    ValidatePercentTailIs(masks, t.c < 0x80 || masks != [], t.c, [t.c], t.next);
    if t.next.valid {
      assert Triplets(t.next.src) == Tail(units);
    }
  }

  // ---------------------------------------------------------------------------------------------
  // Parse
  // ---------------------------------------------------------------------------------------------

  /** What one pass round the loop over a token's units does. */
  datatype Step =
    | One(c: Ch, rest: Str)
    | Several(bytes: Str, rest: Str)
    | StepErr(code: PointerErrorCode, at: nat)

  /** `~0` and `~1`, once the tilde has been taken. */
  function Unescape(c: Ch, s: Str): (r: Step)
    ensures r.One? ==> |r.rest| <= |s| && |s| - 1 <= |r.rest|
    ensures !r.Several?
  {
    if c != TILDE then One(c, s)
    else if s == [] then StepErr(InvalidEscape, 0)
    else if s[0] == ZERO then One(TILDE, s[1..])
    else if s[0] == ZERO + 1 then One(SLASH, s[1..])
    else StepErr(InvalidEscape, |s|)
  }

  function NameStep(uri: bool, s: Str): (r: Step)
    requires s != []
    ensures r.One? ==> |r.rest| < |s|
    ensures r.Several? ==> 2 <= |r.bytes| && 3 * |r.bytes| <= |s| && r.rest == s[3 * |r.bytes|..]
  {
    var c := s[0];
    if uri && c == PERCENT then
      ValidatePercentIs(s);
      var v := ValidatePercent(s);
      if !v.ok || !v.stream.valid then StepErr(InvalidPercentEncoding, |s|)
      else if |v.out| == 1 then Unescape(v.out[0], v.stream.src)
      else Several(v.out, v.stream.src)
    else if uri && NeedPercentEncode(c) then StepErr(CharacterMustPercentEncode, |s|)
    else Unescape(c, s[1..])
  }

  datatype NameResult =
    | Named(name: Str, rest: Str)
    | NameErr(code: PointerErrorCode, at: nat)

  /** A token's name up to the next solidus, `name` having been read. */
  function ParseName(uri: bool, s: Str, name: Str): (r: NameResult)
    ensures r.Named? ==> |r.rest| <= |s| && (r.rest == [] || r.rest[0] == SLASH)
    decreases |s|
  {
    if s == [] || s[0] == SLASH then Named(name, s)
    else
      match NameStep(uri, s)
      case One(c, rest) => ParseName(uri, rest, name + [c])
      case Several(bytes, rest) => ParseName(uri, rest, name + bytes)
      case StepErr(code, at) => NameErr(code, at)
  }

  function ParseTokens(uri: bool, s: Str, tokens: seq<Token>): PointerResult
    requires s == [] || s[0] == SLASH
    decreases |s|
  {
    if s == [] then Tokens(tokens)
    else
      match ParseName(uri, s[1..], [])
      case NameErr(code, at) => PointerErr(code, at)
      case Named(name, rest) => ParseTokens(uri, rest, tokens + [Token(name, IndexOf(name))])
  }

  /** `Parse`. */
  function Parse(source: Str): PointerResult {
    var uri := Peek(source) == HASH;
    var s := if uri then source[1..] else source;
    if s != [] && s[0] != SLASH then PointerErr(TokenMustBeginWithSolidus, |s|) else ParseTokens(uri, s, [])
  }

  lemma {:induction false} TokensAreIndexed(uri: bool, s: Str, tokens: seq<Token>)
    requires s == [] || s[0] == SLASH
    requires forall t :: t in tokens ==> t.index == IndexOf(t.name)
    ensures var r := ParseTokens(uri, s, tokens);
            r.Tokens? ==> forall t :: t in r.tokens ==> t.index == IndexOf(t.name)
    decreases |s|
  {
    if s != [] {
      hide IndexOf, ParseName;
      match ParseName(uri, s[1..], [])
      case NameErr(_, _) =>
      case Named(name, rest) => TokensAreIndexed(uri, rest, tokens + [Token(name, IndexOf(name))]);
    }
  }

  /** The tokens `Parse` makes have the indices of their names. */
  lemma ParsedIndices(source: Str)
    ensures Parse(source).Tokens? ==> forall t :: t in Parse(source).tokens ==> t.index == IndexOf(t.name)
  {
    hide ParseTokens, IndexOf;
    var uri := Peek(source) == HASH;
    var s := if uri then source[1..] else source;
    if s == [] || s[0] == SLASH {
      TokensAreIndexed(uri, s, []);
    }
  }

  // ---------------------------------------------------------------------------------------------
  // Escapes (RFC 6901 section 4)
  // ---------------------------------------------------------------------------------------------

  /** What comes before the next solidus. */
  function TokenText(s: Str): (t: Str)
    ensures |t| <= |s|
  {
    if s == [] || s[0] == SLASH then [] else [s[0]] + TokenText(s[1..])
  }

  /** A 0 or a 1 follows every tilde. */
  predicate IsEscaped(t: Str) {
    forall k :: 0 <= k < |t| && t[k] == TILDE ==> k + 1 < |t| && (t[k + 1] == ZERO || t[k + 1] == ZERO + 1)
  }

  /** Every tilde that the digit follows, and the digit, replaced. */
  function Replaced(t: Str, digit: Ch, unit: Ch): Str
    decreases |t|
  {
    if t == [] then []
    else if |t| > 1 && t[0] == TILDE && t[1] == digit then [unit] + Replaced(t[2..], digit, unit)
    else [t[0]] + Replaced(t[1..], digit, unit)
  }

  /** First every ~1 becomes a solidus, then every ~0 a tilde. */
  function WithoutEscapes(t: Str): Str {
    Replaced(Replaced(t, ZERO + 1, SLASH), ZERO, TILDE)
  }

  lemma UnescapedUnit(c: Ch, t: Str)
    requires c != TILDE
    ensures WithoutEscapes([c] + t) == [c] + WithoutEscapes(t)
    ensures IsEscaped([c] + t) <==> IsEscaped(t)
  {
    var s := [c] + t;
    assert s[1..] == t;
    assert Replaced(s, ZERO + 1, SLASH) == [c] + Replaced(t, ZERO + 1, SLASH);
    assert ([c] + Replaced(t, ZERO + 1, SLASH))[1..] == Replaced(t, ZERO + 1, SLASH);
    if IsEscaped(s) {
      assert forall k :: 0 <= k < |t| ==> t[k] == s[k + 1];
    }
  }

  lemma UnescapedPair(d: Ch, t: Str)
    requires d == ZERO || d == ZERO + 1
    ensures WithoutEscapes([TILDE, d] + t) == [if d == ZERO then TILDE else SLASH] + WithoutEscapes(t)
    ensures IsEscaped([TILDE, d] + t) <==> IsEscaped(t)
  {
    var s, one := [TILDE, d] + t, Replaced(t, ZERO + 1, SLASH);
    assert s[1..] == [d] + t && s[2..] == t && ([d] + t)[1..] == t;
    if d == ZERO {
      assert Replaced([d] + t, ZERO + 1, SLASH) == [d] + one;
      assert Replaced(s, ZERO + 1, SLASH) == [TILDE] + ([d] + one);
      var u := [TILDE] + ([d] + one);
      assert u[1] == ZERO && u[2..] == one;
    } else {
      assert Replaced(s, ZERO + 1, SLASH) == [SLASH] + one;
      assert ([SLASH] + one)[1..] == one;
    }
    if IsEscaped(s) {
      assert forall k :: 0 <= k < |t| ==> t[k] == s[k + 2];
    }
    if IsEscaped(t) {
      assert forall k :: 2 <= k < |s| ==> s[k] == t[k - 2];
    }
  }

  /** The name in a token's text that is no URI fragment, read as RFC 6901 section 4 says. */
  lemma {:induction false} NameIsUnescaped(s: Str, name: Str)
    ensures var t, r := TokenText(s), ParseName(false, s, name);
            if IsEscaped(t) then r == Named(name + WithoutEscapes(t), s[|t|..]) else r.NameErr? && r.code == InvalidEscape
    decreases |s|
  {
    hide WithoutEscapes, IsEscaped;
    var t := TokenText(s);
    if t == [] {
      NothingIsUnescaped();
      assert name + [] == name;
    } else if s[0] != TILDE {
      UnescapedUnit(s[0], TokenText(s[1..]));
      NameIsUnescaped(s[1..], name + [s[0]]);
      Regroup3(name, [s[0]], WithoutEscapes(TokenText(s[1..])));
    } else if |s| > 1 && (s[1] == ZERO || s[1] == ZERO + 1) {
      var c := if s[1] == ZERO then TILDE else SLASH;
      assert s[1..][1..] == s[2..];
      assert t == [TILDE, s[1]] + TokenText(s[2..]);
      UnescapedPair(s[1], TokenText(s[2..]));
      NameIsUnescaped(s[2..], name + [c]);
      Regroup3(name, [c], WithoutEscapes(TokenText(s[2..])));
    } else {
      TildeIsAlone(t);
    }
  }

  lemma NothingIsUnescaped()
    ensures WithoutEscapes([]) == [] && IsEscaped([])
  {
  }

  lemma TildeIsAlone(t: Str)
    requires t != [] && t[0] == TILDE && (|t| == 1 || (t[1] != ZERO && t[1] != ZERO + 1))
    ensures !IsEscaped(t)
  {
  }

  // ---------------------------------------------------------------------------------------------
  // Stringify
  // ---------------------------------------------------------------------------------------------

  /** The text of a name; None when a byte that must be percent-encoded starts no UTF-8 sequence. */
  function NameText(uri: bool, name: Str): Option<Str>
    decreases |name|
  {
    if name == [] then Some([])
    else if name[0] == TILDE then Then([TILDE, ZERO], NameText(uri, name[1..]))
    else if name[0] == SLASH then Then([TILDE, ZERO + 1], NameText(uri, name[1..]))
    else if uri && NeedPercentEncode(name[0]) then
      Utf8.ValidateIsDecode(name);
      var v := Utf8.Validate(name);
      if !v.ok then None
      else
        assert |v.out| + |v.rest| == |v.out + v.rest|;
        Then(PercentEncode(v.out), NameText(uri, v.rest))
    else Then([name[0]], NameText(uri, name[1..]))
  }

  function Then(a: Str, b: Option<Str>): Option<Str> {
    if b.None? then None else Some(a + b.value)
  }

  // --- the characters of a URI fragment ---

  predicate IsLetter(c: Ch) {
    0x41 <= c <= 0x5A || 0x61 <= c <= 0x7A
  }

  /** `unreserved` of RFC 3986 section 2.3. */
  predicate IsUnreserved(c: Ch) {
    IsLetter(c) || IsDigit(c) || c in {MINUS, DOT, UNDERSCORE, TILDE}
  }

  predicate AreUnreserved(t: Str) {
    forall k :: 0 <= k < |t| ==> IsUnreserved(t[k]) || t[k] == PERCENT
  }

  /** A triplet of RFC 3986 section 2.1: a percent sign and two hexadecimal digits, in capitals, with the byte's value. */
  predicate IsTriplet(t: Str, byte: Ch) {
    && |t| == 3 && t[0] == PERCENT
    && (forall k :: 1 <= k < 3 ==> IsDigit(t[k]) || 0x41 <= t[k] <= 0x46)
    && HexDigit(t[1]).Some? && HexDigit(t[2]).Some? && HexDigit(t[1]).value * 16 + HexDigit(t[2]).value == byte
  }

  lemma {:induction false} EncodedAreTriplets(bytes: Str)
    ensures |PercentEncode(bytes)| == 3 * |bytes| && AreUnreserved(PercentEncode(bytes))
    ensures forall k :: 0 <= k < |bytes| ==> IsTriplet(PercentEncode(bytes)[3 * k..3 * k + 3], bytes[k])
  {
    if bytes != [] {
      var head, more := [PERCENT, HexChar(bytes[0] / 16), HexChar(bytes[0] % 16)], PercentEncode(bytes[1..]);
      EncodedAreTriplets(bytes[1..]);
      assert (head + more)[0..3] == head;
      forall k | 1 <= k < |bytes|
        ensures (head + more)[3 * k..3 * k + 3] == more[3 * (k - 1)..3 * (k - 1) + 3]
      {
      }
    }
  }

  /** The text of a name in a URI fragment has unreserved characters and triplets only. */
  lemma {:induction false} FragmentIsUnreserved(name: Str)
    ensures NameText(true, name).Some? ==> AreUnreserved(NameText(true, name).value)
    decreases |name|
  {
    if name != [] {
      if name[0] != TILDE && name[0] != SLASH && NeedPercentEncode(name[0]) {
        Utf8.ValidateIsDecode(name);
        var v := Utf8.Validate(name);
        if v.ok {
          assert |v.out| + |v.rest| == |v.out + v.rest|;
          EncodedAreTriplets(v.out);
          FragmentIsUnreserved(v.rest);
        }
      } else {
        FragmentIsUnreserved(name[1..]);
      }
    }
  }

  /** A name of unreserved characters, but for the tilde, is written as it is, and so is any name without tilde and solidus outside a URI. */
  lemma {:induction false} PlainNameIsKept(uri: bool, name: Str)
    requires forall k :: 0 <= k < |name| ==> name[k] != TILDE && name[k] != SLASH && (uri ==> IsUnreserved(name[k]))
    ensures NameText(uri, name) == Some(name)
    decreases |name|
  {
    if name != [] {
      PlainNameIsKept(uri, name[1..]);
      assert name == [name[0]] + name[1..];
    }
  }

  function TokensText(uri: bool, names: seq<Str>): Option<Str> {
    if names == [] then Some([])
    else
      var first := NameText(uri, names[0]);
      if first.None? then None else Then([SLASH] + first.value, TokensText(uri, names[1..]))
  }

  /** `Stringify`; the index of a token is not written. */
  function Stringify(uri: bool, names: seq<Str>): Option<Str> {
    Then(if uri then [HASH] else [], TokensText(uri, names))
  }

  // ---------------------------------------------------------------------------------------------
  // Round trips
  // ---------------------------------------------------------------------------------------------

  /** Stringifying to a URI fragment succeeds for UTF-8 names and for no others. */
  lemma {:induction false} UriTextIff(name: Str)
    ensures NameText(true, name).Some? <==> Utf8.IsUtf8(name)
    decreases |name|
  {
    if name != [] {
      var d := Utf8.Decode(name);
      Utf8.ValidateIsDecode(name);
      if name[0] == TILDE || name[0] == SLASH || !NeedPercentEncode(name[0]) {
        assert d == Utf8.Decoded(true, name[0], name[1..]);
        UriTextIff(name[1..]);
      } else if d.ok {
        assert |Utf8.Validate(name).out| + |d.rest| == |name|;
        UriTextIff(d.rest);
      }
    }
  }

  lemma {:induction false} StringTextExists(name: Str)
    ensures NameText(false, name).Some?
  {
    if name != [] {
      StringTextExists(name[1..]);
    }
  }

  lemma EscapeIsTaken(uri: bool, c: Ch, digit: Ch, post: Str)
    requires (c == TILDE && digit == ZERO) || (c == SLASH && digit == ZERO + 1)
    ensures NameStep(uri, [TILDE, digit] + post) == One(c, post)
  {
    hide ValidatePercent;
    var s := [TILDE, digit] + post;
    assert s[0] == TILDE && s[1..] == [digit] + post && ([digit] + post)[1..] == post;
  }

  lemma PlainIsTaken(uri: bool, c: Ch, post: Str)
    requires c != TILDE && !(uri && (NeedPercentEncode(c) || c == PERCENT))
    ensures NameStep(uri, [c] + post) == One(c, post)
  {
    hide ValidatePercent;
    assert ([c] + post)[1..] == post;
  }

  /** A name that begins with one code unit is written and read unit by unit. */
  lemma UnitIsRead(uri: bool, c: Ch, post: Str)
    requires c == SLASH || !(uri && NeedPercentEncode(c))
    ensures var text := if c == TILDE then [TILDE, ZERO] else if c == SLASH then [TILDE, ZERO + 1] else [c];
            NameStep(uri, text + post) == One(c, post) && (text + post)[0] != SLASH
  {
    hide NameStep;
    if c == TILDE {
      EscapeIsTaken(uri, c, ZERO, post);
    } else if c == SLASH {
      EscapeIsTaken(uri, c, ZERO + 1, post);
    } else {
      PlainIsTaken(uri, c, post);
    }
  }

  /** A percent-encoded sequence is read back as its bytes. */
  lemma SequenceIsRead(name: Str, post: Str)
    requires name != [] && NeedPercentEncode(name[0]) && Utf8.Validate(name).ok
    ensures var out := Utf8.Validate(name).out;
            var s := PercentEncode(out) + post;
            && out != [] && s != [] && s[0] == PERCENT
            && NameStep(true, s) == if |out| == 1 then One(out[0], post) else Several(out, post)
  {
    var out := Utf8.Validate(name).out;
    var cp := Utf8.Decode(name).cp;
    var s := PercentEncode(out) + post;
    Utf8.ValidateIsDecode(name);
    assert out == Utf8.Encode(cp) && out[0] == name[0];
    PercentEncodeFirst(out, post);
    TripletsOfEncoded(out, post);
    var units := out + Triplets(post);
    Utf8.DecodeEncode(cp, Triplets(post));
    Utf8.ValidateIsDecode(units);
    ValidatePercentIs(s);
    assert s[3 * |out|..] == post;
  }

  /** A name's first piece, its text, and how that is read whatever follows. */
  lemma PieceIsRead(uri: bool, name: Str, post: Str, before: Str) returns (head: Str, rest: Str, text: Str)
    requires name != [] && NameText(uri, name).Some?
    ensures name == head + rest && head != []
    ensures NameText(uri, rest).Some? && NameText(uri, name).value == text + NameText(uri, rest).value
    ensures var more := NameText(uri, rest).value + post;
            ParseName(uri, text + more, before) == ParseName(uri, more, before + head)
  {
    if name[0] != TILDE && name[0] != SLASH && uri && NeedPercentEncode(name[0]) {
      Utf8.ValidateIsDecode(name);
      var v := Utf8.Validate(name);
      head, rest, text := v.out, v.rest, PercentEncode(v.out);
      SequenceIsRead(name, NameText(uri, rest).value + post);
      assert |head| == 1 ==> [head[0]] == head;
    } else {
      var c := name[0];
      head, rest := [c], name[1..];
      text := if c == TILDE then [TILDE, ZERO] else if c == SLASH then [TILDE, ZERO + 1] else [c];
      UnitIsRead(uri, c, NameText(uri, rest).value + post);
    }
  }

  /** Reading undoes writing, name by name. */
  lemma {:induction false} NameIsRead(uri: bool, name: Str, post: Str, before: Str)
    requires NameText(uri, name).Some?
    requires post == [] || post[0] == SLASH
    ensures ParseName(uri, NameText(uri, name).value + post, before) == Named(before + name, post)
    decreases |name|
  {
    if name == [] {
      assert NameText(uri, name).value + post == post;
      assert before + name == before;
    } else {
      hide *;
      var head, rest, text := PieceIsRead(uri, name, post, before);
      NameIsRead(uri, rest, post, before + head);
      Regroup3(text, NameText(uri, rest).value, post);
      Regroup3(before, head, rest);
    }
  }

  function TokensOf(names: seq<Str>): seq<Token> {
    seq(|names|, k requires 0 <= k < |names| => Token(names[k], IndexOf(names[k])))
  }

  function NamesOf(tokens: seq<Token>): seq<Str> {
    seq(|tokens|, k requires 0 <= k < |tokens| => tokens[k].name)
  }

  lemma {:induction false} TokensAreRead(uri: bool, names: seq<Str>, before: seq<Token>)
    requires TokensText(uri, names).Some?
    ensures var text := TokensText(uri, names).value;
            && (text == [] || text[0] == SLASH)
            && ParseTokens(uri, text, before) == Tokens(before + TokensOf(names))
    decreases |names|
  {
    hide NameText, ParseName, IndexOf;
    if names == [] {
      assert before + TokensOf(names) == before;
    } else {
      var name, more := NameText(uri, names[0]).value, TokensText(uri, names[1..]).value;
      var text := TokensText(uri, names).value;
      Regroup3([SLASH], name, more);
      assert text[1..] == name + more;
      TokensAreRead(uri, names[1..], before + [Token(names[0], IndexOf(names[0]))]);
      NameIsRead(uri, names[0], more, []);
      assert [] + names[0] == names[0];
      assert before + [Token(names[0], IndexOf(names[0]))] + TokensOf(names[1..]) == before + TokensOf(names);
    }
  }

  lemma {:induction false} TokensTextIff(uri: bool, names: seq<Str>)
    ensures TokensText(uri, names).Some? <==> !uri || forall n :: n in names ==> Utf8.IsUtf8(n)
  {
    if names != [] {
      TokensTextIff(uri, names[1..]);
      StringTextExists(names[0]);
      UriTextIff(names[0]);
      assert forall n :: n in names <==> n == names[0] || n in names[1..];
    }
  }

  /**
   * Parsing undoes stringifying: every list of names comes back from its string form, and every list
   * of UTF-8 names, the only ones that have one, from its URI fragment form.
   */
  lemma ParseUndoesStringify(uri: bool, names: seq<Str>)
    ensures Stringify(uri, names).Some? <==> !uri || forall n :: n in names ==> Utf8.IsUtf8(n)
    ensures Stringify(uri, names).Some? ==> Parse(Stringify(uri, names).value) == Tokens(TokensOf(names))
  {
    TokensTextIff(uri, names);
    if Stringify(uri, names).Some? {
      TokensAreRead(uri, names, []);
      var text := TokensText(uri, names).value;
      assert [] + TokensOf(names) == TokensOf(names);
      assert [] + text == text;
      assert ([HASH] + text)[0] == HASH && ([HASH] + text)[1..] == text;
    }
  }

  /** What a URI fragment decodes to is UTF-8. */
  lemma StepIsScalar(s: Str)
    requires s != []
    ensures var r := NameStep(true, s);
            && (r.One? ==> exists cp: nat :: Utf8.IsScalar(cp) && [r.c] == Utf8.Encode(cp))
            && (r.Several? ==> exists cp: nat :: Utf8.IsScalar(cp) && r.bytes == Utf8.Encode(cp))
  {
    var r := NameStep(true, s);
    if s[0] == PERCENT {
      ValidatePercentIs(s);
      var v := ValidatePercent(s);
      if v.ok && v.stream.valid {
        Utf8.ValidateIsDecode(Triplets(s));
        var cp := Utf8.Decode(Triplets(s)).cp;
        assert v.out == Utf8.Encode(cp);
        if r.One? {
          assert v.out == [v.out[0]];
          assert r.c == v.out[0] || [r.c] == Utf8.Encode(r.c);
        }
      }
    } else if r.One? {
      assert [r.c] == Utf8.Encode(r.c);
    }
  }

  lemma {:induction false} UriNameIsUtf8(s: Str, name: Str)
    requires Utf8.IsUtf8(name)
    ensures ParseName(true, s, name).Named? ==> Utf8.IsUtf8(ParseName(true, s, name).name)
    decreases |s|
  {
    if s != [] && s[0] != SLASH {
      StepIsScalar(s);
      match NameStep(true, s)
      case One(c, rest) =>
        Utf8.AppendScalar(name, [c]);
        UriNameIsUtf8(rest, name + [c]);
      case Several(bytes, rest) =>
        Utf8.AppendScalar(name, bytes);
        UriNameIsUtf8(rest, name + bytes);
      case StepErr(_, _) =>
    }
  }

  /** A token as `Parse` makes it. */
  predicate IsParsed(uri: bool, t: Token) {
    t.index == IndexOf(t.name) && (uri ==> Utf8.IsUtf8(t.name))
  }

  lemma {:induction false} TokensAreParsed(uri: bool, s: Str, tokens: seq<Token>)
    requires s == [] || s[0] == SLASH
    requires forall t :: t in tokens ==> IsParsed(uri, t)
    ensures var r := ParseTokens(uri, s, tokens);
            r.Tokens? ==> forall t :: t in r.tokens ==> IsParsed(uri, t)
    decreases |s|
  {
    if s != [] {
      match ParseName(uri, s[1..], [])
      case NameErr(_, _) =>
      case Named(name, rest) =>
        if uri {
          UriNameIsUtf8(s[1..], []);
        }
        TokensAreParsed(uri, rest, tokens + [Token(name, IndexOf(name))]);
    }
  }

  /**
   * Stringifying normalises: what an accepted text denotes can be written again in the same form, and
   * reads back as the very same tokens, indices included.
   */
  lemma StringifyNormalises(source: Str)
    requires Parse(source).Tokens?
    ensures var uri := Peek(source) == HASH;
            var tokens := Parse(source).tokens;
            && Stringify(uri, NamesOf(tokens)).Some?
            && Parse(Stringify(uri, NamesOf(tokens)).value) == Tokens(tokens)
  {
    var uri := Peek(source) == HASH;
    var tokens := Parse(source).tokens;
    TokensAreParsed(uri, if uri then source[1..] else source, []);
    NamesKeepTokens(uri, tokens);
    ParseUndoesStringify(uri, NamesOf(tokens));
  }

  lemma NamesKeepTokens(uri: bool, tokens: seq<Token>)
    requires forall t :: t in tokens ==> IsParsed(uri, t)
    ensures TokensOf(NamesOf(tokens)) == tokens
    ensures uri ==> forall n :: n in NamesOf(tokens) ==> Utf8.IsUtf8(n)
  {
    forall k | 0 <= k < |tokens| ensures IsParsed(uri, tokens[k]) {
      assert tokens[k] in tokens;
    }
  }

  // ---------------------------------------------------------------------------------------------
  // The buffers
  // ---------------------------------------------------------------------------------------------

  function CountSolidus(s: Str): nat {
    if s == [] then 0 else (if s[0] == SLASH then 1 else 0) + CountSolidus(s[1..])
  }

  lemma {:induction false} CountDrop(s: Str, n: nat)
    requires n <= |s| && forall k :: 0 <= k < n ==> s[k] != SLASH
    ensures CountSolidus(s[n..]) == CountSolidus(s)
  {
    if n == 0 {
      assert s[0..] == s;
    } else {
      CountDrop(s[1..], n - 1);
      assert s[1..][n - 1..] == s[n..];
    }
  }

  lemma {:induction false} TripletsHoldNoSolidus(s: Str, k: nat)
    requires k < 3 * |Triplets(s)|
    ensures 3 * |Triplets(s)| <= |s| && s[k] != SLASH
    decreases |s|
  {
    TripletsFit(s);
    var t := Take(PercentStream(s, true));
    if k >= 3 && t.next.valid {
      TripletsHoldNoSolidus(s[3..], k - 3);
    }
  }

  /** No solidus of the source is taken inside a name, so a token is counted for each. */
  lemma StepTakes(uri: bool, s: Str)
    requires s != [] && s[0] != SLASH
    ensures var r := NameStep(uri, s);
            && (r.One? ==> CountSolidus(r.rest) == CountSolidus(s))
            && (r.Several? ==> CountSolidus(r.rest) == CountSolidus(s))
  {
    var r := NameStep(uri, s);
    if uri && s[0] == PERCENT {
      ValidatePercentIs(s);
      var v := ValidatePercent(s);
      if v.ok && v.stream.valid {
        var n := 3 * |v.out|;
        forall k | 0 <= k < n ensures s[k] != SLASH {
          TripletsHoldNoSolidus(s, k);
        }
        CountDrop(s, n);
        UnescapeTakes(v.out[0], s[n..]);
      }
    } else {
      UnescapeTakes(s[0], s[1..]);
    }
  }

  lemma UnescapeTakes(c: Ch, s: Str)
    ensures Unescape(c, s).One? ==> CountSolidus(Unescape(c, s).rest) == CountSolidus(s)
  {
  }

  /** A sequence of several bytes holds no ASCII, so a name with one is no number. */
  lemma SeveralAreHigh(uri: bool, s: Str)
    requires s != []
    ensures NameStep(uri, s).Several? ==> NameStep(uri, s).bytes[0] >= 0x80
  {
    if NameStep(uri, s).Several? {
      ValidatePercentIs(s);
      Utf8.ValidateIsDecode(Triplets(s));
      Utf8.EncodedBytesAreHigh(Utf8.Decode(Triplets(s)).cp);
    }
  }
}
