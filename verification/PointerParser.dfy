/**
 * GenericPointer of include/rapidjson/pointer.h as the object it is: Parse fills a buffer of names
 * and a buffer of tokens, both sized from the source before it starts.
 */
module PointerParser {
  import opened Text
  import opened PointerText
  import Utf8
  import StringCodec

  /** `Token`: where its name starts in the name buffer, the name's length, and the index. */
  datatype Slot = Slot(start: nat, length: nat, index: nat)

  /** The conversion loop, and the checks before it. */
  method ConvertIndex(name: Str, isNumber: bool) returns (index: nat)
    requires isNumber == AllDigits(name)
    ensures index == IndexOf(name)
  {
    if !isNumber || |name| == 0 || (|name| > 1 && name[0] == ZERO) {
      return INVALID_INDEX;
    }
    var n := 0;
    for j := 0 to |name|
      invariant 0 <= n < MODULUS
      invariant Convert(name[j..], n) == Convert(name, 0)
    {
      assert name[j..][0] == name[j] && name[j..][1..] == name[j + 1..];
      var m := (n * 10 + (name[j] - ZERO)) % MODULUS;
      if m < n {
        return INVALID_INDEX;
      }
      n := m;
    }
    return n;
  }

  /** `~0` and `~1` after the unit `c0`, which has been taken. */
  method TakeEscape(source: Str, i0: nat, c0: Ch) returns (i: nat, c: Ch, error: Option<PointerErrorCode>)
    requires i0 <= |source|
    ensures i0 <= i <= |source|
    ensures Unescape(c0, source[i0..]) == if error.None? then One(c, source[i..]) else StepErr(error.value, |source| - i)
  {
    i, c, error := i0, c0, None;
    if c == TILDE {
      if i < |source| {
        c := source[i];
        if c == ZERO {
          c := TILDE;
        } else if c == ZERO + 1 {
          c := SLASH;
        } else {
          error := Some(InvalidEscape);
          return;
        }
        i := i + 1;
        assert source[i0..][1..] == source[i..];
      } else {
        error := Some(InvalidEscape);
      }
    }
  }

  predicate InBuffer(buffer: Str, slots: seq<Slot>) {
    forall k :: 0 <= k < |slots| ==> SlotInBuffer(buffer, slots[k])
  }

  predicate SlotInBuffer(buffer: Str, slot: Slot) {
    slot.start + slot.length < |buffer| && buffer[slot.start + slot.length] == NUL
  }

  function TokenIn(buffer: Str, slot: Slot): Token
    requires SlotInBuffer(buffer, slot)
  {
    Token(buffer[slot.start..slot.start + slot.length], slot.index)
  }

  function Decoded(buffer: Str, slots: seq<Slot>): (s: seq<Token>)
    requires InBuffer(buffer, slots)
    ensures |s| == |slots|
  {
    seq(|slots|, k requires 0 <= k < |slots| => TokenIn(buffer, slots[k]))
  }

  /** What is appended to the buffer leaves the tokens in it as they were. */
  lemma DecodedGrows(buffer: Str, longer: Str, slots: seq<Slot>)
    requires InBuffer(buffer, slots) && buffer <= longer
    ensures InBuffer(longer, slots) && Decoded(longer, slots) == Decoded(buffer, slots)
  {
    forall k | 0 <= k < |slots|
      ensures SlotInBuffer(longer, slots[k]) && TokenIn(longer, slots[k]) == TokenIn(buffer, slots[k])
    {
      var from, to := slots[k].start, slots[k].start + slots[k].length;
      assert longer[..|buffer|] == buffer;
      assert longer[from..to] == buffer[from..to];
    }
  }

  /** A finished token: its name at the end of the buffer, and a terminator. */
  lemma DecodedAppend(buffer: Str, name: Str, longer: Str, slots: seq<Slot>, index: nat)
    requires InBuffer(buffer, slots) && longer == buffer + name + [NUL]
    ensures var more := slots + [Slot(|buffer|, |name|, index)];
            InBuffer(longer, more) && Decoded(longer, more) == Decoded(buffer, slots) + [Token(name, index)]
  {
    var slot := Slot(|buffer|, |name|, index);
    Regroup3(buffer, name, [NUL]);
    DecodedGrows(buffer, longer, slots);
    assert longer[|buffer|..|buffer| + |name|] == name;
    assert TokenIn(longer, slot) == Token(name, index);
  }

  class GenericPointer {
    var nameBuffer: array<Ch>
    var tokens: array<Slot>
    var tokenCount: nat
    var parseErrorCode: Option<PointerErrorCode>
    var parseErrorOffset: nat

    constructor ()
      ensures Valid() && fresh(nameBuffer) && fresh(tokens) && Contents() == []
    {
      nameBuffer := new Ch[0];
      tokens := new Slot[0];
      tokenCount, parseErrorCode, parseErrorOffset := 0, None, 0;
    }

    /** Every token's name and its terminator lie in the name buffer. */
    ghost predicate Valid()
      reads this, tokens, nameBuffer
    {
      tokenCount <= tokens.Length && InBuffer(nameBuffer[..], tokens[..tokenCount])
    }

    /** The tokens, their names read off the buffer. */
    function Contents(): seq<Token>
      requires Valid()
      reads this, tokens, nameBuffer
    {
      Decoded(nameBuffer[..], tokens[..tokenCount])
    }

    /** What one pass round the loop over a token's units must have done. */
    ghost predicate Stepped(r: Step, before: Str, wasNumber: bool, after: Str, left: Str, isNumber: bool, error: Option<PointerErrorCode>) {
      match r
      case One(c, rest) => error.None? && left == rest && after == before + [c] && isNumber == (wasNumber && IsDigit(c))
      case Several(bytes, rest) => error.None? && left == rest && after == before + bytes && !isNumber
      case StepErr(code, at) => error == Some(code) && |left| == at && after == before
    }

    /** The start of a pass: a unit, or in a URI fragment a percent-encoded sequence, `several` when of several bytes. */
    method TakeUnit(uri: bool, source: Str, i0: nat, name0: nat)
      returns (i: nat, name: nat, c: Ch, several: bool, error: Option<PointerErrorCode>)
      requires i0 < |source| && source[i0] != SLASH && name0 < i0 && nameBuffer.Length == |source|
      modifies nameBuffer
      ensures i0 <= i <= |source| && name0 <= name && (error.None? ==> i0 < i) && name - name0 <= i - i0
      ensures error.Some? ==> NameStep(uri, source[i0..]) == StepErr(error.value, |source| - i) && name == name0
      ensures error.None? && !several ==> NameStep(uri, source[i0..]) == Unescape(c, source[i..]) && name == name0
      ensures error.None? && several ==>
        var r := NameStep(uri, source[i0..]);
        r.Several? && r.rest == source[i..] && nameBuffer[..name] == old(nameBuffer[..name0]) + r.bytes
      ensures nameBuffer[..name0] == old(nameBuffer[..name0])
    {
      hide ValidatePercent, Unescape, Triplets, NeedPercentEncode;
      i, name, c, several, error := i0, name0, source[i0], false, None;
      if uri && c == PERCENT {
        var len, ok := DecodeTriplets(source, i, name);
        if !ok {
          error := Some(InvalidPercentEncoding);
          return;
        }
        if len == 1 {
          c := nameBuffer[name];
        } else {
          name := name + len;
          several := true;
        }
        i := i + 3 * len;
      } else if uri && NeedPercentEncode(c) {
        error := Some(CharacterMustPercentEncode);
      } else {
        i := i + 1;
        assert source[i0..][1..] == source[i..];
      }
    }

    /** One pass round the loop: a unit, an escape, or a percent-encoded sequence. */
    method ReadUnit(uri: bool, source: Str, i0: nat, name0: nat, wasNumber: bool)
      returns (i: nat, name: nat, isNumber: bool, error: Option<PointerErrorCode>)
      requires i0 < |source| && source[i0] != SLASH && name0 < i0 && nameBuffer.Length == |source|
      modifies nameBuffer
      ensures i0 <= i <= |source| && name0 <= name && name - name0 <= i - i0
      ensures Stepped(NameStep(uri, source[i0..]), old(nameBuffer[..name0]), wasNumber, nameBuffer[..name], source[i..], isNumber, error)
    {
      var c, several;
      isNumber := wasNumber;
      i, name, c, several, error := TakeUnit(uri, source, i0, name0);
      if error.Some? {
        return;
      }
      if several {
        isNumber := false;
        return;
      }
      i, c, error := TakeEscape(source, i, c);
      if error.Some? {
        return;
      }
      if c < ZERO || c > NINE {
        isNumber := false;
      }
      nameBuffer[name] := c;
      name := name + 1;
      assert nameBuffer[..name] == nameBuffer[..name0] + [c];
    }

    /**
     * `Validate` from the percent-encoded text into the name buffer, where the bytes arrive before it is
     * known whether they are well formed; they fit the buffer even when they are not.
     */
    method DecodeTriplets(source: Str, i: nat, name: nat) returns (len: nat, ok: bool)
      requires i < |source| && name < i && nameBuffer.Length == |source|
      modifies nameBuffer
      ensures var v := ValidatePercent(source[i..]);
              && len == |v.out| && ok == (v.ok && v.stream.valid) && 1 <= len
              && (ok ==> i + 3 * len <= |source| && v.stream.src == source[i + 3 * len..])
              && name + len <= nameBuffer.Length
              && nameBuffer[..name + len] == old(nameBuffer[..name]) + v.out
      ensures nameBuffer[..name] == old(nameBuffer[..name])
    {
      ghost var s := source[i..];
      ValidatePercentIs(s);
      TripletsFit(s);
      var v := ValidatePercent(source[i..]);
      WriteBytes(name, v.out);
      len, ok := |v.out|, v.ok && v.stream.valid;
      assert ok ==> s[3 * len..] == source[i + 3 * len..];
    }

    method WriteBytes(at: nat, bytes: Str)
      requires at + |bytes| <= nameBuffer.Length
      modifies nameBuffer
      ensures nameBuffer[..at + |bytes|] == old(nameBuffer[..at]) + bytes
      ensures nameBuffer[..at] == old(nameBuffer[..at])
      ensures forall j :: 0 <= j < |bytes| ==> nameBuffer[at + j] == bytes[j]
    {
      for j := 0 to |bytes|
        invariant nameBuffer[..at] == old(nameBuffer[..at])
        invariant forall k :: 0 <= k < j ==> nameBuffer[at + k] == bytes[k]
      {
        nameBuffer[at + j] := bytes[j];
      }
    }

    /** A token's name, from after its solidus up to the next one. */
    method ReadName(uri: bool, source: Str, i0: nat, name0: nat)
      returns (i: nat, name: nat, isNumber: bool, error: Option<PointerErrorCode>)
      requires i0 <= |source| && name0 < i0 && nameBuffer.Length == |source|
      modifies nameBuffer
      ensures i0 <= i <= |source| && name0 <= name && name - name0 <= i - i0
      ensures ParseName(uri, source[i0..], [])
           == if error.None? then Named(nameBuffer[name0..name], source[i..]) else NameErr(error.value, |source| - i)
      ensures error.None? ==> isNumber == AllDigits(nameBuffer[name0..name])
      ensures error.None? ==> CountSolidus(source[i..]) == CountSolidus(source[i0..])
      ensures nameBuffer[..name0] == old(nameBuffer[..name0])
    {
      i, name, isNumber, error := i0, name0, true, None;
      assert nameBuffer[name0..name] == [];
      while i < |source| && source[i] != SLASH
        invariant i0 <= i <= |source| && name0 <= name && name - name0 <= i - i0
        invariant error.None? && nameBuffer[..name0] == old(nameBuffer[..name0])
        invariant ParseName(uri, source[i0..], []) == ParseName(uri, source[i..], nameBuffer[name0..name])
        invariant isNumber == AllDigits(nameBuffer[name0..name])
        invariant CountSolidus(source[i..]) == CountSolidus(source[i0..])
        decreases |source| - i
      {
        ghost var i1, name1 := i, name;
        ghost var held, read := nameBuffer[..name], nameBuffer[name0..name];
        assert held[name0..] == read && held[..name0] == old(nameBuffer[..name0]);
        StepTakes(uri, source[i..]);
        SeveralAreHigh(uri, source[i..]);
        i, name, isNumber, error := ReadUnit(uri, source, i, name, isNumber);
        if error.Some? {
          ReadFailed(name0, nameBuffer[..name], held, nameBuffer[..name0]);
          return;
        }
        ReadSplits(name0, nameBuffer[..name], held, NameStep(uri, source[i1..]), nameBuffer[..name0], nameBuffer[name0..name]);
      }
    }

    /** The end of a token: its terminator, its index and its slot. */
    method FinishToken(name0: nat, name: nat, isNumber: bool)
      requires name0 <= name < nameBuffer.Length && tokenCount < tokens.Length
      requires InBuffer(nameBuffer[..name0], tokens[..tokenCount]) && isNumber == AllDigits(nameBuffer[name0..name])
      modifies nameBuffer, tokens, this`tokenCount
      ensures tokenCount == old(tokenCount) + 1
      ensures InBuffer(nameBuffer[..name + 1], tokens[..tokenCount])
      ensures var read := old(nameBuffer[name0..name]);
              Decoded(nameBuffer[..name + 1], tokens[..tokenCount])
              == old(Decoded(nameBuffer[..name0], tokens[..tokenCount])) + [Token(read, IndexOf(read))]
    {
      ghost var before, read, slots := nameBuffer[..name0], nameBuffer[name0..name], tokens[..tokenCount];
      var index := ConvertIndex(nameBuffer[name0..name], isNumber);
      nameBuffer[name] := NUL;
      tokens[tokenCount] := Slot(name0, name - name0, index);
      tokenCount := tokenCount + 1;
      assert nameBuffer[..name + 1] == before + read + [NUL];
      assert tokens[..tokenCount] == slots + [Slot(name0, |read|, index)];
      DecodedAppend(before, read, nameBuffer[..name + 1], slots, index);
    }

    /** One token, from its solidus up to the next one, and its slot. */
    method ReadToken(uri: bool, source: Str, i0: nat, name0: nat) returns (i: nat, name: nat, error: Option<PointerErrorCode>)
      requires name0 <= i0 < |source| && source[i0] == SLASH && nameBuffer.Length == |source|
      requires tokenCount + CountSolidus(source[i0..]) == tokens.Length
      requires InBuffer(nameBuffer[..name0], tokens[..tokenCount])
      modifies nameBuffer, tokens, this`tokenCount
      ensures name <= i && i0 < i <= |source| && (i == |source| || error.Some? || source[i] == SLASH)
      ensures error.None? ==>
        && tokenCount + CountSolidus(source[i..]) == tokens.Length
        && InBuffer(nameBuffer[..name], tokens[..tokenCount])
        && var before := old(Decoded(nameBuffer[..name0], tokens[..tokenCount]));
           ParseTokens(uri, source[i0..], before) == ParseTokens(uri, source[i..], Decoded(nameBuffer[..name], tokens[..tokenCount]))
      ensures error.Some? ==> forall before :: ParseTokens(uri, source[i0..], before) == PointerErr(error.value, |source| - i)
    {
      ghost var s, before := source[i0..], nameBuffer[..name0];
      i := i0 + 1;
      assert s[1..] == source[i..];
      var isNumber;
      i, name, isNumber, error := ReadName(uri, source, i, name0);
      if error.Some? {
        return;
      }
      assert nameBuffer[..name0] == before;
      FinishToken(name0, name, isNumber);
      name := name + 1;
    }

    /** `Parse`. Neither buffer is ever overrun, and on success the tokens fill theirs. */
    method Parse(source: Str)
      modifies this
      ensures Valid() && fresh(nameBuffer) && fresh(tokens)
      ensures nameBuffer.Length == |source| && parseErrorOffset <= |source|
      ensures parseErrorCode.None? ==> PointerText.Parse(source) == Tokens(Contents())
      ensures parseErrorCode.None? ==> tokenCount == tokens.Length
      ensures parseErrorCode.Some? ==>
        PointerText.Parse(source) == PointerErr(parseErrorCode.value, |source| - parseErrorOffset) && Contents() == []
    {
      var count := CountTokens(source);
      tokens := new Slot[count];
      nameBuffer := new Ch[|source|];
      tokenCount, parseErrorCode, parseErrorOffset := 0, None, 0;
      var i, name := 0, 0;
      var uri := Peek(source) == HASH;
      if uri {
        i := 1;
      }
      assert source[0..] == source;
      if i != |source| && source[i] != SLASH {
        parseErrorCode, parseErrorOffset := Some(TokenMustBeginWithSolidus), i;
        return;
      }
      while i < |source|
        invariant 0 <= name <= i <= |source| && nameBuffer.Length == |source| && fresh(nameBuffer) && fresh(tokens)
        invariant i == |source| || source[i] == SLASH
        invariant tokenCount + CountSolidus(source[i..]) == tokens.Length
        invariant InBuffer(nameBuffer[..name], tokens[..tokenCount])
        invariant PointerText.Parse(source) == ParseTokens(uri, source[i..], Decoded(nameBuffer[..name], tokens[..tokenCount]))
        invariant parseErrorCode.None? && parseErrorOffset == 0
        decreases |source| - i
      {
        var error;
        i, name, error := ReadToken(uri, source, i, name);
        if error.Some? {
          parseErrorCode, parseErrorOffset, tokenCount := error, i, 0;
          return;
        }
      }
      assert source[i..] == [];
      assert nameBuffer[..name] <= nameBuffer[..];
      DecodedGrows(nameBuffer[..name], nameBuffer[..], tokens[..tokenCount]);
    }
  }

  /** `PercentEncodeStream`. */
  method PutEncoded(os0: Str, bytes: Str) returns (os: Str)
    ensures os == os0 + PercentEncode(bytes)
  {
    os := os0;
    for k := 0 to |bytes|
      invariant os + PercentEncode(bytes[k..]) == os0 + PercentEncode(bytes)
    {
      assert bytes[k..][0] == bytes[k] && bytes[k..][1..] == bytes[k + 1..];
      var triplet := [PERCENT, StringCodec.HexChar(bytes[k] / 16), StringCodec.HexChar(bytes[k] % 16)];
      Regroup3(os, triplet, PercentEncode(bytes[k + 1..]));
      os := os + triplet;
    }
    assert bytes[|bytes|..] == [];
  }

  lemma ThenThen(a: Str, b: Str, c: Option<Str>)
    ensures Then(a, Then(b, c)) == Then(a + b, c)
  {
    if c.Some? {
      Regroup3(a, b, c.value);
    }
  }

  /** One unit of a name, or one UTF-8 sequence of it. */
  method PutUnit(uri: bool, os0: Str, name: Str) returns (os: Str, taken: nat, ok: bool)
    requires name != []
    ensures ok ==> 1 <= taken <= |name| && Then(os0, NameText(uri, name)) == Then(os, NameText(uri, name[taken..]))
    ensures !ok ==> NameText(uri, name).None?
  {
    var c := name[0];
    os, taken, ok := os0, 1, true;
    ghost var text := [c];
    if c == TILDE {
      text := [TILDE, ZERO];
      os := os + [TILDE, ZERO];
    } else if c == SLASH {
      text := [TILDE, ZERO + 1];
      os := os + [TILDE, ZERO + 1];
    } else if uri && NeedPercentEncode(c) {
      var v := Utf8.Validate(name);
      if !v.ok {
        return os, 0, false;
      }
      Utf8.ValidateIsDecode(name);
      assert |v.out| + |v.rest| == |v.out + v.rest| && name[|v.out|..] == v.rest;
      text := PercentEncode(v.out);
      os := PutEncoded(os, v.out);
      taken := |v.out|;
    } else {
      os := os + [c];
    }
    ThenThen(os0, text, NameText(uri, name[taken..]));
  }

  /** The inner loop of `Stringify`, over the units of one name. */
  method PutName(uri: bool, os0: Str, name: Str) returns (os: Str, ok: bool)
    ensures ok == NameText(uri, name).Some?
    ensures ok ==> Some(os) == Then(os0, NameText(uri, name))
  {
    os, ok := os0, true;
    var j := 0;
    assert name[0..] == name;
    while j < |name|
      invariant 0 <= j <= |name|
      invariant Then(os, NameText(uri, name[j..])) == Then(os0, NameText(uri, name))
    {
      var taken;
      os, taken, ok := PutUnit(uri, os, name[j..]);
      if !ok {
        return;
      }
      assert name[j..][taken..] == name[j + taken..];
      j := j + taken;
    }
    assert name[j..] == [];
    assert os + [] == os;
  }

  /** `Stringify`. */
  method Stringify(uri: bool, names: seq<Str>) returns (os: Str, ok: bool)
    ensures ok == PointerText.Stringify(uri, names).Some?
    ensures ok ==> PointerText.Stringify(uri, names) == Some(os)
  {
    os := if uri then [HASH] else [];
    assert names[0..] == names;
    for k := 0 to |names|
      invariant Then(os, TokensText(uri, names[k..])) == PointerText.Stringify(uri, names)
    {
      ghost var before, first := os, NameText(uri, names[k]);
      assert names[k..][0] == names[k] && names[k..][1..] == names[k + 1..];
      os := os + [SLASH];
      os, ok := PutName(uri, os, names[k]);
      if !ok {
        return;
      }
      ThenThen(before, [SLASH] + first.value, TokensText(uri, names[k + 1..]));
      Regroup3(before, [SLASH], first.value);
    }
    assert names[|names|..] == [];
    assert os + [] == os;
    ok := true;
  }

  /** The first loop of `Parse`. */
  method CountTokens(source: Str) returns (n: nat)
    ensures n == CountSolidus(source)
    ensures source != [] && source[0] != SLASH ==> n == CountSolidus(source[1..])
  {
    n := 0;
    for k := 0 to |source|
      invariant n + CountSolidus(source[k..]) == CountSolidus(source)
    {
      assert source[k..][0] == source[k] && source[k..][1..] == source[k + 1..];
      if source[k] == SLASH {
        n := n + 1;
      }
    }
  }

  lemma ReadFailed(name0: nat, after: Str, held: Str, first: Str)
    requires after == held && name0 <= |held| && first == after[..name0]
    ensures first == held[..name0]
  {
  }

  /** What a step appends to the buffer is appended to the name, and a name is digits when each part is. */
  lemma ReadSplits(name0: nat, after: Str, held: Str, r: Step, first: Str, name: Str)
    requires name0 <= |held|
    requires !r.StepErr? && after == held + if r.One? then [r.c] else r.bytes
    requires r.Several? ==> r.bytes != [] && r.bytes[0] >= 0x80
    requires first == after[..name0] && name == after[name0..]
    ensures first == held[..name0]
    ensures name == held[name0..] + if r.One? then [r.c] else r.bytes
    ensures AllDigits(name) <==> AllDigits(held[name0..]) && r.One? && IsDigit(r.c)
  {
    var more := if r.One? then [r.c] else r.bytes;
    assert name == held[name0..] + more;
    assert more[0] == name[|held| - name0];
    assert forall k :: 0 <= k < |held| - name0 ==> name[k] == held[name0..][k];
  }
}
