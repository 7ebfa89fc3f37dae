/** The integer codecs of include/hv/hmath.h: variable-length integers, and powers of two. */
module Varint {
  import opened Text

  /** 2^63: the values of a non-negative `long long` are below it. */
  const SIGN_LIMIT := 0x8000_0000_0000_0000

  const WORD_LIMIT := 0x1_0000_0000_0000_0000

  // ---------------------------------------------------------------------------------------------
  // Encoding
  // ---------------------------------------------------------------------------------------------

  /** Seven bits to a byte, the lowest first; all but the last byte have the high bit set. */
  function Encode(value: nat): (bytes: Str)
    ensures bytes != []
  {
    if value < 0x80 then [value] else [value % 0x80 + 0x80] + Encode(value / 0x80)
  }

  /** `varint_encode` of a non-negative value. */
  method EncodeValue(value0: nat) returns (buf: Str, bytes: nat)
    ensures buf == Encode(value0) && bytes == |buf|
  {
    var value, more := value0, true;
    buf, bytes := [], 0;
    while more
      invariant more ==> buf + Encode(value) == Encode(value0)
      invariant !more ==> buf == Encode(value0)
      invariant bytes == |buf|
      decreases value, more
    {
      var ch := value % 0x80;
      Regroup3(buf, [ch + 0x80], Encode(value / 0x80));
      value := value / 0x80;
      buf := buf + [if value == 0 then ch else ch + 0x80];
      bytes := bytes + 1;
      more := value != 0;
    }
  }

  function Power(n: nat): nat {
    if n == 0 then 1 else 0x80 * Power(n - 1)
  }

  lemma {:induction false} EncodedLength(value: nat, n: nat)
    requires n > 0 && value < Power(n)
    ensures |Encode(value)| <= n
  {
    if value >= 0x80 {
      assert n > 1 && value / 0x80 < Power(n - 1);
      EncodedLength(value / 0x80, n - 1);
    }
  }

  /** A value below 2^63 takes at most nine bytes. */
  lemma AtMostNine(value: nat)
    requires value < SIGN_LIMIT
    ensures |Encode(value)| <= 9
  {
    assert Power(9) == SIGN_LIMIT;
    EncodedLength(value, 9);
  }

  // ---------------------------------------------------------------------------------------------
  // Decoding
  // ---------------------------------------------------------------------------------------------

  /** What `varint_decode` returns and stores in `len`: 0 and 0, the value and its bytes, or -1. */
  datatype Decoded =
    | NotEnough
    | Found(value: int, bytes: nat)
    | NotFound(value: int)

  /** The `long long` of a 64-bit word. */
  function Signed(w: nat): int {
    if w < SIGN_LIMIT then w else w - WORD_LIMIT
  }

  /** The loop, with `bytes` bytes taken; seven bits more per byte, in 64 bits. */
  function DecodeFrom(buf: Str, bytes: nat, ret: nat): Decoded
    requires bytes < 10 && bytes <= |buf|
    decreases 10 - bytes
  {
    if bytes == |buf| then NotEnough
    else
      var next := (ret + buf[bytes] % 0x80 * Power(bytes)) % WORD_LIMIT;
      if buf[bytes] < 0x80 then Found(Signed(next), bytes + 1)
      else if bytes + 1 == 10 then NotFound(Signed(next))
      else DecodeFrom(buf, bytes + 1, next)
  }

  /** `varint_decode` with `*len` the length of the buffer. A length of 0 means no limit, so it is not that. */
  function Decode(buf: Str): Decoded
    requires buf != []
  {
    DecodeFrom(buf, 0, 0)
  }

  lemma DecodeByte(buf: Str, bytes: nat, ret: nat)
    requires bytes < 10 && bytes < |buf|
    ensures var next := (ret + buf[bytes] % 0x80 * Power(bytes)) % WORD_LIMIT;
            DecodeFrom(buf, bytes, ret)
            == if buf[bytes] < 0x80 then Found(Signed(next), bytes + 1)
               else if bytes + 1 == 10 then NotFound(Signed(next))
               else DecodeFrom(buf, bytes + 1, next)
  {
  }

  /** The memory holds a whole value, or as many bytes as are ever read. */
  predicate HasEnd(buf: Str) {
    |buf| >= 10 || exists k :: 0 <= k < |buf| && buf[k] < 0x80
  }

  /** `varint_decode`; a length of 0 is none, and then the memory must hold all that is read. */
  method DecodeValue(buf: Str, len: nat) returns (r: Decoded)
    requires len <= |buf| && (len == 0 ==> HasEnd(buf))
    ensures r == Decode(if len == 0 then buf else buf[..len])
  {
    hide Power, Signed;
    ghost var seen := if len == 0 then buf else buf[..len];
    var ret, bytes, p := 0, 0, 0;
    assert Decode(seen) == DecodeFrom(seen, 0, 0);
    hide Decode, DecodeFrom, HasEnd, GoesOn;
    NothingYet(seen);
    while bytes < 10
      invariant 0 <= bytes == p <= 10 && bytes <= |seen| && ret >= 0 && GoesOn(seen, bytes)
      invariant if bytes < 10 then Decode(seen) == DecodeFrom(seen, bytes, ret) else Decode(seen) == NotFound(Signed(ret))
    {
      if len != 0 && bytes == len {
        StopsShort(seen, ret);
        return NotEnough;
      }
      if len == 0 {
        MoreAhead(buf, bytes);
      }
      assert seen[bytes] == buf[p];
      DecodeByte(seen, bytes, ret);
      ret := (ret + buf[p] % 0x80 * Power(bytes)) % WORD_LIMIT;
      bytes := bytes + 1;
      if buf[p] < 0x80 {
        return Found(Signed(ret), bytes);
      }
      OneMore(seen, p);
      p := p + 1;
    }
    return NotFound(Signed(ret));
  }

  /** No byte has ended the value so far. */
  predicate GoesOn(buf: Str, bytes: nat) {
    bytes <= |buf| && forall k :: 0 <= k < bytes ==> buf[k] >= 0x80
  }

  lemma NothingYet(buf: Str)
    ensures GoesOn(buf, 0)
  {
  }

  lemma OneMore(buf: Str, bytes: nat)
    requires GoesOn(buf, bytes) && bytes < |buf| && buf[bytes] >= 0x80
    ensures GoesOn(buf, bytes + 1)
  {
  }

  lemma MoreAhead(buf: Str, bytes: nat)
    requires HasEnd(buf) && GoesOn(buf, bytes) && bytes < 10
    ensures bytes < |buf|
  {
  }

  lemma StopsShort(buf: Str, ret: nat)
    requires |buf| < 10
    ensures DecodeFrom(buf, |buf|, ret) == NotEnough
  {
  }

  // ---------------------------------------------------------------------------------------------
  // The round trip
  // ---------------------------------------------------------------------------------------------

  lemma {:induction false} PowersGrow(m: nat, n: nat)
    requires m <= n
    ensures 0 < Power(m) <= Power(n)
    decreases n
  {
    if m < n {
      PowersGrow(m, n - 1);
    } else if n > 0 {
      PowersGrow(m - 1, n - 1);
    }
  }

  lemma LastByte(buf: Str, n: nat, ret: nat, value: nat)
    requires n < 9 && n < |buf| && buf[n] == value < 0x80 && ret + value * Power(n) < SIGN_LIMIT
    ensures DecodeFrom(buf, n, ret) == Found(ret + value * Power(n), n + 1)
  {
    assert buf[n] % 0x80 == value;
  }

  lemma MiddleByte(buf: Str, n: nat, ret: nat, low: nat)
    requires n < 9 && n < |buf| && low < 0x80 && buf[n] == low + 0x80 && ret + low * Power(n) < WORD_LIMIT
    ensures DecodeFrom(buf, n, ret) == DecodeFrom(buf, n + 1, ret + low * Power(n))
  {
    hide Power;
    var next := ret + low * Power(n);
    assert buf[n] % 0x80 == low && next % WORD_LIMIT == next;
  }

  lemma NextDigit(ret: nat, low: nat, high: nat, n: nat)
    requires ret < Power(n) && low < 0x80 && n < 9
    ensures ret + low * Power(n) < Power(n + 1) <= SIGN_LIMIT
    ensures ret + (low + 0x80 * high) * Power(n) == (ret + low * Power(n)) + high * Power(n + 1)
  {
    var power := Power(n);
    assert low * power <= 0x7F * power;
    assert (low + 0x80 * high) * power == low * power + high * (0x80 * power);
    assert Power(9) == SIGN_LIMIT;
    PowersGrow(n + 1, 9);
  }

  /** Continued bytes, then one that is not. */
  predicate IsTerminated(bytes: Str) {
    bytes != [] && bytes[|bytes| - 1] < 0x80 && forall k :: 0 <= k < |bytes| - 1 ==> bytes[k] >= 0x80
  }

  function ValueOf(bytes: Str): nat {
    if bytes == [] then 0 else bytes[0] % 0x80 + 0x80 * ValueOf(bytes[1..])
  }

  lemma ValueSplits(bytes: Str)
    requires bytes != []
    ensures ValueOf(bytes) == bytes[0] % 0x80 + 0x80 * ValueOf(bytes[1..])
    ensures |bytes| == 1 ==> ValueOf(bytes[1..]) == 0
  {
  }

  /** Up to nine terminated bytes are read as the number they spell, whatever follows. */
  lemma {:induction false} DecodeTerminated(before: Str, bytes: Str, rest: Str, ret: nat)
    requires IsTerminated(bytes) && |before| + |bytes| <= 9 && ret < Power(|before|)
    ensures DecodeFrom(before + bytes + rest, |before|, ret)
         == Found(ret + ValueOf(bytes) * Power(|before|), |before| + |bytes|)
    decreases |bytes|
  {
    hide Power, DecodeFrom, ValueOf;
    var n, low, more := |before|, bytes[0] % 0x80, bytes[1..];
    var buf := before + bytes + rest;
    assert buf[n] == bytes[0];
    ValueSplits(bytes);
    NextDigit(ret, low, ValueOf(more), n);
    if |bytes| == 1 {
      LastByte(buf, n, ret, bytes[0]);
    } else {
      var head := before + [bytes[0]];
      assert buf == head + more + rest;
      assert IsTerminated(more) by {
        assert forall k :: 0 <= k < |more| ==> more[k] == bytes[k + 1];
      }
      DecodeTerminated(head, more, rest, ret + low * Power(n));
      MiddleByte(buf, n, ret, low);
    }
  }

  lemma {:induction false} EncodeIsTerminated(value: nat)
    ensures IsTerminated(Encode(value)) && ValueOf(Encode(value)) == value
    ensures value > 0 ==> Encode(value)[|Encode(value)| - 1] > 0
  {
    if value < 0x80 {
      assert ValueOf([value]) == value % 0x80 + 0x80 * ValueOf([]);
    } else {
      var more := Encode(value / 0x80);
      EncodeIsTerminated(value / 0x80);
      assert Encode(value)[1..] == more;
    }
  }

  lemma RoundTrip(value: nat, rest: Str)
    requires value < SIGN_LIMIT
    ensures Decode(Encode(value) + rest) == Found(value, |Encode(value)|)
  {
    AtMostNine(value);
    EncodeIsTerminated(value);
    assert Power(0) == 1 && Encode(value) + rest != [];
    hide Encode, ValueOf, IsTerminated, DecodeFrom, Power;
    DecodeTerminated([], Encode(value), rest, 0);
    assert [] + Encode(value) + rest == Encode(value) + rest;
    assert value * 1 == value;
  }

  /** A tenth byte is read too, its bits past the word lost. */
  lemma {:induction false} TenBytesAreRead(bytes: Str, n: nat, ret: nat)
    requires IsTerminated(bytes) && |bytes| == 10 && n < 10
    ensures var r := DecodeFrom(bytes, n, ret);
            r.Found? && r.bytes == 10 && r.value < SIGN_LIMIT
    decreases 10 - n
  {
    hide Power, DecodeFrom;
    DecodeByte(bytes, n, ret);
    if n < 9 {
      TenBytesAreRead(bytes, n + 1, (ret + bytes[n] % 0x80 * Power(n)) % WORD_LIMIT);
    }
  }

  /**
   * Decoding accepts more than encodings: terminated bytes, of which up to ten are read, are the encoding of what
   * they decode to if and only if they are at most nine, and are one byte or do not end in a byte of 0.
   */
  lemma IsEncodingIff(bytes: Str)
    requires IsTerminated(bytes) && |bytes| <= 10
    ensures Decode(bytes).Found? && Decode(bytes).bytes == |bytes|
    ensures |bytes| <= 9 ==> Decode(bytes).value == ValueOf(bytes)
    ensures var value := Decode(bytes).value;
            (value >= 0 && bytes == Encode(value)) <==> |bytes| <= 9 && (|bytes| == 1 || bytes[|bytes| - 1] != 0)
  {
    hide Encode, ValueOf, DecodeFrom;
    if |bytes| == 10 {
      TenBytesAreRead(bytes, 0, 0);
      if Decode(bytes).value >= 0 {
        AtMostNine(Decode(bytes).value);
      }
    } else {
      DecodesToValue(bytes);
      if |bytes| == 1 {
        OneByteIsEncoding(bytes);
      } else if bytes[|bytes| - 1] != 0 {
        LongIsEncoding(bytes);
      } else {
        NoZeroAtEnd(ValueOf(bytes));
      }
    }
  }

  /** Nine continued bytes and a 2: the tenth byte's bit is lost, and what is left is 0. */
  lemma LostBitIsRead()
    ensures var bytes := [0x80, 0x80, 0x80, 0x80, 0x80, 0x80, 0x80, 0x80, 0x80, 2];
            Decode(bytes) == Found(0, 10) && bytes[|bytes| - 1] != 0 && Encode(0) == [0]
  {
    var bytes: Str := [0x80, 0x80, 0x80, 0x80, 0x80, 0x80, 0x80, 0x80, 0x80, 2];
    assert 2 * Power(9) == WORD_LIMIT && Encode(0) == [0];
    assert Decode(bytes) == DecodeFrom(bytes, 0, 0);
    hide Power, DecodeFrom, Decode, Encode;
    NothingSoFar(bytes, 0);
    DecodeByte(bytes, 9, 0);
  }

  lemma {:induction false} NothingSoFar(bytes: Str, n: nat)
    requires |bytes| == 10 && n <= 9 && forall k :: n <= k < 9 ==> bytes[k] == 0x80
    ensures DecodeFrom(bytes, n, 0) == DecodeFrom(bytes, 9, 0)
    decreases 9 - n
  {
    if n < 9 {
      hide DecodeFrom;
      NothingInByte(bytes, n);
      NothingSoFar(bytes, n + 1);
    }
  }

  lemma NothingInByte(bytes: Str, n: nat)
    requires n < 9 && n < |bytes| && bytes[n] == 0x80
    ensures DecodeFrom(bytes, n, 0) == DecodeFrom(bytes, n + 1, 0)
  {
    hide Power, DecodeFrom, Signed;
    DecodeByte(bytes, n, 0);
    NoTimes(Power(n));
  }

  lemma NoTimes(n: nat)
    ensures 0 * n == 0 && 0x80 % 0x80 == 0
  {
  }

  /** Only the encoding of 0 ends in a byte of 0, and it is that byte alone. */
  lemma NoZeroAtEnd(value: nat)
    ensures |Encode(value)| > 0 && (|Encode(value)| > 1 ==> Encode(value)[|Encode(value)| - 1] != 0)
  {
    EncodeIsTerminated(value);
    if value == 0 {
      assert |Encode(0)| == 1;
    }
  }

  /** A byte of 0 that was continued: two bytes that decode to 0, which is encoded in one. */
  lemma PaddedZeroIsRead()
    ensures Decode([0x80, 0]) == Found(0, 2) && Encode(0) == [0]
  {
    assert ValueOf([0x80, 0]) == 0 + 0x80 * ValueOf([0x80, 0][1..]) && [0x80, 0][1..] == [0];
    assert ValueOf([0]) == 0 + 0x80 * ValueOf([0][1..]);
    DecodesToValue([0x80, 0]);
  }

  lemma DecodesToValue(bytes: Str)
    requires IsTerminated(bytes) && |bytes| <= 9
    ensures Decode(bytes) == Found(ValueOf(bytes), |bytes|)
  {
    assert Decode(bytes) == DecodeFrom(bytes, 0, 0) && Power(0) == 1;
    hide *;
    DecodeTerminated([], bytes, [], 0);
    assert [] + bytes + [] == bytes;
    assert ValueOf(bytes) * 1 == ValueOf(bytes);
  }

  lemma OneByteIsEncoding(bytes: Str)
    requires IsTerminated(bytes) && |bytes| == 1
    ensures bytes == Encode(ValueOf(bytes))
  {
    assert ValueOf(bytes) == bytes[0] + 0x80 * ValueOf(bytes[1..]);
  }

  lemma {:induction false} LongIsEncoding(bytes: Str)
    requires IsTerminated(bytes) && bytes[|bytes| - 1] != 0
    ensures bytes == Encode(ValueOf(bytes)) && ValueOf(bytes) > 0
    decreases |bytes|
  {
    var more := bytes[1..];
    assert bytes == [bytes[0]] + more;
    if |bytes| == 1 {
      assert ValueOf(more) == 0;
    } else {
      LongIsEncoding(more);
      assert ValueOf(bytes) / 0x80 == ValueOf(more) && ValueOf(bytes) % 0x80 == bytes[0] % 0x80;
    }
  }

  /** A non-empty proper prefix of an encoding is reported as not enough. */
  lemma {:induction false} PrefixIsNotEnough(value: nat, before: Str, k: nat, ret: nat)
    requires |before| <= k < |before| + |Encode(value)| <= 9
    ensures DecodeFrom((before + Encode(value))[..k], |before|, ret) == NotEnough
    decreases value
  {
    var n := |before|;
    var buf := (before + Encode(value))[..k];
    if k > n {
      assert value >= 0x80 && buf[n] == value % 0x80 + 0x80;
      var head := before + [value % 0x80 + 0x80];
      assert before + Encode(value) == head + Encode(value / 0x80);
      PrefixIsNotEnough(value / 0x80, head, k, (ret + buf[n] % 0x80 * Power(n)) % WORD_LIMIT);
    }
  }

  lemma PartIsNotEnough(value: nat, k: nat)
    requires value < SIGN_LIMIT && 0 < k < |Encode(value)|
    ensures Decode(Encode(value)[..k]) == NotEnough
  {
    AtMostNine(value);
    assert [] + Encode(value) == Encode(value);
    PrefixIsNotEnough(value, [], k, 0);
  }

  // ---------------------------------------------------------------------------------------------
  // Streams
  // ---------------------------------------------------------------------------------------------

  predicate AreValues(values: seq<nat>) {
    forall k :: 0 <= k < |values| ==> values[k] < SIGN_LIMIT
  }

  function EncodeAll(values: seq<nat>): Str {
    if values == [] then [] else Encode(values[0]) + EncodeAll(values[1..])
  }

  /** Decoding again and again, each time from after the bytes taken, while bytes are left. */
  function DecodeAll(buf: Str): Option<seq<int>>
    decreases |buf|
  {
    if buf == [] then Some([])
    else
      var d := Decode(buf);
      if !d.Found? || d.bytes > |buf| || d.bytes == 0 then None
      else
        var more := DecodeAll(buf[d.bytes..]);
        if more.None? then None else Some([d.value] + more.value)
  }

  lemma EncodeStep(values: seq<nat>)
    requires values != []
    ensures EncodeAll(values) == Encode(values[0]) + EncodeAll(values[1..])
  {
  }

  lemma DecodeStep(buf: Str)
    requires buf != [] && Decode(buf).Found? && 0 < Decode(buf).bytes <= |buf|
    ensures var more := DecodeAll(buf[Decode(buf).bytes..]);
            DecodeAll(buf) == if more.None? then None else Some([Decode(buf).value] + more.value)
  {
  }

  /** Repeated decoding gives the values back and takes exactly the bytes written. */
  lemma {:induction false} StreamRoundTrip(values: seq<nat>)
    requires AreValues(values)
    ensures DecodeAll(EncodeAll(values)) == Some(values)
    decreases |values|
  {
    if values != [] {
      hide Encode, Decode, DecodeAll, EncodeAll;
      var first, rest := Encode(values[0]), EncodeAll(values[1..]);
      RoundTrip(values[0], rest);
      StreamRoundTrip(values[1..]);
      assert EncodeAll(values) == first + rest by { EncodeStep(values); }
      assert (first + rest)[|first|..] == rest;
      DecodeStep(first + rest);
      assert [values[0]] + values[1..] == values;
    }
  }

  // ---------------------------------------------------------------------------------------------
  // Powers of two
  // ---------------------------------------------------------------------------------------------

  function Two(e: nat): nat {
    if e == 0 then 1 else 2 * Two(e - 1)
  }

  lemma {:induction false} TwosGrow(d: nat, e: nat)
    requires d <= e
    ensures 0 < Two(d) <= Two(e)
    decreases e
  {
    if d < e {
      TwosGrow(d, e - 1);
    } else if e > 0 {
      TwosGrow(d - 1, e - 1);
    }
  }

  /** How often a number can be halved before it is 1. */
  function Log(n: nat): (e: nat)
    requires n > 0
    ensures Two(e) <= n < 2 * Two(e)
  {
    if n == 1 then 0 else Log(n / 2) + 1
  }

  /** The loop `while (n>>=1) ++e`. */
  method Halvings(num: nat, e0: nat) returns (e: nat)
    ensures e == e0 + if num == 0 then 0 else Log(num)
  {
    var n := num / 2;
    e := e0;
    while n != 0
      invariant 0 <= n
      invariant e0 + (if num == 0 then 0 else Log(num)) == e + if n == 0 then 0 else Log(n) + 1
      decreases n
    {
      e := e + 1;
      n := n / 2;
    }
  }

  /** The loop `while (e--) ret<<=1`, in 64 bits. */
  method ShiftedOne(e0: nat) returns (ret: nat)
    ensures ret == if e0 < 64 then Two(e0) else 0
  {
    var e := e0;
    ret := 1;
    while e > 0
      invariant 0 <= e <= e0 && ret == if e0 - e < 64 then Two(e0 - e) else 0
    {
      TwosGrow(0, e0 - e);
      TwosBelow(e0 - e);
      ret := ret * 2 % WORD_LIMIT;
      e := e - 1;
    }
  }

  lemma {:induction false} TwosMultiply(d: nat, e: nat)
    ensures Two(d + e) == Two(d) * Two(e)
  {
    if d > 0 {
      TwosMultiply(d - 1, e);
    }
  }

  lemma TwosBelow(e: nat)
    ensures Two(64) == WORD_LIMIT && Two(63) == SIGN_LIMIT
    ensures e < 63 ==> Two(e) < SIGN_LIMIT
  {
    assert Two(6) == 0x40 && Two(7) == 0x80;
    TwosMultiply(7, 7);
    TwosMultiply(14, 14);
    TwosMultiply(28, 28);
    TwosMultiply(6, 56);
    assert Two(63) == 2 * Two(62) && Two(64) == 2 * Two(63);
    if e < 63 {
      TwosGrow(e, 62);
    }
  }

  /** `floor2e`: the largest power of two not above `num`. */
  method Floor2e(num: nat) returns (ret: nat)
    requires num < WORD_LIMIT
    ensures exists e :: ret == Two(e)
    ensures if num == 0 then ret == 1 else ret <= num < 2 * ret
  {
    var e := Halvings(num, 0);
    LogBelow(num);
    ret := ShiftedOne(e);
  }

  lemma LogBelow(num: nat)
    requires num < WORD_LIMIT
    ensures num > 0 ==> Log(num) < 64
  {
    if num > 0 && Log(num) >= 64 {
      TwosBelow(0);
      TwosGrow(64, Log(num));
    }
  }

  /** `ceil2e`: the smallest power of two not below `num`, exactly when there is one in 64 bits; else 0. */
  method Ceil2e(num: nat) returns (ret: nat)
    requires num < WORD_LIMIT
    ensures num <= SIGN_LIMIT <==> ret != 0
    ensures ret != 0 ==> num <= ret && (exists e :: ret == Two(e)) && if num <= 1 then ret == 1 else ret < 2 * num
  {
    TwosBelow(0);
    if num == 0 || num == 1 {
      assert Two(0) == 1;
      return 1;
    }
    var e := Halvings(num - 1, 1);
    ret := ShiftedOne(e);
    CeilFits(num, e);
    TwosGrow(0, e);
  }

  lemma CeilFits(num: nat, e: nat)
    requires 1 < num < WORD_LIMIT && e == Log(num - 1) + 1
    ensures num <= Two(e) < 2 * num
    ensures e < 64 <==> num <= SIGN_LIMIT
  {
    TwosBelow(0);
    if e >= 64 {
      TwosGrow(63, e - 1);
    } else {
      TwosGrow(e, 63);
    }
  }
}
