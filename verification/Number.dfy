/**
 * Reading numbers: ParseNumber of include/rapidjson/reader.h, on a 64-bit machine and without the
 * NaN and numbers-as-strings options. Converting the digits to a double is a parameter: what is kept
 * of the accumulator `d` is whether it is positive, which the fraction loop tests.
 */
module Number {
  import opened Text
  import opened ParseTypes

  const INT32_MAX := 0x7FFF_FFFF
  const UINT32_MAX := 0xFFFF_FFFF
  const INT64_MAX := 0x7FFF_FFFF_FFFF_FFFF
  const UINT64_MAX := 0xFFFF_FFFF_FFFF_FFFF

  function Digit(c: Ch): nat
    requires IsDigit(c)
  {
    c - ZERO
  }

  // ---------------------------------------------------------------------------------------------
  // Integer part
  // ---------------------------------------------------------------------------------------------

  datatype Accumulated = Accumulated(value: nat, significant: nat, rest: Str, stopped: bool)

  /**
   * The four integer loops. They take digits while `value` can take one more without passing
   * `limit` followed by the digit `last`, and are `stopped` when it cannot.
   */
  function Accumulate(value: nat, significant: nat, limit: nat, last: Ch, s: Str): (a: Accumulated)
    requires IsDigit(last)
    ensures |a.rest| <= |s|
    ensures value <= limit * 10 + Digit(last) ==> a.value <= limit * 10 + Digit(last)
    ensures a.significant + |a.rest| == significant + |s|
    decreases |s|
  {
    var c := Peek(s);
    if !IsDigit(c) then Accumulated(value, significant, s, false)
    else if value >= limit && (value != limit || c > last) then Accumulated(value, significant, s, true)
    else Accumulate(value * 10 + Digit(c), significant + 1, limit, last, s[1..])
  }

  function SkipDigits(s: Str): (rest: Str)
    ensures |rest| <= |s|
  {
    if IsDigit(Peek(s)) then SkipDigits(s[1..]) else s
  }

  function Limit32(minus: bool): nat {
    if minus then 214748364 else 429496729
  }

  function Limit64(minus: bool): nat {
    if minus then 0x0CCC_CCCC_CCCC_CCCC else 0x1999_9999_9999_9999
  }

  /** The last digit after the limit: 2^31 and 2^63 end in 8, 2^32 - 1 and 2^64 - 1 in 5. */
  function LastDigit(minus: bool): Ch {
    if minus then 0x38 else 0x35
  }

  datatype Integer =
    | BadInteger(at: nat)
    | Integer(minus: bool, value: nat, use64bit: bool, useDouble: bool, significant: nat, rest: Str)

  /** The digits of the integer part, after its sign. */
  function ScanMagnitude(minus: bool, s: Str): (n: Integer)
    ensures n.Integer? ==> |n.rest| < |s| && n.significant + |n.rest| <= |s| && n.minus == minus
    ensures n.Integer? ==> n.value <= UINT64_MAX && (!n.use64bit ==> n.value <= UINT32_MAX && !n.useDouble)
    ensures n.BadInteger? ==> n.at == |s|
  {
    if Peek(s) == ZERO then Integer(minus, 0, false, false, 0, s[1..])
    else if IsDigit(Peek(s)) then
      var a := Accumulate(Digit(s[0]), 0, Limit32(minus), LastDigit(minus), s[1..]);
      if !a.stopped then Integer(minus, a.value, false, false, a.significant, a.rest)
      else
        var b := Accumulate(a.value, a.significant, Limit64(minus), LastDigit(minus), a.rest);
        Integer(minus, b.value, true, b.stopped, b.significant, if b.stopped then SkipDigits(b.rest) else b.rest)
    else BadInteger(|s|)
  }

  function ScanInteger(s: Str): (n: Integer)
    ensures n.Integer? ==> |n.rest| < |s| && n.significant + |n.rest| <= |s|
    ensures n.Integer? ==> n.value <= UINT64_MAX && (!n.use64bit ==> n.value <= UINT32_MAX && !n.useDouble)
    ensures n.BadInteger? ==> n.at <= |s|
  {
    if Peek(s) == MINUS then ScanMagnitude(true, s[1..]) else ScanMagnitude(false, s)
  }

  // ---------------------------------------------------------------------------------------------
  // Fraction
  // ---------------------------------------------------------------------------------------------

  datatype Fraction =
    | MissFraction(at: nat)
    | Fraction(useDouble: bool, expFrac: int, rest: Str)

  /** Fraction digits taken into the 64-bit significand while it is at most 2^53 - 1. */
  function FastFraction(value: nat, expFrac: int, significant: nat, s: Str): (r: (nat, int, nat, Str))
    ensures |r.3| <= |s| && r.1 - |r.3| == expFrac - |s|
    ensures value <= UINT64_MAX ==> r.0 <= UINT64_MAX
    decreases |s|
  {
    if !IsDigit(Peek(s)) || value > 0x1F_FFFF_FFFF_FFFF then (value, expFrac, significant, s)
    else
      var v := value * 10 + Digit(s[0]);
      FastFraction(v, expFrac - 1, if v != 0 then significant + 1 else significant, s[1..])
  }

  /** Fraction digits taken into the double, up to 17 significant digits; the others are dropped. */
  function SlowFraction(positive: bool, expFrac: int, significant: nat, s: Str): (r: (int, Str))
    ensures |r.1| <= |s| && expFrac - (|s| - |r.1|) <= r.0 <= expFrac
    decreases |s|
  {
    if !IsDigit(Peek(s)) then (expFrac, s)
    else if significant < 17 then
      var p := positive || s[0] != ZERO;
      SlowFraction(p, expFrac - 1, if p then significant + 1 else significant, s[1..])
    else SlowFraction(positive, expFrac, significant, s[1..])
  }

  function ScanFraction(n: Integer): (r: Fraction)
    requires n.Integer?
    ensures r.Fraction? ==> |r.rest| <= |n.rest| && -|n.rest| <= r.expFrac <= 0
    ensures r.MissFraction? ==> r.at <= |n.rest|
  {
    if Peek(n.rest) != DOT then Fraction(n.useDouble, 0, n.rest)
    else if !IsDigit(Peek(n.rest[1..])) then MissFraction(|n.rest| - 1)
    else
      var fast := if n.useDouble then (n.value, 0, n.significant, n.rest[1..]) else FastFraction(n.value, 0, n.significant, n.rest[1..]);
      var slow := SlowFraction(n.useDouble || fast.0 > 0, fast.1, fast.2, fast.3);
      Fraction(true, slow.0, slow.1)
  }

  // ---------------------------------------------------------------------------------------------
  // Exponent
  // ---------------------------------------------------------------------------------------------

  datatype Exponent =
    | MissExponent(at: nat)
    | ExponentTooBig
    | Exponent(exp: int, rest: Str)

  /** C's division by ten, which truncates toward zero. */
  function DivTen(x: int): int {
    if x >= 0 then x / 10 else -(-x / 10)
  }

  /** Digits of a positive exponent: an error as soon as it passes `maxExp`. */
  function PositiveExponent(exp: int, maxExp: int, s: Str): (r: Exponent)
    ensures r.Exponent? ==> |r.rest| <= |s|
    ensures !r.MissExponent?
    decreases |s|
  {
    if !IsDigit(Peek(s)) then Exponent(exp, s)
    else
      var e := exp * 10 + Digit(s[0]);
      if e > maxExp then ExponentTooBig else PositiveExponent(e, maxExp, s[1..])
  }

  /** Digits of a negative exponent: those after it has passed `maxExp` are skipped. */
  function NegativeExponent(exp: int, maxExp: int, s: Str): (r: Exponent)
    ensures r.Exponent? && |r.rest| <= |s|
    decreases |s|
  {
    if !IsDigit(Peek(s)) then Exponent(exp, s)
    else
      var e := exp * 10 + Digit(s[0]);
      NegativeExponent(e, maxExp, if e > maxExp then SkipDigits(s[1..]) else s[1..])
  }

  predicate IsExponentMark(c: Ch) {
    c == 0x65 || c == 0x45
  }

  /** The exponent, from after its letter. */
  function ScanExponent(expFrac: int, s: Str): (r: Exponent)
    ensures r.Exponent? ==> |r.rest| <= |s|
    ensures r.MissExponent? ==> r.at <= |s|
  {
    var minus := Peek(s) == MINUS;
    var s1 := if Peek(s) == PLUS || minus then s[1..] else s;
    if !IsDigit(Peek(s1)) then MissExponent(|s1|)
    else if minus then
      var r := NegativeExponent(Digit(s1[0]), DivTen(expFrac + 2147483639), s1[1..]);
      Exponent(-r.exp, r.rest)
    else PositiveExponent(Digit(s1[0]), 308 - expFrac, s1[1..])
  }

  // ---------------------------------------------------------------------------------------------
  // The number
  // ---------------------------------------------------------------------------------------------

  datatype NumberResult =
    | NumberOk(event: Event, rest: Str)
    | NumberErr(code: ErrorCode, at: nat)

  /** `~x + 1` in an unsigned word of `modulus` values. */
  function Negate(x: nat, modulus: nat): nat
    requires x < modulus
  {
    (modulus - x) % modulus
  }

  /** A word reinterpreted as signed. */
  function Signed(x: nat, modulus: nat): int
    requires x < modulus && modulus % 2 == 0
  {
    if x < modulus / 2 then x else x - modulus
  }

  function IntegerEvent(n: Integer): Event
    requires n.Integer? && n.value <= UINT64_MAX && (!n.use64bit ==> n.value <= UINT32_MAX)
  {
    if n.use64bit then
      if n.minus then Int64Event(Signed(Negate(n.value, UINT64_MAX + 1), UINT64_MAX + 1)) else Uint64Event(n.value)
    else
      if n.minus then IntEvent(Signed(Negate(n.value, UINT32_MAX + 1), UINT32_MAX + 1)) else UintEvent(n.value)
  }

  /** `ParseNumber`. */
  function ParseNumber(f: Flags, s: Str): (r: NumberResult)
    ensures r.NumberOk? ==> |r.rest| < |s|
    ensures r.NumberErr? ==> r.at <= |s|
  {
    var n := ScanInteger(s);
    if n.BadInteger? then NumberErr(ValueInvalid, n.at)
    else
      var frac := ScanFraction(n);
      if frac.MissFraction? then NumberErr(NumberMissFraction, frac.at)
      else if !IsExponentMark(Peek(frac.rest)) then Finish(f, s, n, frac.useDouble, frac.rest)
      else
        match ScanExponent(frac.expFrac, frac.rest[1..])
        case MissExponent(at) => NumberErr(NumberMissExponent, at)
        case ExponentTooBig => NumberErr(NumberTooBig, |s|)
        case Exponent(_, rest) => Finish(f, s, n, true, rest)
  }

  /** The text of a number without its sign: what has been taken from `s` up to `rest`. */
  function Taken(minus: bool, s: Str, rest: Str): Str
    requires |rest| < |s|
  {
    s[if minus then 1 else 0..|s| - |rest|]
  }

  function Finish(f: Flags, s: Str, n: Integer, useDouble: bool, rest: Str): (r: NumberResult)
    requires n.Integer? && n == ScanInteger(s) && |rest| < |s|
    ensures r.NumberOk? ==> r.rest == rest
    ensures r.NumberErr? ==> r.at <= |s|
  {
    if !useDouble then
      NumberOk(IntegerEvent(n), rest)
    else
      var m := f.strtod(n.minus, Taken(n.minus, s, rest));
      if m == INFINITY then NumberErr(NumberTooBig, |s|) else NumberOk(DoubleEvent(WithSign(n.minus, m)), rest)
  }

  // ---------------------------------------------------------------------------------------------
  // Exactness of integers
  // ---------------------------------------------------------------------------------------------

  predicate AllDigits(ds: Str) {
    forall k :: 0 <= k < |ds| ==> IsDigit(ds[k])
  }

  /** The value of the digits `ds` written after those of `value`. */
  function ValueOf(value: nat, ds: Str): (v: nat)
    requires AllDigits(ds)
    ensures v >= value
    decreases |ds|
  {
    if ds == [] then value else ValueOf(value * 10 + Digit(ds[0]), ds[1..])
  }

  function Ten(n: nat): (p: nat)
    ensures p > 0
  {
    if n == 0 then 1 else 10 * Ten(n - 1)
  }

  lemma {:induction false} ValueOfJoin(value: nat, a: Str, b: Str)
    requires AllDigits(a) && AllDigits(b)
    ensures AllDigits(a + b) && ValueOf(value, a + b) == ValueOf(ValueOf(value, a), b)
    decreases |a|
  {
    if a == [] {
      assert a + b == b;
    } else {
      assert (a + b)[0] == a[0] && (a + b)[1..] == a[1..] + b;
      ValueOfJoin(value * 10 + Digit(a[0]), a[1..], b);
    }
  }

  /** A digit loop reads the value exactly, or stops because the value is past its bound. */
  lemma {:induction false} AccumulateIsExact(value: nat, significant: nat, limit: nat, last: Ch, ds: Str, post: Str)
      returns (left: Str)
    requires IsDigit(last) && AllDigits(ds) && !IsDigit(Peek(post))
    requires value <= limit * 10 + Digit(last)
    ensures AllDigits(left)
    ensures var a := Accumulate(value, significant, limit, last, ds + post);
            && a.rest == left + post
            && ValueOf(a.value, left) == ValueOf(value, ds)
            && (a.stopped <==> ValueOf(value, ds) > limit * 10 + Digit(last))
            && (!a.stopped ==> left == [])
    decreases |ds|
  {
    var s := ds + post;
    if ds == [] {
      assert s == post;
      left := [];
      assert left + post == post;
    } else {
      assert s[0] == ds[0] && s[1..] == ds[1..] + post;
      if value >= limit && (value != limit || s[0] > last) {
        assert ValueOf(value, ds) >= value * 10 + Digit(ds[0]);
        left := ds;
      } else {
        left := AccumulateIsExact(value * 10 + Digit(ds[0]), significant + 1, limit, last, ds[1..], post);
      }
    }
  }

  /** `int = zero / ( digit1-9 *DIGIT )` (RFC 8259 section 6). */
  predicate IsCanonical(ds: Str) {
    ds != [] && AllDigits(ds) && (ds[0] == ZERO ==> |ds| == 1)
  }

  /** What may not follow an integer for it to stay one. */
  predicate EndsInteger(post: Str) {
    !IsDigit(Peek(post)) && Peek(post) != DOT && !IsExponentMark(Peek(post))
  }

  function Literal(minus: bool, ds: Str): Str {
    if minus then [MINUS] + ds else ds
  }

  /** The largest magnitude a 64-bit integer of that sign can have. */
  function MaxMagnitude64(minus: bool): nat {
    if minus then INT64_MAX + 1 else UINT64_MAX
  }

  function MaxMagnitude32(minus: bool): nat {
    if minus then INT32_MAX + 1 else UINT32_MAX
  }

  /** The event the reader owes an integer of at most 64 bits: the narrowest of the sign. */
  function EventFor(minus: bool, magnitude: nat): Event {
    var i: int := magnitude;
    if magnitude <= MaxMagnitude32(minus) then
      if minus then IntEvent(-i) else UintEvent(i)
    else
      if minus then Int64Event(-i) else Uint64Event(i)
  }

  lemma LongMagnitudeIsExact(minus: bool, ds: Str, post: Str)
    requires IsCanonical(ds) && ds[0] != ZERO && !IsDigit(Peek(post))
    ensures var n := ScanMagnitude(minus, ds + post);
            var v := ValueOf(0, ds);
            && n.Integer? && n.rest == post
            && (n.useDouble <==> v > MaxMagnitude64(minus))
            && (!n.useDouble ==> n.value == v)
            && (n.use64bit <==> v > MaxMagnitude32(minus))
  {
    var a, left := NarrowMagnitudeIsExact(minus, ds, post);
    hide Accumulate, ValueOf, SkipDigits, ScanMagnitude, AllDigits, IsCanonical;
    if a.stopped {
      WideMagnitudeIsExact(minus, a.value, a.significant, left, post);
    } else {
      assert ValueOf(a.value, left) == a.value && left + post == post by { NoDigits(a.value, post); }
    }
  }

  lemma NoDigits(value: nat, post: Str)
    ensures ValueOf(value, []) == value && [] + post == post
  {
  }

  /** The loop with a 32-bit accumulator, and what is done after it. */
  lemma NarrowMagnitudeIsExact(minus: bool, ds: Str, post: Str) returns (a: Accumulated, left: Str)
    requires IsCanonical(ds) && ds[0] != ZERO && !IsDigit(Peek(post))
    ensures AllDigits(left) && a.rest == left + post && a.value <= UINT32_MAX
    ensures ValueOf(a.value, left) == ValueOf(0, ds)
    ensures (a.stopped <==> ValueOf(0, ds) > MaxMagnitude32(minus)) && (!a.stopped ==> left == [])
    ensures var b := Accumulate(a.value, a.significant, Limit64(minus), LastDigit(minus), a.rest);
            ScanMagnitude(minus, ds + post) ==
              if !a.stopped then Integer(minus, a.value, false, false, a.significant, a.rest)
              else Integer(minus, b.value, true, b.stopped, b.significant, if b.stopped then SkipDigits(b.rest) else b.rest)
  {
    var s := ds + post;
    var first := Digit(ds[0]);
    assert s[0] == ds[0] && s[1..] == ds[1..] + post;
    assert ValueOf(0, ds) == ValueOf(first, ds[1..]);
    hide Accumulate, ValueOf, SkipDigits;
    left := AccumulateIsExact(first, 0, Limit32(minus), LastDigit(minus), ds[1..], post);
    a := Accumulate(first, 0, Limit32(minus), LastDigit(minus), s[1..]);
  }

  /** The loops that go on with a 64-bit accumulator. */
  lemma WideMagnitudeIsExact(minus: bool, value: nat, significant: nat, ds: Str, post: Str)
    requires AllDigits(ds) && !IsDigit(Peek(post)) && value <= UINT32_MAX
    ensures var b := Accumulate(value, significant, Limit64(minus), LastDigit(minus), ds + post);
            && (if b.stopped then SkipDigits(b.rest) else b.rest) == post
            && (b.stopped <==> ValueOf(value, ds) > MaxMagnitude64(minus))
            && (!b.stopped ==> b.value == ValueOf(value, ds))
  {
    var left := AccumulateIsExact(value, significant, Limit64(minus), LastDigit(minus), ds, post);
    hide Accumulate, SkipDigits;
    assert [] + post == post;
    SkipDigitsSkips(left, post);
  }

  lemma ScanIntegerIsExact(minus: bool, ds: Str, post: Str)
    requires IsCanonical(ds) && (IsDigit(Peek(post)) ==> ds == [ZERO])
    ensures var n := ScanInteger(Literal(minus, ds) + post);
            var v := ValueOf(0, ds);
            && n.Integer? && n.minus == minus && n.rest == post
            && (n.useDouble <==> v > MaxMagnitude64(minus))
            && (!n.useDouble ==> n.value == v)
            && (n.use64bit <==> v > MaxMagnitude32(minus))
  {
    var s := Literal(minus, ds) + post;
    var s1 := ds + post;
    assert s1[0] == ds[0];
    assert minus ==> s[0] == MINUS && s[1..] == s1;
    assert ScanInteger(s) == ScanMagnitude(minus, s1);
    if ds[0] == ZERO {
      assert ds == [ZERO] && s1[1..] == post;
      assert ValueOf(0, ds) == ValueOf(0, ds[1..]);
    } else {
      LongMagnitudeIsExact(minus, ds, post);
    }
  }

  lemma {:induction false} SkipDigitsSkips(ds: Str, post: Str)
    requires AllDigits(ds) && !IsDigit(Peek(post))
    ensures SkipDigits(ds + post) == post
  {
    if ds == [] {
      assert ds + post == post;
    } else {
      assert (ds + post)[0] == ds[0] && (ds + post)[1..] == ds[1..] + post;
      SkipDigitsSkips(ds[1..], post);
    }
  }

  /**
   * An integer literal is reported as an integer, with its exact value, if and only if it fits 64
   * bits; otherwise it is reported as a double.
   */
  lemma IntegersAreExact(f: Flags, minus: bool, ds: Str, post: Str)
    requires IsCanonical(ds) && EndsInteger(post)
    ensures var v := ValueOf(0, ds);
            var r := ParseNumber(f, Literal(minus, ds) + post);
            && (v <= MaxMagnitude64(minus) ==> r == NumberOk(EventFor(minus, v), post))
            && (v > MaxMagnitude64(minus) ==>
                  r == if f.strtod(minus, ds) == INFINITY then NumberErr(NumberTooBig, |Literal(minus, ds)| + |post|)
                       else NumberOk(DoubleEvent(WithSign(minus, f.strtod(minus, ds))), post))
  {
    ScanIntegerIsExact(minus, ds, post);
    var s := Literal(minus, ds) + post;
    var n := ScanInteger(s);
    assert ParseNumber(f, s) == Finish(f, s, n, n.useDouble, post);
    if n.useDouble {
      assert Taken(minus, s, post) == ds;
    } else {
      IntegerEventIsExact(n);
    }
  }

  /** The two's-complement negations of the source give back the value with its sign. */
  lemma IntegerEventIsExact(n: Integer)
    requires n.Integer? && n.value <= MaxMagnitude64(n.minus)
    requires n.use64bit <==> n.value > MaxMagnitude32(n.minus)
    ensures IntegerEvent(n) == EventFor(n.minus, n.value)
  {
  }

  // ---------------------------------------------------------------------------------------------
  // Exponent arithmetic in a 32-bit int
  // ---------------------------------------------------------------------------------------------

  predicate IsInt(x: int) {
    -INT32_MAX - 1 <= x <= INT32_MAX
  }

  /** Every value the positive-exponent loop computes fits an int. */
  predicate PositiveFits(expFrac: int, exp: int, s: Str)
    decreases |s|
  {
    IsInt(exp)
    && (IsDigit(Peek(s)) ==>
          var e := exp * 10 + Digit(s[0]);
          IsInt(e) && (e <= 308 - expFrac ==> PositiveFits(expFrac, e, s[1..])))
  }

  /** Every value the negative-exponent loop computes fits an int, and so does the combined exponent. */
  predicate NegativeFits(expFrac: int, exp: int, s: Str)
    decreases |s|
  {
    if !IsDigit(Peek(s)) then IsInt(exp) && IsInt(-exp + expFrac)
    else
      var e := exp * 10 + Digit(s[0]);
      IsInt(exp) && IsInt(e) && NegativeFits(expFrac, e, if e > DivTen(expFrac + 2147483639) then SkipDigits(s[1..]) else s[1..])
  }

  lemma {:induction false} NegativeFitsAbove(expFrac: int, exp: int, s: Str)
    requires -2147483549 <= expFrac <= 0 <= exp
    requires var maxExp := DivTen(expFrac + 2147483639);
             exp <= maxExp || (exp <= maxExp * 10 + 9 && !IsDigit(Peek(s)))
    ensures NegativeFits(expFrac, exp, s)
    decreases |s|
  {
    if IsDigit(Peek(s)) {
      var e := exp * 10 + Digit(s[0]);
      if e > DivTen(expFrac + 2147483639) {
        SkipDigitsEnds(s[1..]);
        NegativeFitsAbove(expFrac, e, SkipDigits(s[1..]));
      } else {
        NegativeFitsAbove(expFrac, e, s[1..]);
      }
    }
  }

  /** Below the bound even -99 is too much: the guard only comes after the second digit. */
  lemma NegativeOverflows(expFrac: int)
    requires expFrac < -2147483549
    ensures !NegativeFits(expFrac, 9, [NINE])
  {
    assert [NINE][1..] == [] && SkipDigits([]) == [];
    assert !NegativeFits(expFrac, 99, []);
  }

  /**
   * A negative exponent and its sum with the fraction's stay in int, whatever the digits, exactly when the
   * fraction has lowered the exponent by at most 2147483549.
   */
  lemma NegativeExponentFitsIff(expFrac: int)
    requires expFrac <= 0
    ensures expFrac >= -2147483549
        <==> forall d: nat, s: Str :: d <= 9 ==> NegativeFits(expFrac, d, s)
  {
    if expFrac >= -2147483549 {
      forall d: nat, s: Str | d <= 9 ensures NegativeFits(expFrac, d, s) {
        NegativeFitsAbove(expFrac, d, s);
      }
    } else {
      NegativeOverflows(expFrac);
    }
  }

  lemma {:induction false} SkipDigitsEnds(s: Str)
    ensures !IsDigit(Peek(SkipDigits(s)))
  {
    if IsDigit(Peek(s)) {
      SkipDigitsEnds(s[1..]);
    }
  }

  lemma {:induction false} PositiveFitsBelow(expFrac: int, exp: int, s: Str)
    requires -214748055 <= expFrac <= 0 <= exp && (exp <= 9 || exp <= 308 - expFrac)
    ensures PositiveFits(expFrac, exp, s)
    ensures var r := PositiveExponent(exp, 308 - expFrac, s);
            r.Exponent? ==> IsInt(r.exp) && IsInt(r.exp + expFrac)
    decreases |s|
  {
    if IsDigit(Peek(s)) {
      var e := exp * 10 + Digit(s[0]);
      if e <= 308 - expFrac {
        PositiveFitsBelow(expFrac, e, s[1..]);
      }
    }
  }

  /** The digits of 2147483648, the first integer past INT_MAX, after their leading 2. */
  const PastIntMax: Str := [0x31, 0x34, 0x37, 0x34, 0x38, 0x33, 0x36, 0x34, 0x38]

  lemma FitsStep(expFrac: int, exp: nat, s: Str, e: nat)
    requires s != [] && IsDigit(s[0]) && e == exp * 10 + Digit(s[0]) && e <= 308 - expFrac
    ensures PositiveFits(expFrac, exp, s) ==> PositiveFits(expFrac, e, s[1..])
  {
  }

  lemma PositiveOverflows(expFrac: int)
    requires expFrac < -214748055
    ensures !PositiveFits(expFrac, 2, PastIntMax)
  {
    var s := PastIntMax;
    assert forall k :: 0 <= k < 9 ==> s[k..][1..] == s[k + 1..];
    FitsStep(expFrac, 2, s[0..], 21);
    FitsStep(expFrac, 21, s[1..], 214);
    FitsStep(expFrac, 214, s[2..], 2147);
    FitsStep(expFrac, 2147, s[3..], 21474);
    FitsStep(expFrac, 21474, s[4..], 214748);
    FitsStep(expFrac, 214748, s[5..], 2147483);
    FitsStep(expFrac, 2147483, s[6..], 21474836);
    FitsStep(expFrac, 21474836, s[7..], 214748364);
    assert s[0..] == s;
    assert s[8..][0] == 0x38;
  }

  /**
   * The positive-exponent loop is free of int overflow, whatever digits follow, exactly when the
   * fraction has lowered the exponent by at most 214748055. The guard `exp > maxExp` comes too late
   * beyond that, because `maxExp` then exceeds INT_MAX / 10.
   */
  lemma PositiveExponentFitsIff(expFrac: int)
    requires expFrac <= 0
    ensures expFrac >= -214748055
        <==> forall d: nat, s: Str :: d <= 9 ==> PositiveFits(expFrac, d, s)
  {
    if expFrac >= -214748055 {
      forall d: nat, s: Str | d <= 9 ensures PositiveFits(expFrac, d, s) {
        PositiveFitsBelow(expFrac, d, s);
      }
    } else {
      PositiveOverflows(expFrac);
    }
  }

  /**
   * For texts of at most 214748055 units nothing wraps: the exponent accumulator and the combined
   * exponent fit an int on both signs.
   */
  lemma ExponentsFitShortTexts(s: Str)
    requires |s| <= 214748055
    requires ScanInteger(s).Integer? && ScanFraction(ScanInteger(s)).Fraction?
    ensures var expFrac := ScanFraction(ScanInteger(s)).expFrac;
            && (forall d: nat, digits: Str :: d <= 9 ==> PositiveFits(expFrac, d, digits))
            && (forall d: nat, digits: Str :: d <= 9 ==> NegativeFits(expFrac, d, digits))
            && (forall digits: Str :: ScanExponent(expFrac, digits).Exponent? && Peek(digits) != MINUS ==>
                  IsInt(ScanExponent(expFrac, digits).exp + expFrac))
  {
    var expFrac := ScanFraction(ScanInteger(s)).expFrac;
    PositiveExponentFitsIff(expFrac);
    NegativeExponentFitsIff(expFrac);
    forall digits: Str | ScanExponent(expFrac, digits).Exponent? && Peek(digits) != MINUS
      ensures IsInt(ScanExponent(expFrac, digits).exp + expFrac)
    {
      var s1 := if Peek(digits) == PLUS then digits[1..] else digits;
      PositiveFitsBelow(expFrac, Digit(s1[0]), s1[1..]);
    }
  }

  function Zeros(n: nat): (z: Str)
    ensures |z| == n && AllDigits(z)
  {
    seq(n, _ => ZERO)
  }

  lemma {:induction false} ZerosLowerExponent(n: nat, expFrac: int, post: Str)
    requires !IsDigit(Peek(post))
    ensures FastFraction(0, expFrac, 0, Zeros(n) + post) == (0, expFrac - n, 0, post)
    decreases n
  {
    var s := Zeros(n) + post;
    if n == 0 {
      assert s == post;
    } else {
      assert s[0] == ZERO && s[1..] == Zeros(n - 1) + post;
      ZerosLowerExponent(n - 1, expFrac - 1, post);
    }
  }

  /** A literal that reaches the overflow: "0." with 214748056 zeros or more, then "e2147483648". */
  lemma OverflowingLiteral(n: int)
    requires n >= 214748056
    ensures var s := [ZERO, DOT] + Zeros(n) + ([0x65, 0x32] + PastIntMax);
            && ScanInteger(s).Integer?
            && ScanFraction(ScanInteger(s)) == Fraction(true, -n, [0x65, 0x32] + PastIntMax)
            && !PositiveFits(-n, 2, PastIntMax)
  {
    var post := [0x65, 0x32] + PastIntMax;
    var s := [ZERO, DOT] + Zeros(n) + ([0x65, 0x32] + PastIntMax);
    ZerosAfterPoint(s, n, post);
    PositiveOverflows(-n);
  }

  lemma ZerosAfterPoint(s: Str, n: int, post: Str)
    requires n > 0 && s == [ZERO, DOT] + Zeros(n) + post && !IsDigit(Peek(post))
    ensures ScanInteger(s).Integer?
    ensures ScanFraction(ScanInteger(s)) == Fraction(true, -n, post)
  {
    var digits := Zeros(n) + post;
    assert s[0] == ZERO && s[1..] == [DOT] + digits;
    assert s[1..][1..] == digits;
    assert digits[0] == ZERO;
    ZerosLowerExponent(n, 0, post);
  }

  // ---------------------------------------------------------------------------------------------
  // Printing integers and reading them back
  // ---------------------------------------------------------------------------------------------

  /** Decimal digits, as the writer's integer printers produce them: no sign, no leading zero. */
  function Decimal(n: nat): (ds: Str)
    ensures IsCanonical(ds)
    ensures ds[0] == ZERO ==> n == 0
  {
    if n < 10 then [ZERO + n] else Decimal(n / 10) + [ZERO + n % 10]
  }

  function Print(i: int): Str {
    Literal(i < 0, Decimal(if i < 0 then -i else i))
  }

  lemma {:induction false} ValueOfAppend(value: nat, ds: Str, c: Ch)
    requires AllDigits(ds) && IsDigit(c)
    ensures ValueOf(value, ds + [c]) == ValueOf(value, ds) * 10 + Digit(c)
    decreases |ds|
  {
    var all := ds + [c];
    if ds == [] {
      assert ValueOf(value, all) == ValueOf(value * 10 + Digit(c), all[1..]);
    } else {
      assert all[1..] == ds[1..] + [c];
      ValueOfAppend(value * 10 + Digit(ds[0]), ds[1..], c);
    }
  }

  lemma {:induction false} ValueOfDecimal(n: nat)
    ensures ValueOf(0, Decimal(n)) == n
  {
    if n >= 10 {
      ValueOfDecimal(n / 10);
      ValueOfAppend(0, Decimal(n / 10), ZERO + n % 10);
    } else {
      assert Decimal(n)[1..] == [];
    }
  }

  /** The reader's event for an integer in the range of the 64-bit types. */
  function ReadAs(i: int): Event {
    EventFor(i < 0, if i < 0 then -i else i)
  }

  predicate Fits64(i: int) {
    -INT64_MAX - 1 <= i <= UINT64_MAX
  }

  /** Printing then reading an integer of any of the four types gives its value back. */
  lemma ReadUndoesPrint(f: Flags, i: int, post: Str)
    requires Fits64(i) && EndsInteger(post)
    ensures ParseNumber(f, Print(i) + post) == NumberOk(ReadAs(i), post)
  {
    var n := if i < 0 then -i else i;
    ValueOfDecimal(n);
    IntegersAreExact(f, i < 0, Decimal(n), post);
  }
}
