/**
 * The numbers of RFC 8259 section 6, and how far each of their parts is read by ParseNumber of
 * include/rapidjson/reader.h.
 */
module NumberGrammar {
  import opened Text
  import opened ParseTypes
  import opened Number
  import opened NumberText

  /** `number = [ minus ] int [ frac ] [ exp ]`; a part that is left out is empty. */
  datatype Numeral = Numeral(minus: bool, whole: Str, fraction: Str, exponent: Str)

  /** `frac = decimal-point 1*DIGIT`. */
  predicate IsFraction(t: Str) {
    t == [] || (|t| > 1 && t[0] == DOT && AllDigits(t[1..]))
  }

  /** `1*DIGIT` with or without a sign before it. */
  predicate IsSigned(t: Str) {
    var ds := Unsigned(t);
    ds != [] && AllDigits(ds)
  }

  function Unsigned(t: Str): Str {
    if Peek(t) == PLUS || Peek(t) == MINUS then t[1..] else t
  }

  /** `exp = e [ minus / plus ] 1*DIGIT`. */
  predicate IsExponent(t: Str) {
    t == [] || (IsExponentMark(t[0]) && IsSigned(t[1..]))
  }

  predicate IsNumeral(n: Numeral) {
    IsCanonical(n.whole) && IsFraction(n.fraction) && IsExponent(n.exponent)
  }

  function SpellNumeral(n: Numeral): Str {
    Literal(n.minus, n.whole) + (n.fraction + n.exponent)
  }

  /** What follows does not carry the number on. */
  predicate Ends(n: Numeral, post: Str) {
    var c := Peek(post);
    && (IsDigit(c) ==> n.whole == [ZERO] && n.fraction == [] && n.exponent == [])
    && (c == DOT ==> n.fraction != [] || n.exponent != [])
    && (IsExponentMark(c) ==> n.exponent != [])
  }

  // ---------------------------------------------------------------------------------------------
  // How far each part is read
  // ---------------------------------------------------------------------------------------------

  lemma {:induction false} AccumulateThenSkip(value: nat, significant: nat, limit: nat, last: Ch, s: Str)
    requires IsDigit(last)
    ensures var a := Accumulate(value, significant, limit, last, s);
            SkipDigits(a.rest) == SkipDigits(s) && (!a.stopped ==> a.rest == SkipDigits(s))
    decreases |s|
  {
    if IsDigit(Peek(s)) && !(value >= limit && (value != limit || s[0] > last)) {
      AccumulateThenSkip(value * 10 + Digit(s[0]), significant + 1, limit, last, s[1..]);
    }
  }

  /** The integer part: a zero, or all the digits there are. */
  function AfterWhole(s: Str): Str {
    if Peek(s) == ZERO then s[1..] else SkipDigits(s)
  }

  lemma MagnitudeEnds(minus: bool, s: Str)
    ensures ScanMagnitude(minus, s).Integer? <==> IsDigit(Peek(s))
    ensures IsDigit(Peek(s)) ==> ScanMagnitude(minus, s).rest == AfterWhole(s)
  {
    hide Accumulate;
    if IsDigit(Peek(s)) && s[0] != ZERO {
      assert SkipDigits(s) == SkipDigits(s[1..]);
      AccumulateThenSkip(Digit(s[0]), 0, Limit32(minus), LastDigit(minus), s[1..]);
      var a := Accumulate(Digit(s[0]), 0, Limit32(minus), LastDigit(minus), s[1..]);
      AccumulateThenSkip(a.value, a.significant, Limit64(minus), LastDigit(minus), a.rest);
    }
  }

  function AfterSign(s: Str): Str {
    if Peek(s) == MINUS then s[1..] else s
  }

  lemma IntegerEnds(s: Str)
    ensures ScanInteger(s).Integer? <==> IsDigit(Peek(AfterSign(s)))
    ensures ScanInteger(s).Integer? ==> ScanInteger(s).rest == AfterWhole(AfterSign(s))
  {
    MagnitudeEnds(Peek(s) == MINUS, AfterSign(s));
  }

  lemma {:induction false} FastThenSkip(value: nat, expFrac: int, significant: nat, s: Str)
    ensures SkipDigits(FastFraction(value, expFrac, significant, s).3) == SkipDigits(s)
    decreases |s|
  {
    if IsDigit(Peek(s)) && value <= 0x1F_FFFF_FFFF_FFFF {
      var v := value * 10 + Digit(s[0]);
      FastThenSkip(v, expFrac - 1, if v != 0 then significant + 1 else significant, s[1..]);
    }
  }

  lemma {:induction false} SlowTakesAll(positive: bool, expFrac: int, significant: nat, s: Str)
    ensures SlowFraction(positive, expFrac, significant, s).1 == SkipDigits(s)
    decreases |s|
  {
    if IsDigit(Peek(s)) {
      if significant < 17 {
        var p := positive || s[0] != ZERO;
        SlowTakesAll(p, expFrac - 1, if p then significant + 1 else significant, s[1..]);
      } else {
        SlowTakesAll(positive, expFrac, significant, s[1..]);
      }
    }
  }

  lemma FractionEnds(n: Integer)
    requires n.Integer?
    ensures ScanFraction(n).Fraction? <==> Peek(n.rest) != DOT || IsDigit(Peek(n.rest[1..]))
    ensures ScanFraction(n).Fraction? ==> ScanFraction(n).rest == if Peek(n.rest) == DOT then SkipDigits(n.rest[1..]) else n.rest
  {
    if Peek(n.rest) == DOT && IsDigit(Peek(n.rest[1..])) {
      var s := n.rest[1..];
      FastThenSkip(n.value, 0, n.significant, s);
      var fast := if n.useDouble then (n.value, 0, n.significant, s) else FastFraction(n.value, 0, n.significant, s);
      SlowTakesAll(n.useDouble || fast.0 > 0, fast.1, fast.2, fast.3);
    }
  }

  lemma {:induction false} PositiveTakesAll(exp: int, maxExp: int, s: Str)
    ensures PositiveExponent(exp, maxExp, s).Exponent? ==> PositiveExponent(exp, maxExp, s).rest == SkipDigits(s)
    decreases |s|
  {
    if IsDigit(Peek(s)) && exp * 10 + Digit(s[0]) <= maxExp {
      PositiveTakesAll(exp * 10 + Digit(s[0]), maxExp, s[1..]);
    }
  }

  lemma {:induction false} SkipTwice(s: Str)
    ensures !IsDigit(Peek(SkipDigits(s))) && SkipDigits(SkipDigits(s)) == SkipDigits(s)
  {
    if IsDigit(Peek(s)) {
      SkipTwice(s[1..]);
    }
  }

  lemma {:induction false} NegativeTakesAll(exp: int, maxExp: int, s: Str)
    ensures NegativeExponent(exp, maxExp, s).rest == SkipDigits(s)
    decreases |s|
  {
    if IsDigit(Peek(s)) {
      var e := exp * 10 + Digit(s[0]);
      SkipTwice(s[1..]);
      NegativeTakesAll(e, maxExp, if e > maxExp then SkipDigits(s[1..]) else s[1..]);
    }
  }

  lemma ExponentEnds(expFrac: int, s: Str)
    ensures ScanExponent(expFrac, s).MissExponent? <==> !IsDigit(Peek(Unsigned(s)))
    ensures ScanExponent(expFrac, s).Exponent? ==> ScanExponent(expFrac, s).rest == SkipDigits(Unsigned(s))
  {
    var ds := Unsigned(s);
    if IsDigit(Peek(ds)) {
      NegativeTakesAll(Digit(ds[0]), DivTen(expFrac + 2147483639), ds[1..]);
      PositiveTakesAll(Digit(ds[0]), 308 - expFrac, ds[1..]);
    }
  }

  // ---------------------------------------------------------------------------------------------
  // Digits
  // ---------------------------------------------------------------------------------------------

  lemma {:induction false} SkippedAreDigits(s: Str) returns (ds: Str)
    ensures AllDigits(ds) && s == ds + SkipDigits(s) && (IsDigit(Peek(s)) ==> ds != [] && ds[0] == s[0])
  {
    if IsDigit(Peek(s)) {
      var more := SkippedAreDigits(s[1..]);
      ds := [s[0]] + more;
      assert s == [s[0]] + s[1..];
    } else {
      ds := [];
    }
  }

  // ---------------------------------------------------------------------------------------------
  // Numerals are read, and nothing else is
  // ---------------------------------------------------------------------------------------------

  lemma FractionIsTaken(n: Integer, fraction: Str, tail: Str)
    requires n.Integer? && n.rest == fraction + tail && IsFraction(fraction)
    requires if fraction == [] then Peek(tail) != DOT else !IsDigit(Peek(tail))
    ensures ScanFraction(n).Fraction? && ScanFraction(n).rest == tail
  {
    FractionEnds(n);
    if fraction == [] {
      assert n.rest == tail;
    } else {
      assert n.rest[1..] == fraction[1..] + tail;
      SkipDigitsSkips(fraction[1..], tail);
    }
  }

  /** The units that come after the whole part, and those after the fraction. */
  lemma PartsFollow(n: Numeral, post: Str)
    requires IsNumeral(n) && Ends(n, post)
    ensures var tail := n.exponent + post;
            && (if n.fraction == [] then Peek(tail) != DOT else !IsDigit(Peek(tail)))
            && (IsDigit(Peek(n.fraction + tail)) ==> n.whole == [ZERO])
            && SpellNumeral(n) + post == Literal(n.minus, n.whole) + (n.fraction + tail)
  {
    var tail := n.exponent + post;
    if n.exponent == [] {
      assert tail == post;
    }
    if n.fraction == [] {
      assert n.fraction + tail == tail;
    }
    Regroup3(Literal(n.minus, n.whole), n.fraction + n.exponent, post);
    Regroup3(n.fraction, n.exponent, post);
  }

  lemma ReadIsWhole(s: Str) returns (minus: bool, whole: Str)
    requires ScanInteger(s).Integer?
    ensures IsCanonical(whole) && s == Literal(minus, whole) + ScanInteger(s).rest
    ensures IsDigit(Peek(ScanInteger(s).rest)) ==> whole == [ZERO]
  {
    IntegerEnds(s);
    minus := Peek(s) == MINUS;
    var t := AfterSign(s);
    assert minus ==> s == [MINUS] + t;
    if t[0] == ZERO {
      whole := [ZERO];
      assert t == whole + t[1..];
    } else {
      whole := SkippedAreDigits(t);
      SkipTwice(t);
    }
    if minus {
      Regroup3([MINUS], whole, ScanInteger(s).rest);
    }
  }

  lemma ReadIsFraction(n: Integer) returns (fraction: Str)
    requires n.Integer? && ScanFraction(n).Fraction?
    ensures IsFraction(fraction) && n.rest == fraction + ScanFraction(n).rest
    ensures if fraction == [] then Peek(n.rest) != DOT else !IsDigit(Peek(ScanFraction(n).rest))
  {
    FractionEnds(n);
    if Peek(n.rest) == DOT {
      var ds := SkippedAreDigits(n.rest[1..]);
      fraction := [DOT] + ds;
      assert n.rest == [DOT] + n.rest[1..];
      SkipTwice(n.rest[1..]);
    } else {
      fraction := [];
    }
  }

  lemma ReadIsSigned(t: Str) returns (signed: Str)
    requires IsDigit(Peek(Unsigned(t)))
    ensures IsSigned(signed) && t == signed + SkipDigits(Unsigned(t))
  {
    var ds := SkippedAreDigits(Unsigned(t));
    if Unsigned(t) == t {
      signed := ds;
    } else {
      signed := [t[0]] + ds;
      assert signed[1..] == ds && t == [t[0]] + t[1..];
      Regroup3([t[0]], ds, SkipDigits(t[1..]));
    }
  }

  lemma ReadIsExponent(frac: Fraction) returns (exponent: Str)
    requires frac.Fraction? && Ended(frac).Some?
    ensures IsExponent(exponent) && frac.rest == exponent + Ended(frac).value.1
    ensures if exponent == [] then !IsExponentMark(Peek(frac.rest)) else !IsDigit(Peek(Ended(frac).value.1))
  {
    if IsExponentMark(Peek(frac.rest)) {
      var t := frac.rest[1..];
      ExponentEnds(frac.expFrac, t);
      SkipTwice(Unsigned(t));
      var signed := ReadIsSigned(t);
      exponent := [frac.rest[0]] + signed;
      assert exponent[1..] == signed && frac.rest == [frac.rest[0]] + t;
      Regroup3([frac.rest[0]], signed, SkipDigits(Unsigned(t)));
    } else {
      exponent := [];
    }
  }
}
