/**
 * What the numbers of RFC 8259 section 6 mean to ParseNumber of include/rapidjson/reader.h, and which of them it
 * refuses: those that are infinite as doubles, and those whose exponent passes a guard, zeros among them.
 */
module NumberMeaning {
  import opened Text
  import opened ParseTypes
  import opened Number
  import opened NumberText
  import opened NumberGrammar

  /** The digits after the point. */
  function FractionDigits(n: Numeral): Str {
    if n.fraction == [] then [] else n.fraction[1..]
  }

  /** The digits of the exponent. */
  function ExponentDigits(n: Numeral): Str {
    if n.exponent == [] then [] else Unsigned(n.exponent[1..])
  }

  /** How many digits of a fraction are counted: all until `significantDigit` has come to 17. */
  function Counted(positive: bool, significant: nat, ds: Str): (n: nat)
    ensures n <= |ds|
    decreases |ds|
  {
    if ds == [] || significant >= 17 then 0
    else
      var p := positive || ds[0] != ZERO;
      1 + Counted(p, if p then significant + 1 else significant, ds[1..])
  }

  /** By how much the counted digits of the fraction lower the exponent. */
  function Shift(n: Numeral): (c: int)
    requires IsNumeral(n)
    ensures 0 <= c <= |FractionDigits(n)|
  {
    Counted(n.whole != [ZERO], |n.whole| - 1, FractionDigits(n))
  }

  /** The guard on exponents that are not negative. */
  predicate ExponentIsTooBig(n: Numeral)
    requires IsNumeral(n)
  {
    n.exponent != [] && Peek(n.exponent[1..]) != MINUS && ValueOf(0, ExponentDigits(n)) > 308 + Shift(n)
  }

  /** Reported as a double. */
  predicate IsFloating(n: Numeral)
    requires IsNumeral(n)
  {
    n.fraction != [] || n.exponent != [] || ValueOf(0, n.whole) > MaxMagnitude64(n.minus)
  }

  /** The double a numeral converts to, without its sign. */
  function Converted(f: Flags, n: Numeral): Magnitude {
    f.strtod(n.minus, n.whole + (n.fraction + n.exponent))
  }

  predicate IsTooBig(f: Flags, n: Numeral)
    requires IsNumeral(n)
  {
    ExponentIsTooBig(n) || (IsFloating(n) && Converted(f, n) == INFINITY)
  }

  /** What is reported for a numeral that is not too big: its exact value, or the double it converts to. */
  function NumeralEvent(f: Flags, n: Numeral): Event
    requires IsNumeral(n)
  {
    if IsFloating(n) then DoubleEvent(WithSign(n.minus, Converted(f, n))) else EventFor(n.minus, ValueOf(0, n.whole))
  }

  // ---------------------------------------------------------------------------------------------
  // Powers of ten
  // ---------------------------------------------------------------------------------------------

  lemma {:induction false} TenAdd(a: nat, b: nat)
    ensures Ten(a) * Ten(b) == Ten(a + b)
    decreases a
  {
    if a > 0 {
      TenAdd(a - 1, b);
      assert 10 * Ten(a - 1) * Ten(b) == 10 * (Ten(a - 1) * Ten(b));
    } else {
      assert Ten(0) * Ten(b) == 1 * Ten(b);
    }
  }

  lemma {:induction false} TenGrows(a: nat, b: nat)
    requires a <= b
    ensures Ten(a) <= Ten(b)
    decreases b
  {
    if a < b {
      TenGrows(a, b - 1);
    }
  }

  /** The values at which the reader's loops change hands, between powers of ten. */
  lemma Limits()
    ensures Ten(16) > 0x1F_FFFF_FFFF_FFFF && Ten(17) < 0x0CCC_CCCC_CCCC_CCCC
  {
    assert Ten(4) == 10000;
    TenAdd(4, 4);
    TenAdd(8, 8);
    assert Ten(17) == 10 * Ten(16);
  }

  // ---------------------------------------------------------------------------------------------
  // Significant digits
  // ---------------------------------------------------------------------------------------------

  lemma OneDigitMore(value: nat, significant: nat, d: nat)
    requires d < 10 && Ten(significant) <= value < Ten(significant + 1)
    ensures Ten(significant + 1) <= value * 10 + d < Ten(significant + 2)
  {
    assert Ten(significant + 2) == 10 * Ten(significant + 1);
  }

  lemma {:induction false} AccumulateBounds(value: nat, significant: nat, limit: nat, last: Ch, s: Str)
    requires IsDigit(last) && Ten(significant) <= value < Ten(significant + 1)
    ensures var a := Accumulate(value, significant, limit, last, s);
            Ten(a.significant) <= a.value < Ten(a.significant + 1) && (a.stopped ==> a.value >= limit)
    decreases |s|
  {
    hide Ten;
    if IsDigit(Peek(s)) && !(value >= limit && (value != limit || s[0] > last)) {
      assert Accumulate(value, significant, limit, last, s)
          == Accumulate(value * 10 + Digit(s[0]), significant + 1, limit, last, s[1..]);
      hide Accumulate;
      OneDigitMore(value, significant, Digit(s[0]));
      AccumulateBounds(value * 10 + Digit(s[0]), significant + 1, limit, last, s[1..]);
    }
  }

  /** Past 64 bits there are seventeen significant digits after the first. */
  lemma ManyDigits(a: Accumulated)
    requires a.value >= 0x0CCC_CCCC_CCCC_CCCC && a.value < Ten(a.significant + 1)
    ensures a.significant >= 17
  {
    Limits();
    if a.significant < 17 {
      TenGrows(a.significant + 1, 17);
    }
  }

  /** The significant digits of an integer part are those after its first. */
  predicate HasDigits(i: Integer, whole: Str) {
    && i.Integer? && whole != []
    && (if i.useDouble then i.significant >= 17 && |whole| >= 18 else i.significant == |whole| - 1)
    && (!i.useDouble && whole != [ZERO] ==> Ten(i.significant) <= i.value)
  }

  lemma MagnitudeHasDigits(minus: bool, whole: Str, tail: Str)
    requires IsCanonical(whole) && whole[0] != ZERO && !IsDigit(Peek(tail))
    ensures HasDigits(ScanMagnitude(minus, whole + tail), whole)
  {
    var s := whole + tail;
    assert s[0] == whole[0] && s[1..] == whole[1..] + tail;
    MagnitudeEnds(minus, s);
    SkipDigitsSkips(whole, tail);
    assert Ten(0) == 1 && Ten(1) == 10;
    AccumulateBounds(Digit(s[0]), 0, Limit32(minus), LastDigit(minus), s[1..]);
    var a := Accumulate(Digit(s[0]), 0, Limit32(minus), LastDigit(minus), s[1..]);
    AccumulateBounds(a.value, a.significant, Limit64(minus), LastDigit(minus), a.rest);
    var b := Accumulate(a.value, a.significant, Limit64(minus), LastDigit(minus), a.rest);
    hide Accumulate, SkipDigits;
    if a.stopped && b.stopped {
      ManyDigits(b);
      SkippedFrom(b.rest);
    }
  }

  lemma SkippedFrom(s: Str)
    ensures |SkipDigits(s)| <= |s|
  {
  }

  lemma WholeHasDigits(minus: bool, whole: Str, tail: Str)
    requires IsCanonical(whole) && (IsDigit(Peek(tail)) ==> whole == [ZERO])
    ensures HasDigits(ScanInteger(Literal(minus, whole) + tail), whole)
  {
    var s := Literal(minus, whole) + tail;
    assert AfterSign(s) == whole + tail;
    if whole[0] == ZERO {
      assert whole == [ZERO];
    } else {
      MagnitudeHasDigits(minus, whole, tail);
    }
  }

  // ---------------------------------------------------------------------------------------------
  // The fraction's part of the exponent
  // ---------------------------------------------------------------------------------------------

  lemma {:induction false} SlowCounts(positive: bool, expFrac: int, significant: nat, ds: Str, tail: Str)
    requires AllDigits(ds) && !IsDigit(Peek(tail))
    ensures SlowFraction(positive, expFrac, significant, ds + tail).0 == expFrac - Counted(positive, significant, ds)
    decreases |ds|
  {
    var s := ds + tail;
    if ds == [] {
      assert s == tail;
    } else {
      assert s[0] == ds[0] && s[1..] == ds[1..] + tail;
      if significant < 17 {
        var p := positive || ds[0] != ZERO;
        SlowCounts(p, expFrac - 1, if p then significant + 1 else significant, ds[1..], tail);
      } else {
        SlowCounts(positive, expFrac, significant, ds[1..], tail);
      }
    }
  }

  /** The two loops count what the second alone would. */
  lemma {:induction false} FastThenSlowCounts(value: nat, expFrac: int, significant: nat, ds: Str, tail: Str)
    requires AllDigits(ds) && !IsDigit(Peek(tail))
    requires value == 0 ==> significant == 0
    requires significant > 0 ==> Ten(significant - 1) <= value
    ensures var fast := FastFraction(value, expFrac, significant, ds + tail);
            SlowFraction(fast.0 > 0, fast.1, fast.2, fast.3).0 == expFrac - Counted(value > 0, significant, ds)
    decreases |ds|
  {
    var s := ds + tail;
    if ds == [] || value > 0x1F_FFFF_FFFF_FFFF {
      assert ds == [] ==> s == tail;
      SlowCounts(value > 0, expFrac, significant, ds, tail);
    } else {
      assert s[0] == ds[0] && s[1..] == ds[1..] + tail;
      FewDigits(value, significant);
      OneMoreDigit(value, significant, Digit(s[0]));
      var v := value * 10 + Digit(s[0]);
      assert FastFraction(value, expFrac, significant, s)
          == FastFraction(v, expFrac - 1, if v != 0 then significant + 1 else significant, s[1..]);
      hide Ten, FastFraction, SlowFraction;
      FastThenSlowCounts(v, expFrac - 1, if v != 0 then significant + 1 else significant, ds[1..], tail);
    }
  }

  lemma OneMoreDigit(value: nat, significant: nat, d: nat)
    requires value == 0 ==> significant == 0
    requires significant > 0 ==> Ten(significant - 1) <= value
    ensures value * 10 + d > 0 ==> Ten(significant) <= value * 10 + d
  {
    assert Ten(0) == 1;
  }

  lemma FewDigits(value: nat, significant: nat)
    requires value <= 0x1F_FFFF_FFFF_FFFF && (significant > 0 ==> Ten(significant - 1) <= value)
    ensures significant < 17
  {
    Limits();
    if significant >= 17 {
      TenGrows(16, significant - 1);
    }
  }

  lemma FractionCounts(i: Integer, n: Numeral, tail: Str)
    requires IsNumeral(n) && HasDigits(i, n.whole) && (!i.useDouble ==> i.value == ValueOf(0, n.whole)) && i.rest == n.fraction + tail
    requires if n.fraction == [] then Peek(tail) != DOT else !IsDigit(Peek(tail))
    ensures var r := ScanFraction(i);
            r.Fraction? && r.rest == tail && r.expFrac == -Shift(n) && r.useDouble == (i.useDouble || n.fraction != [])
  {
    FractionIsTaken(i, n.fraction, tail);
    if n.fraction == [] {
      assert i.rest == tail;
    } else {
      var ds := FractionDigits(n);
      assert i.rest[0] == DOT && i.rest[1..] == ds + tail;
      if i.useDouble {
        SlowCounts(true, 0, i.significant, ds, tail);
      } else {
        ZeroOrPositive(n.whole, i.value);
        if i.significant > 0 {
          TenGrows(i.significant - 1, i.significant);
        }
        FastThenSlowCounts(i.value, 0, i.significant, ds, tail);
      }
    }
  }

  lemma ZeroOrPositive(whole: Str, value: nat)
    requires IsCanonical(whole) && value == ValueOf(0, whole)
    ensures value == 0 <==> whole == [ZERO]
  {
    if whole[0] == ZERO {
      assert whole == [ZERO] && whole[1..] == [];
    } else {
      assert ValueOf(0, whole) == ValueOf(Digit(whole[0]), whole[1..]);
    }
  }

  // ---------------------------------------------------------------------------------------------
  // The exponent
  // ---------------------------------------------------------------------------------------------

  lemma {:induction false} PositiveStopsIff(exp: nat, maxExp: int, ds: Str, post: Str)
    requires AllDigits(ds) && !IsDigit(Peek(post)) && exp <= maxExp
    ensures PositiveExponent(exp, maxExp, ds + post).ExponentTooBig? <==> ValueOf(exp, ds) > maxExp
    decreases |ds|
  {
    var s := ds + post;
    if ds == [] {
      assert s == post;
    } else {
      assert s[0] == ds[0] && s[1..] == ds[1..] + post;
      var e := exp * 10 + Digit(ds[0]);
      if e <= maxExp {
        PositiveStopsIff(e, maxExp, ds[1..], post);
      }
    }
  }

  lemma FirstDigit(ds: Str)
    requires ds != [] && AllDigits(ds)
    ensures ValueOf(0, ds) == ValueOf(Digit(ds[0]), ds[1..])
  {
  }

  lemma ExponentStopsIff(n: Numeral, post: Str)
    requires IsNumeral(n) && n.exponent != [] && !IsDigit(Peek(post))
    ensures ScanExponent(-Shift(n), n.exponent[1..] + post).ExponentTooBig? <==> ExponentIsTooBig(n)
  {
    hide PositiveExponent, NegativeExponent, ValueOf, Counted;
    var t := n.exponent[1..];
    var ds := Unsigned(t);
    assert Unsigned(t + post) == ds + post && Peek(t + post) == Peek(t);
    if Peek(t) != MINUS {
      FirstDigit(ds);
      assert (ds + post)[0] == ds[0] && (ds + post)[1..] == ds[1..] + post;
      PositiveStopsIff(Digit(ds[0]), 308 + Shift(n), ds[1..], post);
    }
  }

  // ---------------------------------------------------------------------------------------------
  // Numerals are read, and nothing else is
  // ---------------------------------------------------------------------------------------------

  /** What has been read of a numeral when its exponent is due. */
  lemma NumeralIsScanned(n: Numeral, post: Str)
    requires IsNumeral(n) && Ends(n, post)
    ensures var v, i := ValueOf(0, n.whole), ScanInteger(SpellNumeral(n) + post);
            && i.Integer? && i.minus == n.minus && (i.useDouble <==> v > MaxMagnitude64(n.minus))
            && (!i.useDouble ==> i.value == v) && (i.use64bit <==> v > MaxMagnitude32(n.minus))
            && ScanFraction(i) == Fraction(i.useDouble || n.fraction != [], -Shift(n), n.exponent + post)
  {
    hide ScanInteger, ScanFraction, HasDigits, ValueOf, Counted;
    var tail := n.exponent + post;
    PartsFollow(n, post);
    ScanIntegerIsExact(n.minus, n.whole, n.fraction + tail);
    WholeHasDigits(n.minus, n.whole, n.fraction + tail);
    FractionCounts(ScanInteger(SpellNumeral(n) + post), n, tail);
  }

  lemma TakenIs(n: Numeral, post: Str)
    requires IsNumeral(n)
    ensures |post| < |SpellNumeral(n) + post|
    ensures Taken(n.minus, SpellNumeral(n) + post, post) == n.whole + (n.fraction + n.exponent)
  {
    var text := n.whole + (n.fraction + n.exponent);
    Regroup3([MINUS], n.whole, n.fraction + n.exponent);
    assert SpellNumeral(n) == Literal(n.minus, text);
    Regroup3([MINUS], text, post);
  }

  lemma NumeralIsFinished(f: Flags, n: Numeral, post: Str, useDouble: bool)
    requires IsNumeral(n) && Ends(n, post) && (useDouble <==> IsFloating(n)) && |post| < |SpellNumeral(n) + post|
    ensures var i := ScanInteger(SpellNumeral(n) + post);
            && i.Integer?
            && Finish(f, SpellNumeral(n) + post, i, useDouble, post)
            == if useDouble && Converted(f, n) == INFINITY then NumberErr(NumberTooBig, |SpellNumeral(n) + post|)
               else NumberOk(NumeralEvent(f, n), post)
  {
    NumeralIsScanned(n, post);
    TakenIs(n, post);
    hide ScanInteger, ScanFraction, ValueOf, Counted, SpellNumeral, Ends, IsNumeral;
    if !useDouble {
      IntegerEventIsExact(ScanInteger(SpellNumeral(n) + post));
    }
  }

  lemma MarkIsRead(n: Numeral, post: Str)
    requires IsNumeral(n) && Ends(n, post)
    ensures var t := n.exponent + post;
            if n.exponent == [] then !IsExponentMark(Peek(t)) && t == post
            else IsExponentMark(Peek(t)) && t[1..] == n.exponent[1..] + post
  {
    if n.exponent != [] {
      assert (n.exponent + post)[1..] == n.exponent[1..] + post;
    } else {
      assert n.exponent + post == post;
    }
  }

  lemma ExponentTakesAll(n: Numeral, post: Str)
    requires IsNumeral(n) && n.exponent != [] && !IsDigit(Peek(post))
    ensures var e := ScanExponent(-Shift(n), n.exponent[1..] + post);
            !e.MissExponent? && (e.Exponent? ==> e.rest == post)
  {
    var t := n.exponent[1..];
    assert Unsigned(t + post) == Unsigned(t) + post;
    ExponentEnds(-Shift(n), t + post);
    SkipDigitsSkips(Unsigned(t), post);
  }

  /** What comes of a numeral without an exponent, and of one with an exponent. */
  lemma PlainIsRead(f: Flags, n: Numeral, post: Str)
    requires IsNumeral(n) && Ends(n, post) && n.exponent == []
    ensures ParseNumber(f, SpellNumeral(n) + post)
         == if IsTooBig(f, n) then NumberErr(NumberTooBig, |SpellNumeral(n) + post|) else NumberOk(NumeralEvent(f, n), post)
  {
    TakenIs(n, post);
    NumeralIsScanned(n, post);
    MarkIsRead(n, post);
    NumeralIsFinished(f, n, post, IsFloating(n));
    hide ScanInteger, ScanFraction, ScanExponent, Finish, ValueOf, Counted, SpellNumeral, Ends, IsNumeral, Taken;
  }

  lemma ScaledIsRead(f: Flags, n: Numeral, post: Str)
    requires IsNumeral(n) && Ends(n, post) && n.exponent != []
    ensures ParseNumber(f, SpellNumeral(n) + post)
         == if IsTooBig(f, n) then NumberErr(NumberTooBig, |SpellNumeral(n) + post|) else NumberOk(NumeralEvent(f, n), post)
  {
    TakenIs(n, post);
    NumeralIsScanned(n, post);
    MarkIsRead(n, post);
    NumeralIsFinished(f, n, post, true);
    ExponentStopsIff(n, post);
    ExponentTakesAll(n, post);
    hide ScanInteger, ScanFraction, ScanExponent, Finish, ValueOf, Counted, SpellNumeral, Ends, IsNumeral, Taken, ExponentIsTooBig,
      NumeralEvent, Converted;
  }

  /**
   * A numeral is read whole, whatever follows that does not carry it on, and reported as what it means, unless it is
   * too big.
   */
  lemma NumeralIsRead(f: Flags, n: Numeral, post: Str)
    requires IsNumeral(n) && Ends(n, post)
    ensures ParseNumber(f, SpellNumeral(n) + post)
         == if IsTooBig(f, n) then NumberErr(NumberTooBig, |SpellNumeral(n) + post|) else NumberOk(NumeralEvent(f, n), post)
  {
    hide *;
    if n.exponent == [] {
      PlainIsRead(f, n, post);
    } else {
      ScaledIsRead(f, n, post);
    }
  }

  /** Whatever is read as a number is a numeral that is not too big, and ends where the reading ends. */
  lemma ReadIsNumeral(f: Flags, s: Str) returns (n: Numeral)
    requires ParseNumber(f, s).NumberOk?
    ensures IsNumeral(n) && !IsTooBig(f, n) && Ends(n, ParseNumber(f, s).rest)
    ensures s == SpellNumeral(n) + ParseNumber(f, s).rest && ParseNumber(f, s).event == NumeralEvent(f, n)
  {
    hide ParseNumber, ScanInteger, ScanFraction, Ended;
    NumberInParts(f, s);
    var rest := ParseNumber(f, s).rest;
    var i := ScanInteger(s);
    var minus, whole := ReadIsWhole(s);
    var fraction := ReadIsFraction(i);
    var exponent := ReadIsExponent(ScanFraction(i));
    n := Numeral(minus, whole, fraction, exponent);
    Regroup3(fraction, exponent, rest);
    Regroup3(Literal(minus, whole), fraction + exponent, rest);
    hide IsTooBig, NumeralEvent;
    NumeralIsRead(f, n, rest);
  }

  /**
   * A text is read as a number, to its end, if and only if it is a numeral of the grammar that is not too big, and
   * then the event is what it means.
   */
  lemma NumberIff(f: Flags, text: Str, e: Event)
    ensures ParseNumber(f, text) == NumberOk(e, [])
       <==> exists n :: IsNumeral(n) && text == SpellNumeral(n) && !IsTooBig(f, n) && e == NumeralEvent(f, n)
  {
    hide ParseNumber, IsTooBig, NumeralEvent;
    if ParseNumber(f, text) == NumberOk(e, []) {
      var n := ReadIsNumeral(f, text);
      assert SpellNumeral(n) + [] == SpellNumeral(n);
    }
    forall n | IsNumeral(n) && text == SpellNumeral(n) && !IsTooBig(f, n) && e == NumeralEvent(f, n)
      ensures ParseNumber(f, text) == NumberOk(e, [])
    {
      assert text + [] == text;
      NumeralIsRead(f, n, []);
    }
  }

  // ---------------------------------------------------------------------------------------------
  // What the guard on exponents refuses
  // ---------------------------------------------------------------------------------------------

  /** All digits before the exponent as one number. */
  function Significand(n: Numeral): nat
    requires IsNumeral(n)
  {
    ValueOfJoin(0, n.whole, FractionDigits(n));
    ValueOf(0, n.whole + FractionDigits(n))
  }

  lemma AtLeast(a: nat, b: nat, c: nat)
    requires a >= b
    ensures a * c >= b * c && 1 * c == c && 0 * c == 0
  {
  }

  lemma TimesTen(value: nat, t: nat)
    ensures value * 10 * t == value * (10 * t)
  {
  }

  lemma {:induction false} ValueGrows(value: nat, ds: Str)
    requires AllDigits(ds)
    ensures ValueOf(value, ds) >= value * Ten(|ds|)
    decreases |ds|
  {
    if ds != [] {
      var v, t := value * 10 + Digit(ds[0]), Ten(|ds| - 1);
      assert Ten(|ds|) == 10 * t;
      ValueGrows(v, ds[1..]);
      hide Ten;
      AtLeast(v, value * 10, t);
      TimesTen(value, t);
    } else {
      assert Ten(0) == 1;
    }
  }

  /** A digit is left uncounted only when one before it is not zero. */
  lemma {:induction false} CountedStops(positive: bool, significant: nat, value: nat, ds: Str)
    requires AllDigits(ds) && (significant > 0 ==> positive) && (positive <==> value > 0)
    requires Counted(positive, significant, ds) < |ds|
    ensures ValueOf(value, ds[..Counted(positive, significant, ds)]) > 0
    decreases |ds|
  {
    if significant < 17 {
      var p := positive || ds[0] != ZERO;
      var v, sig := value * 10 + Digit(ds[0]), if p then significant + 1 else significant;
      CountedStops(p, sig, v, ds[1..]);
      var c := Counted(p, sig, ds[1..]);
      assert ds[..c + 1][0] == ds[0] && ds[..c + 1][1..] == ds[1..][..c];
    } else {
      assert ds[..0] == [];
    }
  }

  /** The digits of the fraction that are counted, and the others. */
  lemma SignificandSplits(n: Numeral)
    requires IsNumeral(n)
    ensures var ds, c := FractionDigits(n), Shift(n);
            AllDigits(ds[..c]) && AllDigits(ds[c..]) && Significand(n) == ValueOf(ValueOf(ValueOf(0, n.whole), ds[..c]), ds[c..])
  {
    var ds, c := FractionDigits(n), Shift(n);
    assert ds == ds[..c] + ds[c..];
    ValueOfJoin(0, n.whole, ds);
    ValueOfJoin(ValueOf(0, n.whole), ds[..c], ds[c..]);
  }

  /** The number spelled by the counted digits is 0 only if all digits are. */
  lemma CountedValue(n: Numeral)
    requires IsNumeral(n) && Significand(n) > 0
    ensures Significand(n) >= Ten(|FractionDigits(n)| - Shift(n))
  {
    var ds, c := FractionDigits(n), Shift(n);
    var value := ValueOf(0, n.whole);
    SignificandSplits(n);
    var counted := ValueOf(value, ds[..c]);
    ZeroOrPositive(n.whole, value);
    if c < |ds| {
      CountedStops(n.whole != [ZERO], |n.whole| - 1, value, ds);
    } else {
      assert ds[c..] == [];
    }
    hide ValueOf, Ten, Significand, Counted;
    ValueGrows(counted, ds[c..]);
    AtLeast(counted, 1, Ten(|ds| - c));
  }

  /**
   * The guard refuses a numeral that is out of the range of doubles, at least 10^309 (on the right the fraction's
   * digits are cleared), if and only if some digit of it is not zero.
   */
  lemma GuardIsRightIff(n: Numeral)
    requires IsNumeral(n) && ExponentIsTooBig(n)
    ensures Significand(n) * Ten(ValueOf(0, ExponentDigits(n))) >= Ten(309 + |FractionDigits(n)|) <==> Significand(n) > 0
  {
    var e, count := ValueOf(0, ExponentDigits(n)), |FractionDigits(n)|;
    hide ValueOf, Ten, Significand, Counted;
    var low := count - Shift(n);
    if Significand(n) > 0 {
      CountedValue(n);
      AtLeast(Significand(n), Ten(low), Ten(e));
      TenAdd(low, e);
      TenGrows(309 + count, low + e);
    } else {
      AtLeast(0, 0, Ten(e));
    }
  }

  /** 0e309 is a number of the grammar, and zero, but refused as too big. */
  lemma ZeroIsRefused(f: Flags)
    ensures var n := Numeral(false, [ZERO], [], [0x65, 0x33, 0x30, 0x39]);
            && IsNumeral(n) && Significand(n) == 0
            && ParseNumber(f, SpellNumeral(n)) == NumberErr(NumberTooBig, 5)
  {
    var n := Numeral(false, [ZERO], [], [0x65, 0x33, 0x30, 0x39]);
    var ds: Str := [0x33, 0x30, 0x39];
    assert n.exponent[1..] == ds && Unsigned(ds) == ds;
    assert ds[1..] == [0x30, 0x39] && ds[1..][1..] == [0x39] && ds[1..][1..][1..] == [];
    assert ValueOf(30, ds[1..][1..]) == 309;
    assert ValueOf(3, ds[1..]) == 309;
    assert n.whole + FractionDigits(n) == [ZERO];
    assert ValueOf(0, [ZERO]) == ValueOf(0, [ZERO][1..]) == 0;
    assert SpellNumeral(n) + [] == SpellNumeral(n);
    NumeralIsRead(f, n, []);
  }
}
