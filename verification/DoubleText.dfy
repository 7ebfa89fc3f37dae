/**
 * The text of a double: Prettify and WriteExponent of include/rapidjson/internal/dtoa.h, from the digits
 * and the power of ten that Grisu2 finds. The text denotes exactly that decimal number, and the reader
 * takes it whole as a double.
 */
module DoubleText {
  import opened Text
  import opened ParseTypes
  import opened Number
  import opened NumberText
  import opened NumberGrammar
  import opened NumberMeaning

  const LETTER_E: Ch := 0x65

  // ---------------------------------------------------------------------------------------------
  // Printing
  // ---------------------------------------------------------------------------------------------

  /** Two digits off the table of `GetDigitsLut`. */
  function TwoDigits(n: nat): Str
    requires n < 100
  {
    [ZERO + n / 10, ZERO + n % 10]
  }

  function Magnitude(n: nat): (ds: Str)
    requires n < 1000
    ensures ds != [] && AllDigits(ds)
  {
    if n >= 100 then [ZERO + n / 100] + TwoDigits(n % 100) else if n >= 10 then TwoDigits(n) else [ZERO + n]
  }

  /** `WriteExponent`. */
  function WriteExponent(e: int): Str
    requires -1000 < e < 1000
  {
    Literal(e < 0, Magnitude(if e < 0 then -e else e))
  }

  /** The loops that drop zeros at the end, down to one digit after the point; the text ends after `i`. */
  function TrimZeros(s: Str, i: nat, first: nat): (r: Str)
    requires first <= i < |s|
    ensures first < |r| <= i + 1 && r == s[..|r|]
  {
    if i <= first || s[i] != ZERO then s[..i + 1] else TrimZeros(s, i - 1, first)
  }

  /** Digits with a point after the first `n`. */
  function Pointed(digits: Str, n: nat): Str
    requires n <= |digits|
  {
    digits[..n] + [DOT] + digits[n..]
  }

  /** The digits with a point after the first, if there are others. */
  function Mantissa(digits: Str): Str
    requires digits != []
  {
    if |digits| == 1 then digits else Pointed(digits, 1)
  }

  /** The digits and the power of ten of a positive double, as `Grisu2` finds them. */
  predicate IsShortest(digits: Str, k: int) {
    0 < |digits| <= 17 && AllDigits(digits) && digits[0] != ZERO && -324 <= k && |digits| + k <= 309
  }

  /** `Prettify`. */
  function Prettify(digits: Str, k: int, places: nat): (text: Str)
    requires IsShortest(digits, k) && places >= 1
  {
    var kk := |digits| + k;
    if 0 <= k && kk <= 21 then digits + Zeros(k) + [DOT, ZERO]
    else if 0 < kk <= 21 then
      var all := Pointed(digits, kk);
      if k + places < 0 then TrimZeros(all, kk + places, kk + 1) else all
    else if -6 < kk <= 0 then
      var all := Pointed([ZERO] + Zeros(-kk) + digits, 1);
      if |digits| - kk > places then TrimZeros(all, places + 1, 2) else all
    else if kk + places < 0 then [ZERO, DOT, ZERO]
    else Mantissa(digits) + [LETTER_E] + WriteExponent(kk - 1)
  }

  // ---------------------------------------------------------------------------------------------
  // The decimal number a text denotes
  // ---------------------------------------------------------------------------------------------

  /** An integer part, the digits after a point if there is one, and an exponent if there is one. */
  datatype Shape = Shape(whole: Str, fraction: Str, exp: Option<int>)

  predicate IsShape(s: Shape) {
    && IsCanonical(s.whole) && AllDigits(s.fraction)
    && (s.fraction != [] || s.exp.Some?)
    && (s.exp.Some? ==> -1000 < s.exp.value <= 308)
  }

  function ExponentText(s: Shape): Str
    requires IsShape(s)
  {
    if s.exp.None? then [] else [LETTER_E] + WriteExponent(s.exp.value)
  }

  function FractionText(s: Shape): Str {
    if s.fraction == [] then [] else [DOT] + s.fraction
  }

  function ShapeText(s: Shape): Str
    requires IsShape(s)
  {
    s.whole + FractionText(s) + ExponentText(s)
  }

  /** The power of ten of the last digit. */
  function Power(s: Shape): int {
    (if s.exp.None? then 0 else s.exp.value) - |s.fraction|
  }

  /** `s` denotes `digits` times ten to the `k`. */
  predicate Denotes(s: Shape, digits: Str, k: int)
    requires IsShape(s) && AllDigits(digits)
  {
    k >= Power(s) && ValueOf(0, s.whole + s.fraction) == ValueOf(0, digits) * Ten(k - Power(s))
  }

  lemma {:induction false} ValueOfZeros(value: nat, n: nat)
    ensures ValueOf(value, Zeros(n)) == value * Ten(n)
    decreases n
  {
    if n > 0 {
      assert Zeros(n)[1..] == Zeros(n - 1);
      ValueOfZeros(value * 10, n - 1);
    }
  }

  /** Whether digits are cut off to keep to the number of decimal places. */
  predicate IsCut(digits: Str, k: int, places: nat) {
    var kk := |digits| + k;
    if -6 < kk <= 21 then k + places < 0 else kk + places < 0
  }

  /** What a text without an exponent denotes, in units of its last place when it has so many. */
  function Units(s: Shape, places: nat): nat
    requires IsShape(s) && |s.fraction| <= places
  {
    ValueOf(0, s.whole + s.fraction) * Ten(places - |s.fraction|)
  }

  /**
   * `s` denotes `digits` times ten to the `k` cut to `places` decimal places: never more, and less by under one unit of
   * the last place. On both sides the number is multiplied by ten to the `places`, and by what makes `digits` whole.
   */
  predicate Truncates(s: Shape, digits: Str, k: int, places: nat)
    requires IsShape(s) && AllDigits(digits) && k + places < 0
  {
    && s.exp.None? && |s.fraction| <= places
    && Units(s, places) * Ten(-(k + places)) <= ValueOf(0, digits) < (Units(s, places) + 1) * Ten(-(k + places))
  }

  /** Some places, but not more than allowed, and no zero at the end unless it is the only one. */
  predicate EndsTrimmed(fraction: Str, places: nat) {
    var n := |fraction|;
    0 < n <= places && (n == 1 || fraction[n - 1] != ZERO)
  }

  /**
   * From 10^-6 up to 10^21 there is no exponent, and there are as many places as the digits need, one at least. Beyond,
   * one digit stands before the point. What is cut off leaves no zero at the end, except right after the point.
   */
  predicate HasForm(s: Shape, digits: Str, k: int, places: nat) {
    var kk, n := |digits| + k, |s.fraction|;
    if IsCut(digits, k, places) then s.exp.None? && EndsTrimmed(s.fraction, places)
    else if -6 < kk <= 21 then s.exp.None? && n == if k < 0 then -k else 1
    else s.exp.Some? && |s.whole| == 1
  }

  /** The number itself, or when digits are cut off the number cut to so many places. */
  predicate IsPrintedAs(s: Shape, digits: Str, k: int, places: nat)
    requires IsShape(s) && AllDigits(digits)
  {
    if IsCut(digits, k, places) then k + places < 0 && Truncates(s, digits, k, places) else Denotes(s, digits, k)
  }

  /**
   * What `Prettify` writes has the form of a double. Unless digits were cut off it denotes the number, and if they were,
   * the number cut to that many places.
   */
  lemma PrettifyIsExact(digits: Str, k: int, places: nat) returns (s: Shape)
    requires IsShortest(digits, k) && places >= 1
    ensures IsShape(s) && Prettify(digits, k, places) == ShapeText(s)
    ensures IsPrintedAs(s, digits, k, places) && HasForm(s, digits, k, places)
  {
    var kk := |digits| + k;
    hide Denotes, Truncates;
    if 0 <= k && kk <= 21 {
      s := WholeIsExact(digits, k);
      assert Prettify(digits, k, places) == digits + Zeros(k) + [DOT, ZERO];
    } else if 0 < kk <= 21 {
      s := MixedIsExact(digits, k, places);
    } else if -6 < kk <= 0 {
      s := SmallIsExact(digits, k, places);
    } else if kk + places < 0 {
      s := Shape([ZERO], [ZERO], None);
      assert ShapeText(s) == [ZERO, DOT, ZERO];
      NothingIsLeft(digits, k, places);
    } else {
      s := ScientificIsExact(digits, k);
    }
  }

  // --- cutting off digits ---

  /** A number lies between its first digits with zeros after them and the next such number. */
  lemma {:induction false} FirstDigitsBound(value: nat, ds: Str)
    requires AllDigits(ds)
    ensures value * Ten(|ds|) <= ValueOf(value, ds) < (value + 1) * Ten(|ds|)
    decreases |ds|
  {
    if ds == [] {
      assert Ten(0) == 1;
    } else {
      var v, t := value * 10 + Digit(ds[0]), Ten(|ds| - 1);
      assert Ten(|ds|) == 10 * t;
      FirstDigitsBound(v, ds[1..]);
      hide Ten, ValueOf;
      TimesTen(value, t);
      TimesTen(value + 1, t);
      AtLeast(v, value * 10, t);
      AtLeast((value + 1) * 10, v + 1, t);
    }
  }

  /** What the loops drop are zeros. */
  lemma {:induction false} TrimmedAreZeros(s: Str, i: nat, first: nat)
    requires first <= i < |s|
    ensures var r := TrimZeros(s, i, first);
            s[..i + 1] == r + Zeros(i + 1 - |r|)
    decreases i
  {
    if i > first && s[i] == ZERO {
      TrimmedAreZeros(s, i - 1, first);
      var n := i - |TrimZeros(s, i, first)|;
      assert s[..i + 1] == s[..i] + [ZERO];
      assert Zeros(n + 1) == Zeros(n) + [ZERO];
    }
  }

  /** Digits cut to a number of places, and the zeros at their end dropped. */
  lemma CutTruncates(whole: Str, all: Str, k: int, places: nat, s: Shape, digits: Str)
    requires AllDigits(digits) && AllDigits(whole + all) && ValueOf(0, whole + all) == ValueOf(0, digits)
    requires IsShape(s) && s.exp.None? && s.whole == whole && |s.fraction| <= places && -k == |all| > places
    requires all[..places] == s.fraction + Zeros(places - |s.fraction|)
    ensures Truncates(s, digits, k, places)
  {
    hide ValueOf, Ten, Units, IsShape, AllDigits, Zeros;
    var zeros, dropped := Zeros(places - |s.fraction|), all[places..];
    CutInParts(whole, all, s.fraction, zeros, dropped);
    UnitsAre(s, places);
    ValueOfJoin(0, whole + s.fraction + zeros, dropped);
    FirstDigitsBound(Units(s, places), dropped);
  }

  lemma UnitsAre(s: Shape, places: nat)
    requires IsShape(s) && |s.fraction| <= places
    ensures var all := s.whole + s.fraction + Zeros(places - |s.fraction|);
            AllDigits(all) && Units(s, places) == ValueOf(0, all)
  {
    hide ValueOf, Ten;
    ValueOfJoin(0, s.whole + s.fraction, Zeros(places - |s.fraction|));
    ValueOfZeros(ValueOf(0, s.whole + s.fraction), places - |s.fraction|);
  }

  lemma CutInParts(whole: Str, all: Str, fraction: Str, zeros: Str, dropped: Str)
    requires |fraction| + |zeros| <= |all| && all[..|fraction| + |zeros|] == fraction + zeros && dropped == all[|fraction| + |zeros|..]
    requires AllDigits(whole + all)
    ensures whole + all == whole + fraction + zeros + dropped && AllDigits(whole + fraction + zeros)
    ensures AllDigits(whole + fraction) && AllDigits(zeros) && AllDigits(dropped)
  {
    assert all == fraction + zeros + dropped;
    Regroup3(fraction, zeros, dropped);
    Regroup4(whole, fraction, zeros, dropped);
    hide AllDigits;
    assert AllDigits((whole + fraction + zeros) + dropped);
    DigitsSplit(whole + fraction + zeros, dropped);
    DigitsSplit(whole + fraction, zeros);
  }

  lemma DigitsSplit(a: Str, b: Str)
    requires AllDigits(a + b)
    ensures AllDigits(a) && AllDigits(b)
  {
    assert forall k :: 0 <= k < |a| ==> (a + b)[k] == a[k];
    assert forall k :: 0 <= k < |b| ==> (a + b)[|a| + k] == b[k];
  }

  lemma NothingIsLeft(digits: Str, k: int, places: nat)
    requires AllDigits(digits) && |digits| + k + places < 0 && places >= 1
    ensures Truncates(Shape([ZERO], [ZERO], None), digits, k, places)
  {
    var m := -(k + places);
    assert [ZERO] + [ZERO] == [ZERO, ZERO];
    assert ValueOf(0, [ZERO, ZERO]) == ValueOf(0, [ZERO, ZERO][1..]) == 0;
    FirstDigitsBound(0, digits);
    TenGrows(|digits|, m);
    hide Ten, ValueOf;
    AtLeast(0, 0, Ten(places - 1));
    AtLeast(0, 0, Ten(m));
  }

  lemma WholeIsExact(digits: Str, k: nat) returns (s: Shape)
    requires IsShortest(digits, k)
    ensures IsShape(s) && ShapeText(s) == digits + Zeros(k) + [DOT, ZERO] && Denotes(s, digits, k)
    ensures s.exp.None? && |s.fraction| == 1
  {
    hide ValueOf, Ten;
    s := Shape(digits + Zeros(k), [ZERO], None);
    WholeValue(digits, k);
    assert s.whole[0] == digits[0];
    PlainText(s);
  }

  lemma WholeValue(digits: Str, k: nat)
    requires AllDigits(digits)
    ensures AllDigits(digits + Zeros(k) + [ZERO]) && ValueOf(0, digits + Zeros(k) + [ZERO]) == ValueOf(0, digits) * Ten(k + 1)
  {
    ValueOfJoin(0, digits, Zeros(k + 1));
    ValueOfZeros(ValueOf(0, digits), k + 1);
    assert Zeros(k + 1) == Zeros(k) + [ZERO];
    Regroup3(digits, Zeros(k), [ZERO]);
  }

  /** The digits as they were, at the same power of ten. */
  lemma DenotesSame(s: Shape, digits: Str, k: int)
    requires IsShape(s) && AllDigits(digits) && s.whole + s.fraction == digits && Power(s) == k
    ensures Denotes(s, digits, k)
  {
    hide ValueOf;
    assert Ten(0) == 1;
  }

  lemma {:induction false} TrimZerosTrims(s: Str, i: nat, first: nat)
    requires first <= i < |s|
    ensures var r := TrimZeros(s, i, first);
            |r| == first + 1 || r[|r| - 1] != ZERO
    decreases i
  {
    if i > first && s[i] == ZERO {
      TrimZerosTrims(s, i - 1, first);
    }
  }

  lemma TrimmedFraction(whole: Str, all: Str, places: nat)
    requires whole != [] && 1 <= places < |all|
    ensures var r := TrimZeros(whole + [DOT] + all, |whole| + places, |whole| + 1);
            |r| - |whole| - 1 <= |all| && EndsTrimmed(all[..|r| - |whole| - 1], places)
  {
    var text := whole + [DOT] + all;
    var r := TrimZeros(text, |whole| + places, |whole| + 1);
    TrimZerosTrims(text, |whole| + places, |whole| + 1);
    assert r[|r| - 1] == text[|r| - 1] == all[|r| - |whole| - 2];
  }

  /** What is left when digits are cut off after a point and the zeros before them dropped. */
  lemma CutText(whole: Str, all: Str, places: nat) returns (fraction: Str)
    requires whole != [] && 1 <= places < |all|
    ensures EndsTrimmed(fraction, places) && |fraction| <= places
    ensures TrimZeros(whole + [DOT] + all, |whole| + places, |whole| + 1) == whole + [DOT] + fraction
    ensures all[..places] == fraction + Zeros(places - |fraction|) && fraction == all[..|fraction|]
  {
    hide EndsTrimmed, Zeros;
    var text := whole + [DOT] + all;
    var r := TrimZeros(text, |whole| + places, |whole| + 1);
    TrimmedFraction(whole, all, places);
    TrimmedAreZeros(text, |whole| + places, |whole| + 1);
    hide TrimZeros;
    fraction := all[..|r| - |whole| - 1];
    Begins(whole + [DOT], all, |fraction|);
    Begins(whole + [DOT], all, places);
    Behind(whole + [DOT], fraction, Zeros(places - |fraction|));
  }

  lemma Begins(a: Str, b: Str, n: nat)
    requires n <= |b|
    ensures (a + b)[..|a| + n] == a + b[..n]
  {
  }

  lemma Behind(a: Str, b: Str, c: Str)
    ensures a + b + c == a + (b + c) && (a + (b + c))[|a|..] == b + c
  {
  }

  lemma CutShape(whole: Str, all: Str, k: int, places: nat, digits: Str) returns (s: Shape)
    requires IsCanonical(whole) && AllDigits(all) && 1 <= places < |all| == -k
    requires AllDigits(digits) && AllDigits(whole + all) && ValueOf(0, whole + all) == ValueOf(0, digits)
    ensures IsShape(s) && ShapeText(s) == TrimZeros(whole + [DOT] + all, |whole| + places, |whole| + 1)
    ensures Truncates(s, digits, k, places)
    ensures s.exp.None? && EndsTrimmed(s.fraction, places)
  {
    hide ValueOf, Truncates, TrimZeros;
    var fraction := CutText(whole, all, places);
    s := Shape(whole, fraction, None);
    PlainText(s);
    CutTruncates(whole, all, k, places, s, digits);
  }

  lemma MixedIsExact(digits: Str, k: int, places: nat) returns (s: Shape)
    requires IsShortest(digits, k) && places >= 1 && k < 0 < |digits| + k <= 21
    ensures IsShape(s) && Prettify(digits, k, places) == ShapeText(s)
    ensures if k + places < 0 then Truncates(s, digits, k, places) else Denotes(s, digits, k)
    ensures HasForm(s, digits, k, places)
  {
    hide ValueOf, TrimZeros, Denotes, Truncates, Ten, ShapeText;
    var kk := |digits| + k;
    var whole, fraction := digits[..kk], digits[kk..];
    assert whole[0] == digits[0];
    if k + places < 0 {
      assert whole + fraction == digits;
      s := CutShape(whole, fraction, k, places, digits);
    } else {
      s := Shape(whole, fraction, None);
      PlainText(s);
      DenotesSame(s, digits, k);
    }
  }

  lemma PlainText(s: Shape)
    requires IsShape(s) && s.exp.None?
    ensures ShapeText(s) == s.whole + [DOT] + s.fraction
  {
    assert ShapeText(s) == s.whole + ([DOT] + s.fraction) + [];
  }

  lemma SmallValue(digits: Str, n: nat)
    requires AllDigits(digits)
    ensures AllDigits([ZERO] + (Zeros(n) + digits)) && ValueOf(0, [ZERO] + (Zeros(n) + digits)) == ValueOf(0, digits)
  {
    ValueOfJoin(0, Zeros(n + 1), digits);
    ValueOfZeros(0, n + 1);
    assert Zeros(n + 1) == [ZERO] + Zeros(n);
    Regroup3([ZERO], Zeros(n), digits);
  }

  lemma SmallDenotes(digits: Str, k: int, s: Shape)
    requires AllDigits(digits) && |digits| + k <= 0 && digits != []
    requires s == Shape([ZERO], Zeros(-(|digits| + k)) + digits, None)
    ensures IsShape(s) && Denotes(s, digits, k)
  {
    hide ValueOf;
    SmallValue(digits, -(|digits| + k));
    assert Power(s) == k && Ten(0) == 1;
  }

  /** What is laid out before anything is cut off. */
  lemma SmallLayout(digits: Str, n: nat)
    requires AllDigits(digits)
    ensures Pointed([ZERO] + Zeros(n) + digits, 1) == [ZERO] + [DOT] + (Zeros(n) + digits) && AllDigits(Zeros(n) + digits)
  {
    var all := [ZERO] + Zeros(n) + digits;
    assert all[..1] == [ZERO] && all[1..] == Zeros(n) + digits;
  }

  lemma SmallIsExact(digits: Str, k: int, places: nat) returns (s: Shape)
    requires IsShortest(digits, k) && places >= 1 && -6 < |digits| + k <= 0
    ensures IsShape(s) && Prettify(digits, k, places) == ShapeText(s)
    ensures if k + places < 0 then Truncates(s, digits, k, places) else Denotes(s, digits, k)
    ensures HasForm(s, digits, k, places)
  {
    hide ValueOf, TrimZeros, Denotes, Truncates, Ten, ShapeText, Zeros, Pointed;
    var kk := |digits| + k;
    var fraction := Zeros(-kk) + digits;
    SmallLayout(digits, -kk);
    if k + places < 0 {
      SmallValue(digits, -kk);
      s := CutShape([ZERO], fraction, k, places, digits);
    } else {
      s := Shape([ZERO], fraction, None);
      SmallDenotes(digits, k, s);
      PlainText(s);
    }
  }

  lemma ScientificIsExact(digits: Str, k: int) returns (s: Shape)
    requires IsShortest(digits, k)
    ensures IsShape(s) && Denotes(s, digits, k)
    ensures ShapeText(s) == Mantissa(digits) + [LETTER_E] + WriteExponent(|digits| + k - 1)
    ensures s.exp.Some? && |s.whole| == 1
  {
    s := Shape(digits[..1], digits[1..], Some(|digits| + k - 1));
    DenotesSame(s, digits, k);
    if |digits| == 1 {
      assert digits[..1] + [] == digits;
    }
    Regroup3(s.whole + FractionText(s), [LETTER_E], WriteExponent(s.exp.value));
    Regroup3(s.whole, [DOT], s.fraction);
  }

  // ---------------------------------------------------------------------------------------------
  // Reading
  // ---------------------------------------------------------------------------------------------

  lemma TwoDigitsAre(value: nat, n: nat)
    requires n < 100
    ensures AllDigits(TwoDigits(n)) && ValueOf(value, TwoDigits(n)) == value * 100 + n
  {
    var c, d: Ch := ZERO + n / 10, ZERO + n % 10;
    assert TwoDigits(n) == [c] + [d];
    OneDigit(value, c);
    OneDigit(value * 10 + Digit(c), d);
    ValueOfJoin(value, [c], [d]);
    hide ValueOf;
    assert n / 10 * 10 + n % 10 == n;
  }

  lemma MagnitudeIs(n: nat)
    requires n < 1000
    ensures ValueOf(0, Magnitude(n)) == n
  {
    hide ValueOf, TwoDigits;
    if n >= 100 {
      var c: Ch := ZERO + n / 100;
      OneDigit(0, c);
      TwoDigitsAre(n / 100, n % 100);
      ValueOfJoin(0, [c], TwoDigits(n % 100));
      assert n / 100 * 100 + n % 100 == n;
    } else if n >= 10 {
      TwoDigitsAre(0, n);
    } else {
      OneDigit(0, ZERO + n);
    }
  }

  lemma OneDigit(value: nat, c: Ch)
    requires IsDigit(c)
    ensures ValueOf(value, [c]) == value * 10 + Digit(c)
  {
    assert [c][1..] == [];
  }

  /** The digits of an exponent, with its sign when it is negative. */
  lemma ExponentIs(e: int)
    requires -1000 < e <= 308
    ensures IsSigned(WriteExponent(e)) && (Peek(WriteExponent(e)) == MINUS <==> e < 0)
    ensures e >= 0 ==> ValueOf(0, Unsigned(WriteExponent(e))) == e
  {
    hide Magnitude, ValueOf;
    var s := WriteExponent(e);
    var ds := Magnitude(if e < 0 then -e else e);
    assert s == Literal(e < 0, ds);
    if e < 0 {
      assert s[1..] == ds;
    } else {
      MagnitudeIs(e);
    }
  }

  /** What the reader reports for a text of the form of a double. */
  function ReadShape(f: Flags, minus: bool, s: Shape): NumberResult
    requires IsShape(s)
  {
    var m := f.strtod(minus, ShapeText(s));
    if m == INFINITY then NumberErr(NumberTooBig, |Literal(minus, ShapeText(s))|) else NumberOk(DoubleEvent(WithSign(minus, m)), [])
  }

  /** The shape as a numeral: reported as a double, with an exponent that passes the reader's guard. */
  lemma ShapeIsNumeral(f: Flags, minus: bool, s: Shape)
    requires IsShape(s)
    ensures var n := Numeral(minus, s.whole, FractionText(s), ExponentText(s));
            && IsNumeral(n) && Ends(n, []) && IsFloating(n) && !ExponentIsTooBig(n)
            && SpellNumeral(n) + [] == Literal(minus, ShapeText(s)) && Converted(f, n) == f.strtod(minus, ShapeText(s))
  {
    hide WriteExponent, ValueOf, IsSigned, Counted;
    var n := Numeral(minus, s.whole, FractionText(s), ExponentText(s));
    if s.exp.Some? {
      ExponentIs(s.exp.value);
      assert n.exponent[1..] == WriteExponent(s.exp.value);
    }
    Regroup3(s.whole, FractionText(s), ExponentText(s));
    Regroup3([MINUS], s.whole, FractionText(s) + ExponentText(s));
    assert SpellNumeral(n) == Literal(minus, ShapeText(s));
    assert SpellNumeral(n) + [] == SpellNumeral(n);
  }

  /** A text of the form of a double is read whole, as the double it converts to, unless that is infinite. */
  lemma ShapeIsRead(f: Flags, minus: bool, s: Shape)
    requires IsShape(s)
    ensures ParseNumber(f, Literal(minus, ShapeText(s))) == ReadShape(f, minus, s)
  {
    hide ParseNumber, IsNumeral, Ends, ExponentIsTooBig, SpellNumeral, ExponentText, FractionText, IsFloating, Converted, ShapeText;
    ShapeIsNumeral(f, minus, s);
    NumeralIsRead(f, Numeral(minus, s.whole, FractionText(s), ExponentText(s)), []);
  }

  // ---------------------------------------------------------------------------------------------
  // The printer
  // ---------------------------------------------------------------------------------------------

  /** Digits and a power of ten as `Grisu2` may find them. */
  datatype Decimal = Decimal(digits: Str, k: int)

  type Shortest = d: Decimal | IsShortest(d.digits, d.k) witness Decimal([ZERO + 1], 0)

  type Places = n: int | n >= 1 witness 324

  /** `dtoa`: the digits `Grisu2` finds for a positive double, and the number of places `SetMaxDecimalPlaces` sets. */
  datatype Printer = Printer(grisu: Magnitude -> Shortest, places: Places)

  /** The text of a finite double without its sign. */
  function MagnitudeText(p: Printer, m: Magnitude): Str {
    if m == 0 then [ZERO, DOT, ZERO] else Prettify(p.grisu(m).digits, p.grisu(m).k, p.places)
  }

  /** `WriteDouble` without the options for NaN and infinity, for which nothing is written. */
  function WriteDouble(p: Printer, b: Bits): Str {
    if !IsFinite(b) then [] else Literal(IsNegative(b), MagnitudeText(p, MagnitudeOf(b)))
  }

  lemma MagnitudeShape(p: Printer, m: Magnitude) returns (s: Shape)
    ensures IsShape(s) && MagnitudeText(p, m) == ShapeText(s)
    ensures m > 0 ==> IsPrintedAs(s, p.grisu(m).digits, p.grisu(m).k, p.places) && HasForm(s, p.grisu(m).digits, p.grisu(m).k, p.places)
  {
    hide Denotes, Truncates, IsCut, HasForm;
    if m == 0 {
      s := Shape([ZERO], [ZERO], None);
      PlainText(s);
    } else {
      s := PrettifyIsExact(p.grisu(m).digits, p.grisu(m).k, p.places);
    }
  }

  /** The digits that are printed convert back to the double they were found for. */
  predicate ReadsBack(f: Flags, p: Printer, b: Bits) {
    IsFinite(b) && f.strtod(IsNegative(b), MagnitudeText(p, MagnitudeOf(b))) == MagnitudeOf(b)
  }

  lemma SignAndMagnitude(b: Bits)
    requires IsFinite(b)
    ensures WithSign(IsNegative(b), MagnitudeOf(b)) == b
  {
  }

  /**
   * What is printed for a finite double is read back whole and as that double if and only if its text
   * converts back to it, with its sign.
   */
  lemma PrintedDoubleIsReadIff(f: Flags, p: Printer, b: Bits)
    requires IsFinite(b)
    ensures IsDoubleLiteral(f, WriteDouble(p, b), b) <==> ReadsBack(f, p, b)
  {
    hide ParseNumber, MagnitudeText, IsFinite, IsNegative, MagnitudeOf;
    var s := MagnitudeShape(p, MagnitudeOf(b));
    ShapeIsRead(f, IsNegative(b), s);
    SignAndMagnitude(b);
    assert MagnitudeOf(b) < INFINITY by { MagnitudeIsFinite(b); }
    var m := f.strtod(IsNegative(b), ShapeText(s));
    if m < INFINITY {
      SignedIs(IsNegative(b), m);
    }
  }

  lemma MagnitudeIsFinite(b: Bits)
    requires IsFinite(b)
    ensures MagnitudeOf(b) < INFINITY
  {
  }

  /** With the default number of places, what is printed denotes exactly the digits found. */
  lemma PrintedDoubleIsExact(p: Printer, m: Magnitude)
    requires m > 0 && p.places >= 324
    ensures exists s :: IsShape(s) && MagnitudeText(p, m) == ShapeText(s) && Denotes(s, p.grisu(m).digits, p.grisu(m).k)
  {
    var d := p.grisu(m);
    assert IsShortest(d.digits, d.k);
    assert !IsCut(d.digits, d.k, p.places);
    var s := MagnitudeShape(p, m);
  }

  /** With fewer places it denotes the digits found, cut to those places when they do not suffice. */
  lemma PrintedDoubleIsTruncated(p: Printer, m: Magnitude)
    requires m > 0
    ensures exists s :: IsShape(s) && MagnitudeText(p, m) == ShapeText(s) && IsPrintedAs(s, p.grisu(m).digits, p.grisu(m).k, p.places)
                     && HasForm(s, p.grisu(m).digits, p.grisu(m).k, p.places)
  {
    hide IsPrintedAs, HasForm;
    var s := MagnitudeShape(p, m);
  }

  // ---------------------------------------------------------------------------------------------
  // Printing in place
  // ---------------------------------------------------------------------------------------------

  /** `WriteDouble` gives `dtoa` a buffer of this many units. */
  const BUFFER := 25

  /** `WriteExponent`, from `at` on. */
  method PutExponent(buffer: array<Ch>, at: nat, e: int) returns (end: nat)
    requires -1000 < e < 1000 && at + 4 <= buffer.Length
    modifies buffer
    ensures at <= end <= at + 4 && buffer[at..end] == WriteExponent(e)
    ensures buffer[..at] == old(buffer[..at])
  {
    end := at;
    var n := e;
    if n < 0 {
      buffer[end] := MINUS;
      end := end + 1;
      n := -n;
    }
    if n >= 100 {
      buffer[end] := ZERO + n / 100;
      n := n % 100;
      buffer[end + 1], buffer[end + 2] := TwoDigits(n)[0], TwoDigits(n)[1];
      end := end + 3;
    } else if n >= 10 {
      buffer[end], buffer[end + 1] := TwoDigits(n)[0], TwoDigits(n)[1];
      end := end + 2;
    } else {
      buffer[end] := ZERO + n;
      end := end + 1;
    }
  }

  /** The loops that look for the last digit to keep. */
  method TrimEnd(buffer: array<Ch>, at: nat, ghost all: Str, last: nat, first: nat) returns (end: nat)
    requires first <= last < |all| && at + |all| <= buffer.Length && buffer[at..at + |all|] == all
    ensures end == at + |TrimZeros(all, last, first)|
  {
    var i := last;
    while i > first
      invariant first <= i <= last && TrimZeros(all, last, first) == TrimZeros(all, i, first)
    {
      assert buffer[at + i] == all[i];
      if buffer[at + i] != ZERO {
        return at + i + 1;
      }
      i := i - 1;
    }
    end := at + first + 1;
  }

  /** A buffer after `Move`. */
  function Moved(b: Str, to: nat, from: nat, n: nat): (r: Str)
    requires to + n <= |b| && from + n <= |b|
    ensures |r| == |b|
  {
    b[..to] + b[from..from + n] + b[to + n..]
  }

  /** `memmove` within the buffer. */
  method Move(buffer: array<Ch>, to: nat, from: nat, n: nat)
    requires to + n <= buffer.Length && from + n <= buffer.Length
    modifies buffer
    ensures buffer[..] == Moved(old(buffer[..]), to, from, n)
  {
    ghost var before, after := buffer[..], Moved(buffer[..], to, from, n);
    MovedAt(before, to, from, n);
    forall i | 0 <= i < n {
      buffer[to + i] := buffer[from + i];
    }
    assert forall k :: 0 <= k < |after| ==> buffer[k] == after[k];
  }

  lemma MovedAt(b: Str, to: nat, from: nat, n: nat)
    requires to + n <= |b| && from + n <= |b|
    ensures var after := Moved(b, to, from, n);
            |after| == |b| && forall k :: 0 <= k < |b| ==> after[k] == if to <= k < to + n then b[from + (k - to)] else b[k]
  {
  }

  /** A run of zeros. */
  method PutZeros(buffer: array<Ch>, from: nat, to: nat)
    requires from <= to <= buffer.Length
    modifies buffer
    ensures buffer[..] == old(buffer[..])[..from] + Zeros(to - from) + old(buffer[..])[to..]
  {
    for i := from to to
      invariant buffer[..] == old(buffer[..])[..from] + Zeros(i - from) + old(buffer[..])[i..]
    {
      buffer[i] := ZERO;
    }
  }

  /** The digits lie in the buffer from `at` on; a sign may be in front of them. */
  predicate Holds(buffer: Str, at: nat, length: nat, k: int) {
    |buffer| == BUFFER && at <= 1 && at + length <= BUFFER && IsShortest(buffer[at..at + length], k)
  }

  /** 1234e7 as 12340000000.0. */
  method PutWhole(buffer: array<Ch>, at: nat, length: nat, k: int) returns (end: nat)
    requires Holds(buffer[..], at, length, k) && k >= 0 && length + k <= 21
    modifies buffer
    ensures at <= end <= BUFFER && buffer[..at] == old(buffer[..at])
    ensures buffer[at..end] == old(buffer[at..at + length]) + Zeros(k) + [DOT, ZERO]
  {
    hide AllDigits, Zeros;
    ghost var digits := buffer[at..at + length];
    var kk := length + k;
    PutZeros(buffer, at + length, at + kk);
    assert buffer[at..at + kk] == digits + Zeros(k);
    buffer[at + kk], buffer[at + kk + 1] := DOT, ZERO;
    end := at + kk + 2;
    assert buffer[at..end] == buffer[at..at + kk] + [DOT, ZERO];
  }

  lemma PointMoved(b: Str, at: nat, length: nat, n: nat)
    requires n <= length && at + length < |b|
    ensures var r := Moved(b, at + n + 1, at + n, length - n)[at + n := DOT];
            r[..at] == b[..at] && r[at..at + length + 1] == Pointed(b[at..at + length], n)
  {
  }

  lemma MixedIs(digits: Str, k: int, places: nat)
    requires IsShortest(digits, k) && places >= 1 && k < 0 < |digits| + k <= 21
    ensures var all := Pointed(digits, |digits| + k);
            Prettify(digits, k, places) == if k + places < 0 then TrimZeros(all, |digits| + k + places, |digits| + k + 1) else all
  {
  }

  /** The digits with a point after the first `n`. */
  method PutPoint(buffer: array<Ch>, at: nat, length: nat, n: nat)
    requires n <= length && at + length < buffer.Length
    modifies buffer
    ensures buffer[at..at + length + 1] == Pointed(old(buffer[at..at + length]), n) && buffer[..at] == old(buffer[..at])
  {
    hide Pointed, Moved;
    ghost var b := buffer[..];
    PointMoved(b, at, length, n);
    Move(buffer, at + n + 1, at + n, length - n);
    buffer[at + n] := DOT;
    assert buffer[..] == Moved(b, at + n + 1, at + n, length - n)[at + n := DOT];
    assert buffer[at..at + length + 1] == buffer[..][at..at + length + 1];
    assert buffer[..at] == buffer[..][..at];
  }

  /** The text in the buffer, cut after `last` with the zeros in front of there. */
  method Cut(buffer: array<Ch>, at: nat, ghost all: Str, last: nat, first: nat) returns (end: nat)
    requires first <= last < |all| && at + |all| <= buffer.Length && buffer[at..at + |all|] == all
    ensures at <= end <= at + |all| && buffer[at..end] == TrimZeros(all, last, first)
  {
    hide TrimZeros;
    end := TrimEnd(buffer, at, all, last, first);
    assert buffer[at..end] == buffer[at..at + |all|][..end - at];
  }

  /** 1234e-2 as 12.34. */
  method PutMixed(buffer: array<Ch>, at: nat, length: nat, k: int, places: nat) returns (end: nat)
    requires Holds(buffer[..], at, length, k) && places >= 1 && k < 0 < length + k <= 21
    modifies buffer
    ensures at <= end <= BUFFER && buffer[..at] == old(buffer[..at])
    ensures buffer[at..end] == Prettify(old(buffer[at..at + length]), k, places)
  {
    hide AllDigits, TrimZeros, Prettify;
    var kk := length + k;
    ghost var digits := buffer[at..at + length];
    MixedIs(digits, k, places);
    PutPoint(buffer, at, length, kk);
    end := at + length + 1;
    if k + places < 0 {
      end := Cut(buffer, at, Pointed(digits, kk), kk + places, kk + 1);
    }
  }

  lemma Slices(b: Str, at: nat, middle: nat, end: nat)
    requires at <= middle <= end <= |b|
    ensures b[at..end] == b[..middle][at..] + b[middle..end]
    ensures b[..at] == b[..middle][..at]
  {
  }

  lemma SliceOfJoin(a: Str, b: Str, c: Str)
    ensures (a + b + c)[..|a|] == a && (a + b + c)[|a|..|a| + |b|] == b
  {
  }

  lemma MovedFront(b: Str, at: nat, length: nat, zeros: nat)
    requires at + 2 + zeros + length <= |b|
    ensures var r, mid := Moved(b, at + 2 + zeros, at, length)[at := ZERO][at + 1 := DOT], at + 2 + zeros;
            r[..at + 2] == b[..at] + [ZERO, DOT] && r[mid..] == b[at..at + length] + b[mid + length..]
  {
  }

  lemma ZerosMoved(b: Str, at: nat, length: nat, zeros: nat)
    requires at + 2 + zeros + length <= |b|
    ensures var r := Moved(b, at + 2 + zeros, at, length)[at := ZERO][at + 1 := DOT];
            var s := r[..at + 2] + Zeros(zeros) + r[at + 2 + zeros..];
            s[..at] == b[..at] && s[at..at + 2 + zeros + length] == Pointed([ZERO] + Zeros(zeros) + b[at..at + length], 1)
  {
    var r := Moved(b, at + 2 + zeros, at, length)[at := ZERO][at + 1 := DOT];
    var s := r[..at + 2] + Zeros(zeros) + r[at + 2 + zeros..];
    var digits, mid := b[at..at + length], at + 2 + zeros;
    var front, post := [ZERO, DOT] + Zeros(zeros), b[mid + length..];
    MovedFront(b, at, length, zeros);
    assert s == b[..at] + [ZERO, DOT] + Zeros(zeros) + (digits + post);
    Regroup5(b[..at], [ZERO, DOT], Zeros(zeros), digits, post);
    Regroup4([ZERO, DOT], Zeros(zeros), digits, post);
    SliceOfJoin(b[..at], front + digits, post);
    var all := [ZERO] + Zeros(zeros) + digits;
    assert all[..1] == [ZERO] && all[1..] == Zeros(zeros) + digits;
  }

  lemma SmallIs(digits: Str, k: int, places: nat)
    requires IsShortest(digits, k) && places >= 1 && -6 < |digits| + k <= 0
    ensures var all := Pointed([ZERO] + Zeros(-(|digits| + k)) + digits, 1);
            Prettify(digits, k, places) == if -k > places then TrimZeros(all, places + 1, 2) else all
  {
  }

  /** A zero, a point, more zeros and the digits. */
  method PutZeroPoint(buffer: array<Ch>, at: nat, length: nat, zeros: nat)
    requires at + 2 + zeros + length <= buffer.Length
    modifies buffer
    ensures buffer[at..at + 2 + zeros + length] == Pointed([ZERO] + Zeros(zeros) + old(buffer[at..at + length]), 1)
    ensures buffer[..at] == old(buffer[..at])
  {
    hide Pointed, Moved, Zeros;
    ghost var b := buffer[..];
    ZerosMoved(b, at, length, zeros);
    Move(buffer, at + 2 + zeros, at, length);
    buffer[at], buffer[at + 1] := ZERO, DOT;
    assert buffer[..] == Moved(b, at + 2 + zeros, at, length)[at := ZERO][at + 1 := DOT];
    PutZeros(buffer, at + 2, at + 2 + zeros);
    assert buffer[at..at + 2 + zeros + length] == buffer[..][at..at + 2 + zeros + length];
    assert buffer[..at] == buffer[..][..at];
  }

  /** 1234e-6 as 0.001234. */
  method PutSmall(buffer: array<Ch>, at: nat, length: nat, k: int, places: nat) returns (end: nat)
    requires Holds(buffer[..], at, length, k) && places >= 1 && -6 < length + k <= 0
    modifies buffer
    ensures at <= end <= BUFFER && buffer[..at] == old(buffer[..at])
    ensures buffer[at..end] == Prettify(old(buffer[at..at + length]), k, places)
  {
    hide AllDigits, TrimZeros, Prettify;
    var kk := length + k;
    ghost var digits := buffer[at..at + length];
    SmallIs(digits, k, places);
    PutZeroPoint(buffer, at, length, -kk);
    end := at + length + 2 - kk;
    if length - kk > places {
      end := Cut(buffer, at, Pointed([ZERO] + Zeros(-kk) + digits, 1), places + 1, 2);
    }
  }

  method PutMantissa(buffer: array<Ch>, at: nat, length: nat) returns (end: nat)
    requires length > 0 && at + length < buffer.Length
    modifies buffer
    ensures at < end <= at + length + 1 && buffer[..at] == old(buffer[..at])
    ensures buffer[at..end] == Mantissa(old(buffer[at..at + length]))
  {
    end := at + 1;
    if length > 1 {
      PutPoint(buffer, at, length, 1);
      end := at + length + 1;
    }
  }

  /** 1234e30 as 1.234e33, and a single digit without a point. */
  method PutScientific(buffer: array<Ch>, at: nat, length: nat, k: int) returns (end: nat)
    requires Holds(buffer[..], at, length, k)
    modifies buffer
    ensures at <= end <= BUFFER && buffer[..at] == old(buffer[..at])
    ensures buffer[at..end] == Mantissa(old(buffer[at..at + length])) + [LETTER_E] + WriteExponent(length + k - 1)
  {
    hide ValueOf, WriteExponent, AllDigits, Mantissa;
    var e := PutMantissa(buffer, at, length);
    ghost var mantissa := buffer[at..e];
    buffer[e] := LETTER_E;
    ghost var front := buffer[..e + 1];
    assert front[at..] == mantissa + [LETTER_E];
    end := PutExponent(buffer, e + 1, length + k - 1);
    Slices(buffer[..], at, e + 1, end);
    assert buffer[..][..e + 1] == front;
  }

  lemma LayoutIs(digits: Str, k: int, places: nat)
    requires IsShortest(digits, k) && places >= 1
    ensures var kk, r := |digits| + k, Prettify(digits, k, places);
            && (k >= 0 && kk <= 21 ==> r == digits + Zeros(k) + [DOT, ZERO])
            && (kk > 21 || kk <= -6 ==> r == if kk + places < 0 then [ZERO, DOT, ZERO] else Mantissa(digits) + [LETTER_E] + WriteExponent(kk - 1))
  {
  }

  /** `Prettify`, in place. */
  method PrettifyInPlace(buffer: array<Ch>, at: nat, length: nat, k: int, places: nat) returns (end: nat)
    requires Holds(buffer[..], at, length, k) && places >= 1
    modifies buffer
    ensures at <= end <= BUFFER && buffer[..at] == old(buffer[..at])
    ensures buffer[at..end] == Prettify(old(buffer[at..at + length]), k, places)
  {
    hide Prettify, Mantissa, WriteExponent, Zeros, IsShortest;
    var kk := length + k;
    LayoutIs(buffer[at..at + length], k, places);
    if 0 <= k && kk <= 21 {
      end := PutWhole(buffer, at, length, k);
    } else if 0 < kk <= 21 {
      end := PutMixed(buffer, at, length, k, places);
    } else if -6 < kk <= 0 {
      end := PutSmall(buffer, at, length, k, places);
    } else if kk + places < 0 {
      buffer[at], buffer[at + 1], buffer[at + 2] := ZERO, DOT, ZERO;
      end := at + 3;
    } else {
      end := PutScientific(buffer, at, length, k);
    }
  }

  /** `dtoa` of a finite double, into the buffer of `WriteDouble`. */
  method DtoaInPlace(p: Printer, b: Bits, buffer: array<Ch>) returns (end: nat)
    requires IsFinite(b) && buffer.Length == BUFFER
    modifies buffer
    ensures end <= BUFFER && buffer[..end] == WriteDouble(p, b)
  {
    hide MagnitudeText, IsNegative;
    var at := 0;
    if IsNegative(b) {
      buffer[0] := MINUS;
      at := 1;
    }
    ghost var sign := buffer[..at];
    end := PutMagnitude(p, MagnitudeOf(b), buffer, at);
    assert buffer[..end] == buffer[..at] + buffer[at..end];
  }

  /** What comes after the sign. */
  method PutMagnitude(p: Printer, m: Magnitude, buffer: array<Ch>, at: nat) returns (end: nat)
    requires at <= 1 && buffer.Length == BUFFER
    modifies buffer
    ensures at <= end <= BUFFER && buffer[at..end] == MagnitudeText(p, m) && buffer[..at] == old(buffer[..at])
  {
    hide Prettify;
    if m == 0 {
      buffer[at], buffer[at + 1], buffer[at + 2] := ZERO, DOT, ZERO;
      end := at + 3;
    } else {
      var d := p.grisu(m);
      PutDigits(buffer, at, d.digits);
      end := PrettifyInPlace(buffer, at, |d.digits|, d.k, p.places);
    }
  }

  /** The digits, as `Grisu2` leaves them in the buffer. */
  method PutDigits(buffer: array<Ch>, at: nat, digits: Str)
    requires at + |digits| <= buffer.Length
    modifies buffer
    ensures buffer[at..at + |digits|] == digits && buffer[..at] == old(buffer[..at])
  {
    for i := 0 to |digits|
      invariant buffer[at..at + i] == digits[..i] && buffer[..at] == old(buffer[..at])
    {
      buffer[at + i] := digits[i];
      assert buffer[at..at + i + 1] == buffer[at..at + i] + [digits[i]];
    }
  }
}
