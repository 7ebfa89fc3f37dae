/** Where ParseNumber of include/rapidjson/reader.h gives up on a number, and with which error. */
module NumberRefusal {
  import opened Text
  import opened ParseTypes
  import opened Number
  import opened NumberText
  import opened NumberGrammar
  import opened NumberMeaning

  /** A number up to where a digit is due: after its minus, after its point, or in its exponent. */
  datatype CutNumber =
    | NoWhole
    | NoFraction(minus: bool, whole: Str)
    | NoExponent(minus: bool, whole: Str, fraction: Str, mark: Ch, sign: Str)

  /** No digit follows. */
  predicate IsCut(p: CutNumber, rest: Str) {
    && !IsDigit(Peek(rest))
    && match p
       case NoWhole => true
       case NoFraction(_, whole) => IsCanonical(whole)
       case NoExponent(_, whole, fraction, mark, sign) =>
         && IsCanonical(whole) && IsFraction(fraction) && IsExponentMark(mark)
         && if sign == [] then Peek(rest) != PLUS && Peek(rest) != MINUS else sign == [PLUS] || sign == [MINUS]
  }

  function SpellCut(p: CutNumber): Str {
    match p
    case NoWhole => [MINUS]
    case NoFraction(minus, whole) => Literal(minus, whole) + [DOT]
    case NoExponent(minus, whole, fraction, mark, sign) => Literal(minus, whole) + (fraction + ([mark] + sign))
  }

  function CutCode(p: CutNumber): ErrorCode {
    match p
    case NoWhole => ValueInvalid
    case NoFraction(_, _) => NumberMissFraction
    case NoExponent(_, _, _, _, _) => NumberMissExponent
  }

  lemma NoWholeIsRefused(f: Flags, rest: Str)
    requires !IsDigit(Peek(rest))
    ensures ParseNumber(f, [MINUS] + rest) == NumberErr(ValueInvalid, |rest|)
  {
    assert ([MINUS] + rest)[1..] == rest;
  }

  lemma NoFractionIsRefused(f: Flags, minus: bool, whole: Str, rest: Str)
    requires IsCanonical(whole) && !IsDigit(Peek(rest))
    ensures ParseNumber(f, Literal(minus, whole) + ([DOT] + rest)) == NumberErr(NumberMissFraction, |rest|)
  {
    hide ScanInteger;
    var tail := [DOT] + rest;
    ScanIntegerIsExact(minus, whole, tail);
    assert tail[1..] == rest;
  }

  lemma NoExponentIsRefused(f: Flags, minus: bool, whole: Str, fraction: Str, mark: Ch, sign: Str, rest: Str)
    requires IsCut(NoExponent(minus, whole, fraction, mark, sign), rest)
    ensures ParseNumber(f, Literal(minus, whole) + (fraction + ([mark] + (sign + rest)))) == NumberErr(NumberMissExponent, |rest|)
  {
    hide ScanInteger, ScanFraction, ValueOf;
    var tail := [mark] + (sign + rest);
    assert fraction == [] ==> fraction + tail == tail;
    ScanIntegerIsExact(minus, whole, fraction + tail);
    var i := ScanInteger(Literal(minus, whole) + (fraction + tail));
    FractionIsTaken(i, fraction, tail);
    assert tail[1..] == sign + rest;
    if sign == [] {
      assert sign + rest == rest;
    } else {
      assert (sign + rest)[1..] == rest;
    }
  }

  /** Where a digit is due and does not come, the number is refused there. */
  lemma CutIsRefused(f: Flags, p: CutNumber, rest: Str)
    requires IsCut(p, rest)
    ensures ParseNumber(f, SpellCut(p) + rest) == NumberErr(CutCode(p), |rest|)
  {
    hide ParseNumber;
    match p
    case NoWhole => NoWholeIsRefused(f, rest);
    case NoFraction(minus, whole) =>
      Regroup3(Literal(minus, whole), [DOT], rest);
      NoFractionIsRefused(f, minus, whole, rest);
    case NoExponent(minus, whole, fraction, mark, sign) =>
      Regroup3(Literal(minus, whole), fraction + ([mark] + sign), rest);
      Regroup3(fraction, [mark] + sign, rest);
      Regroup3([mark], sign, rest);
      NoExponentIsRefused(f, minus, whole, fraction, mark, sign, rest);
  }

  /** A sign, or none. */
  function SignOf(t: Str): Str {
    if Peek(t) == PLUS || Peek(t) == MINUS then t[..1] else []
  }

  lemma SignIs(t: Str)
    ensures t == SignOf(t) + Unsigned(t)
    ensures var sign, rest := SignOf(t), Unsigned(t);
            if sign == [] then Peek(rest) != PLUS && Peek(rest) != MINUS else sign == [PLUS] || sign == [MINUS]
  {
    if t != [] {
      assert t[..1] == [t[0]];
    }
  }

  /** A number without its exponent's digits. */
  lemma RefusedIsNoExponent(s: Str) returns (p: CutNumber, rest: Str)
    requires ScanInteger(s).Integer? && ScanFraction(ScanInteger(s)).Fraction?
    requires var t := ScanFraction(ScanInteger(s)).rest;
             IsExponentMark(Peek(t)) && !IsDigit(Peek(Unsigned(t[1..])))
    ensures IsCut(p, rest) && s == SpellCut(p) + rest
  {
    hide ScanInteger, ScanFraction, SignOf, Unsigned, IsCanonical, IsFraction;
    var i := ScanInteger(s);
    var t := ScanFraction(i).rest;
    var minus, whole := ReadIsWhole(s);
    var fraction := ReadIsFraction(i);
    var sign := SignOf(t[1..]);
    rest := Unsigned(t[1..]);
    p := NoExponent(minus, whole, fraction, t[0], sign);
    SignIs(t[1..]);
    assert t == [t[0]] + t[1..];
    Regroup3([t[0]], sign, rest);
    Regroup3(fraction, [t[0]] + sign, rest);
    Regroup3(Literal(minus, whole), fraction + ([t[0]] + sign), rest);
  }

  /** A number with all its parts, taken apart. */
  lemma TakenApart(s: Str) returns (n: Numeral, post: Str)
    requires ScanInteger(s).Integer? && ScanFraction(ScanInteger(s)).Fraction?
    requires var t := ScanFraction(ScanInteger(s)).rest;
             IsExponentMark(Peek(t)) ==> IsDigit(Peek(Unsigned(t[1..])))
    ensures IsNumeral(n) && Ends(n, post) && s == SpellNumeral(n) + post
  {
    hide ScanInteger, ScanFraction;
    var i := ScanInteger(s);
    var t := ScanFraction(i).rest;
    var minus, whole := ReadIsWhole(s);
    var fraction := ReadIsFraction(i);
    var exponent: Str := [];
    post := t;
    if IsExponentMark(Peek(t)) {
      SkipTwice(Unsigned(t[1..]));
      var signed := ReadIsSigned(t[1..]);
      post := SkipDigits(Unsigned(t[1..]));
      exponent := [t[0]] + signed;
      assert exponent[1..] == signed && t == [t[0]] + t[1..];
      Regroup3([t[0]], signed, post);
    } else {
      assert [] + post == post;
    }
    n := Numeral(minus, whole, fraction, exponent);
    Regroup3(fraction, exponent, post);
    Regroup3(Literal(minus, whole), fraction + exponent, post);
    if exponent == [] && fraction == [] {
      assert i.rest == post;
    }
  }

  /** What a number that is refused is: one that lacks a digit, or one that is too big. */
  predicate IsRefused(f: Flags, s: Str, p: Option<CutNumber>, rest: Str, n: Numeral) {
    if p.Some? then IsCut(p.value, rest) && s == SpellCut(p.value) + rest
    else IsNumeral(n) && IsTooBig(f, n) && Ends(n, rest) && s == SpellNumeral(n) + rest
  }

  lemma RefusedIsNoFraction(s: Str) returns (p: CutNumber, rest: Str)
    requires ScanInteger(s).Integer? && ScanFraction(ScanInteger(s)).MissFraction?
    ensures IsCut(p, rest) && s == SpellCut(p) + rest
  {
    hide ScanInteger;
    var i := ScanInteger(s);
    FractionEnds(i);
    var minus, whole := ReadIsWhole(s);
    p, rest := NoFraction(minus, whole), i.rest[1..];
    assert i.rest == [DOT] + rest;
    Regroup3(Literal(minus, whole), [DOT], rest);
  }

  /** A number with all its parts is too big when it is refused. */
  lemma RefusedIsTooBig(f: Flags, s: Str) returns (n: Numeral, post: Str)
    requires ParseNumber(f, s).NumberErr? && ScanInteger(s).Integer? && ScanFraction(ScanInteger(s)).Fraction?
    requires var t := ScanFraction(ScanInteger(s)).rest;
             IsExponentMark(Peek(t)) ==> IsDigit(Peek(Unsigned(t[1..])))
    ensures IsNumeral(n) && IsTooBig(f, n) && Ends(n, post) && s == SpellNumeral(n) + post
  {
    n, post := TakenApart(s);
    hide *;
    NumeralIsRead(f, n, post);
  }

  lemma NoWholeIs(s: Str)
    requires ScanInteger(s).BadInteger? && (Peek(s) == MINUS || IsDigit(Peek(s)))
    ensures IsCut(NoWhole, s[1..]) && s == SpellCut(NoWhole) + s[1..]
  {
    hide ScanInteger;
    IntegerEnds(s);
    assert s == [MINUS] + s[1..];
  }

  lemma RefusedIs(f: Flags, s: Str) returns (p: Option<CutNumber>, rest: Str, n: Numeral)
    requires ParseNumber(f, s).NumberErr? && (Peek(s) == MINUS || IsDigit(Peek(s)))
    ensures IsRefused(f, s, p, rest, n)
  {
    n := Numeral(false, [], [], []);
    hide ParseNumber, ScanInteger, ScanFraction, ScanExponent, IsTooBig, NumeralEvent, IsCut, SpellCut, IsNumeral, Ends, SpellNumeral;
    var i := ScanInteger(s);
    var cut: CutNumber;
    if i.BadInteger? {
      NoWholeIs(s);
      p, rest := Some(NoWhole), s[1..];
    } else if ScanFraction(i).MissFraction? {
      cut, rest := RefusedIsNoFraction(s);
      p := Some(cut);
    } else {
      var t := ScanFraction(i).rest;
      if IsExponentMark(Peek(t)) && !IsDigit(Peek(Unsigned(t[1..]))) {
        cut, rest := RefusedIsNoExponent(s);
        p := Some(cut);
      } else {
        p := None;
        n, rest := RefusedIsTooBig(f, s);
      }
    }
  }

  /**
   * A number is refused with an error at a place if and only if no digit comes at that place where one is due and the
   * error is the one for it, or if it starts at that place and is too big.
   */
  lemma NumberRefusedIff(f: Flags, s: Str, code: ErrorCode, at: nat)
    requires Peek(s) == MINUS || IsDigit(Peek(s))
    ensures ParseNumber(f, s) == NumberErr(code, at)
       <==> || (exists p, rest :: IsCut(p, rest) && s == SpellCut(p) + rest && code == CutCode(p) && at == |rest|)
            || (exists n, post :: IsNumeral(n) && IsTooBig(f, n) && Ends(n, post) && s == SpellNumeral(n) + post
                               && code == NumberTooBig && at == |s|)
  {
    hide ParseNumber, IsCut, SpellCut, CutCode, IsNumeral, IsTooBig, Ends, SpellNumeral, NumeralEvent;
    if ParseNumber(f, s).NumberErr? {
      var p, rest, n := RefusedIs(f, s);
      if p.Some? {
        CutIsRefused(f, p.value, rest);
      } else {
        NumeralIsRead(f, n, rest);
      }
    }
    forall p, rest | IsCut(p, rest) && s == SpellCut(p) + rest
      ensures ParseNumber(f, s) == NumberErr(CutCode(p), |rest|)
    {
      CutIsRefused(f, p, rest);
    }
    forall n, post | IsNumeral(n) && IsTooBig(f, n) && Ends(n, post) && s == SpellNumeral(n) + post
      ensures ParseNumber(f, s) == NumberErr(NumberTooBig, |s|)
    {
      NumeralIsRead(f, n, post);
    }
  }
}
