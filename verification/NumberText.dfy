/**
 * The text of a number by itself: ParseNumber of include/rapidjson/reader.h takes from a stream exactly
 * the units it takes when nothing follows them.
 */
module NumberText {
  import opened Text
  import opened ParseTypes
  import opened Number

  lemma {:induction false} AccumulateIsLocal(value: nat, significant: nat, limit: nat, last: Ch, t: Str, post: Str)
    requires IsDigit(last)
    requires var a := Accumulate(value, significant, limit, last, t + post);
             !IsDigit(Peek(post)) || |a.rest| > |post| || (|a.rest| == |post| && !a.stopped)
    ensures var a := Accumulate(value, significant, limit, last, t);
            Accumulate(value, significant, limit, last, t + post) == a.(rest := a.rest + post)
    decreases |t|
  {
    var s := t + post;
    if t == [] {
      assert s == post;
    } else {
      assert s[0] == t[0] && s[1..] == t[1..] + post;
      if IsDigit(t[0]) && !(value >= limit && (value != limit || t[0] > last)) {
        AccumulateIsLocal(value * 10 + Digit(t[0]), significant + 1, limit, last, t[1..], post);
      }
    }
  }

  lemma {:induction false} StoppedAtDigit(value: nat, significant: nat, limit: nat, last: Ch, s: Str)
    requires IsDigit(last)
    ensures var a := Accumulate(value, significant, limit, last, s);
            a.stopped <==> IsDigit(Peek(a.rest))
    decreases |s|
  {
    if IsDigit(Peek(s)) && !(value >= limit && (value != limit || s[0] > last)) {
      StoppedAtDigit(value * 10 + Digit(s[0]), significant + 1, limit, last, s[1..]);
    }
  }

  lemma {:induction false} SkipDigitsIsLocal(t: Str, post: Str)
    requires !IsDigit(Peek(post)) || |SkipDigits(t + post)| >= |post|
    ensures SkipDigits(t + post) == SkipDigits(t) + post
  {
    var s := t + post;
    if t == [] {
      assert s == post;
    } else {
      assert s[0] == t[0] && s[1..] == t[1..] + post;
      if IsDigit(t[0]) {
        SkipDigitsIsLocal(t[1..], post);
      }
    }
  }

  function Followed(n: Integer, post: Str): Integer
    requires n.Integer?
  {
    n.(rest := n.rest + post)
  }

  function Rest64(minus: bool, a: Accumulated): (n: Integer)
    ensures n.Integer? && |n.rest| <= |a.rest|
    ensures a.value <= UINT32_MAX && IsDigit(Peek(a.rest)) ==> |n.rest| < |a.rest|
  {
    var b := Accumulate(a.value, a.significant, Limit64(minus), LastDigit(minus), a.rest);
    Integer(minus, b.value, true, b.stopped, b.significant, if b.stopped then SkipDigits(b.rest) else b.rest)
  }

  /** The loops that take more digits than a 32-bit accumulator can hold. */
  lemma LongMagnitudeIsLocal(minus: bool, a: Accumulated, post: Str)
    requires IsDigit(Peek(a.rest + post)) && a.value <= UINT32_MAX
    requires !IsDigit(Peek(post)) || |Rest64(minus, a.(rest := a.rest + post)).rest| >= |post|
    ensures Rest64(minus, a.(rest := a.rest + post)) == Followed(Rest64(minus, a), post)
  {
    var s := a.rest + post;
    var b := Accumulate(a.value, a.significant, Limit64(minus), LastDigit(minus), s);
    StoppedAtDigit(a.value, a.significant, Limit64(minus), LastDigit(minus), s);
    AccumulateIsLocal(a.value, a.significant, Limit64(minus), LastDigit(minus), a.rest, post);
    if b.stopped {
      SkipDigitsIsLocal(Accumulate(a.value, a.significant, Limit64(minus), LastDigit(minus), a.rest).rest, post);
    }
  }

  lemma ScanMagnitudeIsLocal(minus: bool, t: Str, post: Str)
    requires t != [] && (ScanMagnitude(minus, t).Integer? || ScanMagnitude(minus, t + post).Integer?)
    requires !IsDigit(Peek(post)) || |ScanMagnitude(minus, t + post).rest| >= |post|
    ensures ScanMagnitude(minus, t).Integer?
    ensures ScanMagnitude(minus, t + post) == Followed(ScanMagnitude(minus, t), post)
  {
    hide Accumulate, SkipDigits;
    var s := t + post;
    assert s[0] == t[0] && s[1..] == t[1..] + post;
    if t[0] != ZERO {
      var first, limit, last := Digit(t[0]), Limit32(minus), LastDigit(minus);
      var a := Accumulate(first, 0, limit, last, s[1..]);
      StoppedAtDigit(first, 0, limit, last, s[1..]);
      assert a.stopped ==> ScanMagnitude(minus, s) == Rest64(minus, a);
      AccumulateIsLocal(first, 0, limit, last, t[1..], post);
      if a.stopped {
        LongMagnitudeIsLocal(minus, Accumulate(first, 0, limit, last, t[1..]), post);
      }
    }
  }

  lemma ScanIntegerIsLocal(t: Str, post: Str)
    requires (ScanInteger(t).Integer? && !IsDigit(Peek(post)))
          || (ScanInteger(t + post).Integer? && |ScanInteger(t + post).rest| >= |post|)
    ensures ScanInteger(t).Integer?
    ensures ScanInteger(t + post) == Followed(ScanInteger(t), post)
  {
    hide ScanMagnitude;
    var s := t + post;
    assert t == [] ==> s == post;
    assert s[0] == t[0] && s[1..] == t[1..] + post;
    if t[0] == MINUS {
      assert [] + post == post;
      ScanMagnitudeIsLocal(true, t[1..], post);
    } else {
      ScanMagnitudeIsLocal(false, t, post);
    }
  }

  lemma {:induction false} FastFractionIsLocal(value: nat, expFrac: int, significant: nat, t: Str, post: Str)
    requires !IsDigit(Peek(post)) || |FastFraction(value, expFrac, significant, t + post).3| >= |post|
    ensures var r := FastFraction(value, expFrac, significant, t);
            FastFraction(value, expFrac, significant, t + post) == (r.0, r.1, r.2, r.3 + post)
    decreases |t|
  {
    var s := t + post;
    if t == [] {
      assert s == post;
    } else {
      assert s[0] == t[0] && s[1..] == t[1..] + post;
      if IsDigit(t[0]) && value <= 0x1F_FFFF_FFFF_FFFF {
        var v := value * 10 + Digit(t[0]);
        FastFractionIsLocal(v, expFrac - 1, if v != 0 then significant + 1 else significant, t[1..], post);
      }
    }
  }

  lemma {:induction false} SlowFractionIsLocal(positive: bool, expFrac: int, significant: nat, t: Str, post: Str)
    requires !IsDigit(Peek(post)) || |SlowFraction(positive, expFrac, significant, t + post).1| >= |post|
    ensures var r := SlowFraction(positive, expFrac, significant, t);
            SlowFraction(positive, expFrac, significant, t + post) == (r.0, r.1 + post)
    decreases |t|
  {
    var s := t + post;
    if t == [] {
      assert s == post;
    } else {
      assert s[0] == t[0] && s[1..] == t[1..] + post;
      if IsDigit(t[0]) {
        if significant < 17 {
          var p := positive || t[0] != ZERO;
          SlowFractionIsLocal(p, expFrac - 1, if p then significant + 1 else significant, t[1..], post);
        } else {
          SlowFractionIsLocal(positive, expFrac, significant, t[1..], post);
        }
      }
    }
  }

  /** The digits after the point, in the two loops. */
  function Digits(n: Integer, s: Str): (r: (int, Str))
    requires n.Integer?
    ensures |r.1| <= |s| && (IsDigit(Peek(s)) ==> |r.1| < |s|)
  {
    var fast := if n.useDouble then (n.value, 0, n.significant, s) else FastFraction(n.value, 0, n.significant, s);
    SlowFraction(n.useDouble || fast.0 > 0, fast.1, fast.2, fast.3)
  }

  lemma DigitsAreLocal(n: Integer, t: Str, post: Str)
    requires n.Integer? && (!IsDigit(Peek(post)) || |Digits(n, t + post).1| >= |post|)
    ensures Digits(n, t + post) == (Digits(n, t).0, Digits(n, t).1 + post)
  {
    var fast := (n.value, 0, n.significant, t);
    if !n.useDouble {
      FastFractionIsLocal(n.value, 0, n.significant, t, post);
      fast := FastFraction(n.value, 0, n.significant, t);
    }
    SlowFractionIsLocal(n.useDouble || fast.0 > 0, fast.1, fast.2, fast.3, post);
  }

  lemma ScanFractionIsLocal(n: Integer, post: Str)
    requires n.Integer?
    requires (ScanFraction(n).Fraction? && EndsInteger(post))
          || (ScanFraction(Followed(n, post)).Fraction? && |ScanFraction(Followed(n, post)).rest| >= |post|)
    ensures ScanFraction(n).Fraction?
    ensures ScanFraction(Followed(n, post)) == ScanFraction(n).(rest := ScanFraction(n).rest + post)
  {
    var m := Followed(n, post);
    if n.rest == [] {
      assert m.rest == post;
    } else {
      assert m.rest[0] == n.rest[0] && m.rest[1..] == n.rest[1..] + post;
      if n.rest[0] == DOT {
        var t := n.rest[1..];
        assert t == [] ==> m.rest[1..] == post;
        assert t != [] ==> (t + post)[0] == t[0];
        DigitsAreLocal(n, t, post);
      }
    }
  }

  lemma {:induction false} PositiveExponentIsLocal(exp: int, maxExp: int, t: Str, post: Str)
    requires var r := PositiveExponent(exp, maxExp, t + post);
             !IsDigit(Peek(post)) || (r.Exponent? && |r.rest| >= |post|)
    ensures var r := PositiveExponent(exp, maxExp, t);
            PositiveExponent(exp, maxExp, t + post) == if r.Exponent? then r.(rest := r.rest + post) else r
    decreases |t|
  {
    var s := t + post;
    if t == [] {
      assert s == post;
    } else {
      assert s[0] == t[0] && s[1..] == t[1..] + post;
      if IsDigit(t[0]) && exp * 10 + Digit(t[0]) <= maxExp {
        PositiveExponentIsLocal(exp * 10 + Digit(t[0]), maxExp, t[1..], post);
      }
    }
  }

  lemma {:induction false} NegativeExponentIsLocal(exp: int, maxExp: int, t: Str, post: Str)
    requires !IsDigit(Peek(post)) || |NegativeExponent(exp, maxExp, t + post).rest| >= |post|
    ensures var r := NegativeExponent(exp, maxExp, t);
            NegativeExponent(exp, maxExp, t + post) == r.(rest := r.rest + post)
    decreases |t|
  {
    var s := t + post;
    if t == [] {
      assert s == post;
    } else {
      assert s[0] == t[0] && s[1..] == t[1..] + post;
      if IsDigit(t[0]) {
        var e := exp * 10 + Digit(t[0]);
        if e > maxExp {
          SkipDigitsIsLocal(t[1..], post);
          NegativeExponentIsLocal(e, maxExp, SkipDigits(t[1..]), post);
        } else {
          NegativeExponentIsLocal(e, maxExp, t[1..], post);
        }
      }
    }
  }

  lemma ScanExponentIsLocal(expFrac: int, t: Str, post: Str)
    requires (ScanExponent(expFrac, t).Exponent? && !IsDigit(Peek(post)))
          || (ScanExponent(expFrac, t + post).Exponent? && |ScanExponent(expFrac, t + post).rest| >= |post|)
    ensures ScanExponent(expFrac, t).Exponent?
    ensures ScanExponent(expFrac, t + post) == ScanExponent(expFrac, t).(rest := ScanExponent(expFrac, t).rest + post)
  {
    hide PositiveExponent, NegativeExponent;
    var s := t + post;
    assert t == [] ==> s == post;
    assert s[0] == t[0] && s[1..] == t[1..] + post;
    var t1 := if t[0] == PLUS || t[0] == MINUS then t[1..] else t;
    assert t1 == [] ==> t1 + post == post;
    assert (t1 + post)[0] == t1[0] && (t1 + post)[1..] == t1[1..] + post;
    if t[0] == MINUS {
      NegativeExponentIsLocal(Digit(t1[0]), DivTen(expFrac + 2147483639), t1[1..], post);
    } else {
      PositiveExponentIsLocal(Digit(t1[0]), 308 - expFrac, t1[1..], post);
    }
  }

  /** The exponent, if there is one. */
  function Ended(frac: Fraction): (r: Option<(bool, Str)>)
    requires frac.Fraction?
    ensures r.Some? ==> |r.value.1| <= |frac.rest|
  {
    if !IsExponentMark(Peek(frac.rest)) then Some((frac.useDouble, frac.rest))
    else
      var e := ScanExponent(frac.expFrac, frac.rest[1..]);
      if e.Exponent? then Some((true, e.rest)) else None
  }

  lemma EndedIsLocal(frac: Fraction, post: Str)
    requires frac.Fraction?
    requires var all := Ended(frac.(rest := frac.rest + post));
             (Ended(frac).Some? && EndsInteger(post)) || (all.Some? && |all.value.1| >= |post|)
    ensures Ended(frac).Some?
    ensures Ended(frac.(rest := frac.rest + post)) == Some((Ended(frac).value.0, Ended(frac).value.1 + post))
  {
    var all := frac.rest + post;
    if frac.rest == [] {
      assert all == post;
    } else {
      assert all[0] == frac.rest[0] && all[1..] == frac.rest[1..] + post;
      if IsExponentMark(frac.rest[0]) {
        ScanExponentIsLocal(frac.expFrac, frac.rest[1..], post);
      }
    }
  }

  /** The number by its parts. */
  lemma NumberInParts(f: Flags, s: Str)
    ensures var n := ScanInteger(s);
            ParseNumber(f, s).NumberOk? ==>
              && n.Integer? && ScanFraction(n).Fraction? && Ended(ScanFraction(n)).Some?
              && ParseNumber(f, s).rest == Ended(ScanFraction(n)).value.1
    ensures var n := ScanInteger(s);
            n.Integer? && ScanFraction(n).Fraction? && Ended(ScanFraction(n)).Some? ==>
              var (useDouble, rest) := Ended(ScanFraction(n)).value;
              ParseNumber(f, s) == Finish(f, s, n, useDouble, rest)
  {
  }

  /**
   * What follows makes no difference, if it starts like nothing that belongs to a number or if it is
   * not read at all.
   */
  lemma NumberIsLocal(f: Flags, t: Str, post: Str)
    requires (ParseNumber(f, t).NumberOk? && EndsInteger(post))
          || (ParseNumber(f, t + post).NumberOk? && |ParseNumber(f, t + post).rest| >= |post|)
    ensures ParseNumber(f, t).NumberOk?
    ensures ParseNumber(f, t + post) == NumberOk(ParseNumber(f, t).event, ParseNumber(f, t).rest + post)
  {
    hide ParseNumber, ScanInteger, ScanFraction, Ended, Finish;
    var s := t + post;
    NumberInParts(f, t);
    NumberInParts(f, s);
    ScanIntegerIsLocal(t, post);
    var n := ScanInteger(t);
    ScanFractionIsLocal(n, post);
    EndedIsLocal(ScanFraction(n), post);
    var (useDouble, rest) := Ended(ScanFraction(n)).value;
    FinishIsLocal(f, t, n, useDouble, rest, post);
  }

  lemma FinishIsLocal(f: Flags, t: Str, n: Integer, useDouble: bool, rest: Str, post: Str)
    requires n.Integer? && n == ScanInteger(t) && Followed(n, post) == ScanInteger(t + post) && |rest| < |t|
    ensures var r := Finish(f, t, n, useDouble, rest);
            var all := Finish(f, t + post, Followed(n, post), useDouble, rest + post);
            if r.NumberOk? then all == NumberOk(r.event, rest + post) && r.rest == rest else all.NumberErr?
  {
    hide ScanInteger;
    assert Taken(n.minus, t + post, rest + post) == Taken(n.minus, t, rest);
  }

  /** The text is one that the reader, given nothing else, takes whole and reports as this double. */
  predicate IsDoubleLiteral(f: Flags, literal: Str, bits: Bits) {
    ParseNumber(f, literal) == NumberOk(DoubleEvent(bits), [])
  }

  /** The units the reader takes for a double are, given alone, taken whole and reported as the same double. */
  lemma ReadDoubleIsLiteral(f: Flags, s: Str)
    requires ParseNumber(f, s).NumberOk? && ParseNumber(f, s).event.DoubleEvent?
    ensures var (bits, rest) := (ParseNumber(f, s).event.bits, ParseNumber(f, s).rest);
            IsDoubleLiteral(f, s[..|s| - |rest|], bits) && s == s[..|s| - |rest|] + rest
  {
    hide ParseNumber;
    var rest := ParseNumber(f, s).rest;
    var t, post := s[..|s| - |rest|], s[|s| - |rest|..];
    assert s == t + post;
    NumberIsLocal(f, t, post);
    assert |ParseNumber(f, t).rest| == 0;
    assert [] + post == post;
  }

  /** A double is reported only when it is finite. */
  lemma ReadDoubleIsFinite(f: Flags, s: Str)
    requires ParseNumber(f, s).NumberOk? && ParseNumber(f, s).event.DoubleEvent?
    ensures IsFinite(ParseNumber(f, s).event.bits)
  {
    hide ScanInteger, ScanFraction, Ended, ParseNumber;
    NumberInParts(f, s);
    var n := ScanInteger(s);
    SignedIs(n.minus, if f.strtod(n.minus, Taken(n.minus, s, ParseNumber(f, s).rest)) == INFINITY then 0 else f.strtod(n.minus, Taken(n.minus, s, ParseNumber(f, s).rest)));
  }
}
