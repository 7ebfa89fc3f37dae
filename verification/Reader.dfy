/**
 * GenericReader of include/rapidjson/reader.h in its own form: an object whose methods advance the
 * stream, push and pop the stack, record the first error and call a handler that logs every event
 * and never stops the parse. Each method is proved against the function that specifies it.
 */
module Reader {
  import opened Text
  import opened ParseTypes
  import opened StringCodec
  import opened Number
  import opened Grammar
  import opened Iterative

  /** Unsigned words: an assignment that wrapped would not verify. */
  type Uint32 = x: int | 0 <= x <= UINT32_MAX
  type Uint64 = x: int | 0 <= x <= UINT64_MAX

  class GenericReader {
    const f: Flags
    var rest: Str
    var log: seq<Event>
    var stack: seq<SizeType>
    var error: Option<(ErrorCode, nat)>

    constructor (flags: Flags, text: Str)
      ensures f == flags && rest == text && log == [] && stack == [] && error == None
    {
      f := flags;
      rest, log, stack, error := text, [], [], None;
    }

    /** The reader between two calls. */
    function Now(): State
      reads this
    {
      State(rest, log)
    }

    /** What the reader has done: where it is, or the error it has recorded. */
    function Result(): Outcome
      reads this
    {
      match error
      case None => Ok(Now())
      case Some((code, at)) => Err(code, at, log)
    }

    /** `RAPIDJSON_PARSE_ERROR_NORETURN`: an error is recorded only once. */
    method SetError(code: ErrorCode, at: nat)
      requires error == None
      modifies `error
      ensures Result() == Err(code, at, log)
    {
      error := Some((code, at));
    }

    method Take() returns (c: Ch)
      requires rest != []
      modifies `rest
      ensures c == old(rest)[0] && rest == old(rest)[1..]
    {
      c := rest[0];
      rest := rest[1..];
    }

    method Consume(wanted: Ch) returns (ok: bool)
      requires wanted != NUL
      modifies `rest
      ensures ok <==> Peek(old(rest)) == wanted
      ensures rest == if ok then old(rest)[1..] else old(rest)
    {
      ok := Peek(rest) == wanted;
      if ok {
        var c := Take();
      }
    }

    method Emit(e: Event)
      modifies `log
      ensures log == old(log) + [e]
    {
      log := log + [e];
    }

    // -------------------------------------------------------------------------------------------
    // Whitespace and comments
    // -------------------------------------------------------------------------------------------

    method SkipSpaces()
      modifies `rest
      ensures rest == SkipWhitespace(old(rest))
    {
      while IsSpace(Peek(rest))
        invariant SkipWhitespace(rest) == SkipWhitespace(old(rest))
        decreases |rest|
      {
        var c := Take();
      }
    }

    /** The inner loop over a block comment, from after its opening. */
    method SkipBlock()
      requires error == None
      modifies `rest, `error
      ensures match SkipBlockComment(old(rest))
              case Some(after) => error == None && rest == after
              case None => error == Some((UnspecificSyntaxError, |CommentEnd(old(rest))|))
    {
      while true
        invariant error == None
        invariant SkipBlockComment(rest) == SkipBlockComment(old(rest))
        invariant SkipBlockComment(rest) == None ==> CommentEnd(rest) == CommentEnd(old(rest))
        decreases |rest|
      {
        if Peek(rest) == NUL {
          SetError(UnspecificSyntaxError, |rest|);
          return;
        }
        ghost var before := rest;
        var star := Consume(STAR);
        if star {
          var slash := Consume(SLASH);
          if slash {
            assert rest == before[2..];
            return;
          }
        } else {
          var c := Take();
        }
      }
    }

    method SkipLine()
      modifies `rest
      ensures rest == SkipLineComment(old(rest))
    {
      while Peek(rest) != NUL
        invariant SkipLineComment(rest) == SkipLineComment(old(rest))
        decreases |rest|
      {
        var c := Take();
        if c == LF {
          break;
        }
      }
    }

    method SkipWhitespaceAndComments()
      requires error == None
      modifies `rest, `error
      ensures Result() == SkipSpace(f, old(Now()))
    {
      SkipSpaces();
      if !f.comments {
        return;
      }
      ghost var first := Now();
      while Peek(rest) == SLASH
        invariant error == None
        invariant SkipComments(Now()) == SkipComments(first)
        decreases |rest|
      {
        ghost var before := rest;
        var slash := Take();
        var star := Consume(STAR);
        if star {
          assert rest == before[2..];
          SkipBlock();
          if error.Some? {
            return;
          }
        } else {
          slash := Take2nd(before);
          if error.Some? {
            return;
          }
          SkipLine();
        }
        SkipSpaces();
      }
    }

    /** The second character of a line comment, or the error of a lone slash. */
    method Take2nd(ghost before: Str) returns (c: Ch)
      requires error == None && before != [] && rest == before[1..]
      modifies `rest, `error
      ensures Peek(before[1..]) == SLASH ==> error == None && rest == before[2..]
      ensures Peek(before[1..]) != SLASH ==> error == Some((UnspecificSyntaxError, |before| - 1))
    {
      c := Peek(rest);
      var ok := Consume(SLASH);
      if !ok {
        SetError(UnspecificSyntaxError, |rest|);
      }
    }

    // -------------------------------------------------------------------------------------------
    // Scalars
    // -------------------------------------------------------------------------------------------

    /** `ParseNull`, `ParseTrue` and `ParseFalse`, after their first letter. */
    method ParseKeyword(letters: Str, event: Event)
      requires error == None && NUL !in letters
      modifies `rest, `log, `error
      ensures Result() == Keyword(letters, event, old(Now()))
    {
      for k := 0 to |letters|
        invariant error == None
        invariant Keyword(letters[k..], event, Now()) == Keyword(letters, event, old(Now()))
      {
        assert letters[k..][0] == letters[k] && letters[k..][1..] == letters[k + 1..];
        assert letters[k] in letters;
        var ok := Consume(letters[k]);
        if !ok {
          SetError(ValueInvalid, |rest|);
          return;
        }
      }
      assert letters[|letters|..] == [];
      Emit(event);
    }

    /** `ParseString` through a separate buffer. */
    method ReadString(isKey: bool)
      requires error == None && Peek(rest) == QUOTE
      modifies `rest, `log, `error
      ensures Result() == ParseString(f, isKey, old(Now()))
    {
      var c := Take();
      ghost var s := rest;
      var out: Str := [];
      while true
        invariant error == None && log == old(log)
        invariant DecodeString(f, out, rest) == DecodeString(f, [], s)
        decreases |rest|
      {
        match StringStep(f, rest)
        case Failed(code, at) =>
          SetError(code, at);
          return;
        case Copied(bytes, after) =>
          out := out + bytes;
          rest := after;
        case Closed(after) =>
          rest := after;
          Emit(if isKey then KeyEvent(out) else StringEvent(out));
          return;
      }
    }

    /** The digits a 32-bit accumulator can take. */
    method ReadDigits32(minus: bool, first: Uint32) returns (i: Uint32, significant: nat, use64bit: bool)
      requires first <= 9
      modifies `rest
      ensures Accumulated(i, significant, rest, use64bit) == Accumulate(first, 0, Limit32(minus), LastDigit(minus), old(rest))
    {
      i, significant, use64bit := first, 0, false;
      while IsDigit(Peek(rest))
        invariant i <= Limit32(minus) * 10 + Digit(LastDigit(minus))
        invariant Accumulate(i, significant, Limit32(minus), LastDigit(minus), rest)
               == Accumulate(first, 0, Limit32(minus), LastDigit(minus), old(rest))
        decreases |rest|
      {
        if i >= Limit32(minus) && (i != Limit32(minus) || Peek(rest) > LastDigit(minus)) {
          use64bit := true;
          return;
        }
        var c := Take();
        i := i * 10 + Digit(c);
        significant := significant + 1;
      }
    }

    /** The further digits a 64-bit accumulator can take. */
    method ReadDigits64(minus: bool, first: Uint64, significant0: nat) returns (i64: Uint64, significant: nat, useDouble: bool)
      requires first <= UINT32_MAX
      modifies `rest
      ensures Accumulated(i64, significant, rest, useDouble)
           == Accumulate(first, significant0, Limit64(minus), LastDigit(minus), old(rest))
    {
      i64, significant, useDouble := first, significant0, false;
      while IsDigit(Peek(rest))
        invariant i64 <= Limit64(minus) * 10 + Digit(LastDigit(minus))
        invariant Accumulate(i64, significant, Limit64(minus), LastDigit(minus), rest)
               == Accumulate(first, significant0, Limit64(minus), LastDigit(minus), old(rest))
        decreases |rest|
      {
        if i64 >= Limit64(minus) && (i64 != Limit64(minus) || Peek(rest) > LastDigit(minus)) {
          useDouble := true;
          return;
        }
        var c := Take();
        i64 := i64 * 10 + Digit(c);
        significant := significant + 1;
      }
    }

    method SkipDigitRun()
      modifies `rest
      ensures rest == SkipDigits(old(rest))
    {
      while IsDigit(Peek(rest))
        invariant SkipDigits(rest) == SkipDigits(old(rest))
        decreases |rest|
      {
        var c := Take();
      }
    }

    /** The sign and the integer part. */
    method ReadInteger() returns (n: Integer)
      modifies `rest
      ensures n == ScanInteger(old(rest))
      ensures n.Integer? ==> rest == n.rest
    {
      var minus := Consume(MINUS);
      if Peek(rest) == ZERO {
        var c := Take();
        return Integer(minus, 0, false, false, 0, rest);
      }
      if !IsDigit(Peek(rest)) {
        return BadInteger(|rest|);
      }
      var c := Take();
      var i, significant, use64bit := ReadDigits32(minus, Digit(c));
      if !use64bit {
        return Integer(minus, i, false, false, significant, rest);
      }
      var i64, significant64, useDouble := ReadDigits64(minus, i, significant);
      if useDouble {
        SkipDigitRun();
      }
      return Integer(minus, i64, true, useDouble, significant64, rest);
    }

    /** The fraction's digits while the significand is held in 64 bits. */
    method ReadFastFraction(first: Uint64, significant0: nat) returns (i64: Uint64, expFrac: int, significant: nat)
      modifies `rest
      ensures (i64, expFrac, significant, rest) == FastFraction(first, 0, significant0, old(rest))
    {
      i64, expFrac, significant := first, 0, significant0;
      while IsDigit(Peek(rest)) && i64 <= 0x1F_FFFF_FFFF_FFFF
        invariant FastFraction(i64, expFrac, significant, rest) == FastFraction(first, 0, significant0, old(rest))
        decreases |rest|
      {
        var c := Take();
        i64 := i64 * 10 + Digit(c);
        expFrac := expFrac - 1;
        if i64 != 0 {
          significant := significant + 1;
        }
      }
    }

    method ReadSlowFraction(positive0: bool, expFrac0: int, significant0: nat) returns (expFrac: int)
      modifies `rest
      ensures (expFrac, rest) == SlowFraction(positive0, expFrac0, significant0, old(rest))
    {
      var positive, significant := positive0, significant0;
      expFrac := expFrac0;
      while IsDigit(Peek(rest))
        invariant SlowFraction(positive, expFrac, significant, rest) == SlowFraction(positive0, expFrac0, significant0, old(rest))
        decreases |rest|
      {
        var c := Take();
        if significant < 17 {
          positive := positive || c != ZERO;
          expFrac := expFrac - 1;
          if positive {
            significant := significant + 1;
          }
        }
      }
    }

    method ReadFraction(n: Integer) returns (r: Fraction)
      requires n.Integer? && n.rest == rest && n.value <= UINT64_MAX
      modifies `rest
      ensures r == ScanFraction(n)
      ensures r.Fraction? ==> rest == r.rest
    {
      var dot := Consume(DOT);
      if !dot {
        return Fraction(n.useDouble, 0, rest);
      }
      if !IsDigit(Peek(rest)) {
        return MissFraction(|rest|);
      }
      var expFrac := 0;
      if n.useDouble {
        expFrac := ReadSlowFraction(true, 0, n.significant);
      } else {
        var i64, e, significant := ReadFastFraction(n.value, n.significant);
        expFrac := ReadSlowFraction(i64 > 0, e, significant);
      }
      return Fraction(true, expFrac, rest);
    }

    method ReadPositiveExponent(first: nat, maxExp: int) returns (r: Exponent)
      modifies `rest
      ensures r == PositiveExponent(first, maxExp, old(rest))
      ensures r.Exponent? ==> rest == r.rest
    {
      var exp := first;
      while IsDigit(Peek(rest))
        invariant PositiveExponent(exp, maxExp, rest) == PositiveExponent(first, maxExp, old(rest))
        decreases |rest|
      {
        var c := Take();
        exp := exp * 10 + Digit(c);
        if exp > maxExp {
          return ExponentTooBig;
        }
      }
      return Exponent(exp, rest);
    }

    method ReadNegativeExponent(first: nat, maxExp: int) returns (r: Exponent)
      modifies `rest
      ensures r == NegativeExponent(first, maxExp, old(rest))
      ensures rest == r.rest
    {
      var exp := first;
      while IsDigit(Peek(rest))
        invariant NegativeExponent(exp, maxExp, rest) == NegativeExponent(first, maxExp, old(rest))
        decreases |rest|
      {
        var c := Take();
        exp := exp * 10 + Digit(c);
        if exp > maxExp {
          SkipDigitRun();
        }
      }
      return Exponent(exp, rest);
    }

    /** The exponent, after its letter. */
    method ReadExponent(expFrac: int) returns (r: Exponent)
      modifies `rest
      ensures r == ScanExponent(expFrac, old(rest))
      ensures r.Exponent? ==> rest == r.rest
    {
      var expMinus := false;
      var plus := Consume(PLUS);
      if !plus {
        expMinus := Consume(MINUS);
      }
      if !IsDigit(Peek(rest)) {
        return MissExponent(|rest|);
      }
      var c := Take();
      if expMinus {
        r := ReadNegativeExponent(Digit(c), DivTen(expFrac + 2147483639));
        return Exponent(-r.exp, rest);
      } else {
        r := ReadPositiveExponent(Digit(c), 308 - expFrac);
      }
    }

    method ReadNumber()
      requires error == None
      modifies `rest, `log, `error
      ensures Result() == ParseNumberAt(f, old(Now()))
    {
      var start := rest;
      var n := ReadInteger();
      if n.BadInteger? {
        SetError(ValueInvalid, n.at);
        return;
      }
      var frac := ReadFraction(n);
      if frac.MissFraction? {
        SetError(NumberMissFraction, frac.at);
        return;
      }
      var useDouble := frac.useDouble;
      if IsExponentMark(Peek(rest)) {
        var c := Take();
        var exponent := ReadExponent(frac.expFrac);
        if exponent.MissExponent? {
          SetError(NumberMissExponent, exponent.at);
          return;
        }
        if exponent.ExponentTooBig? {
          SetError(NumberTooBig, |start|);
          return;
        }
        useDouble := true;
      }
      FinishNumber(start, n, useDouble);
    }

    /** The handler call a number ends in. */
    method FinishNumber(start: Str, n: Integer, useDouble: bool)
      requires error == None && n == ScanInteger(start) && n.Integer? && |rest| < |start|
      modifies `log, `error
      ensures match Number.Finish(f, start, n, useDouble, rest)
              case NumberErr(code, at) => error == Some((code, at)) && log == old(log)
              case NumberOk(event, _) => error == None && log == old(log) + [event]
    {
      if useDouble {
        var m := f.strtod(n.minus, Number.Taken(n.minus, start, rest));
        if m == INFINITY {
          SetError(NumberTooBig, |start|);
        } else {
          Emit(DoubleEvent(WithSign(n.minus, m)));
        }
      } else {
        Emit(IntegerEvent(n));
      }
    }

    // -------------------------------------------------------------------------------------------
    // Recursive descent
    // -------------------------------------------------------------------------------------------

    method ReadValue()
      requires error == None
      modifies `rest, `log, `error
      ensures Result() == ParseValue(f, old(Now()))
      decreases |rest|, 1
    {
      var c := Peek(rest);
      if c == LETTER_N {
        c := Take();
        ParseKeyword(NULL_TAIL, NullEvent);
      } else if c == LETTER_T {
        c := Take();
        ParseKeyword(TRUE_TAIL, BoolEvent(true));
      } else if c == LETTER_F {
        c := Take();
        ParseKeyword(FALSE_TAIL, BoolEvent(false));
      } else if c == QUOTE {
        ReadString(false);
      } else if c == LBRACE {
        ReadObject();
      } else if c == LBRACKET {
        ReadArray();
      } else {
        ReadNumber();
      }
    }

    /** A member's name and colon. */
    method ReadName()
      requires error == None
      modifies `rest, `log, `error
      ensures error == None ==> |rest| < |old(rest)|
      ensures error == None ==> forall count :: MemberValue(f, count, Now()) == NextMember(f, count, old(Now()))
      ensures error.Some? ==> forall count :: NextMember(f, count, old(Now())) == Result()
    {
      if Peek(rest) != QUOTE {
        SetError(ObjectMissName, |rest|);
        return;
      }
      ReadString(true);
      if error.Some? { return; }
      SkipWhitespaceAndComments();
      if error.Some? { return; }
      ghost var named := Now();
      var colon := Consume(COLON);
      if !colon {
        SetError(ObjectMissColon, |rest|);
        return;
      }
      SkipWhitespaceAndComments();
      assert forall count :: MemberColon(f, count, named) == if error.Some? then Result() else MemberValue(f, count, Now());
    }

    /** What follows a member's value; `done` when the object has ended. */
    method EndMember(memberCount: SizeType) returns (done: bool)
      requires error == None
      modifies `rest, `log, `error
      ensures done ==> Result() == MemberEnd(f, memberCount, old(Now()))
      ensures !done ==> error == None && |rest| < |old(rest)|
      ensures !done ==> NextMember(f, memberCount, Now()) == MemberEnd(f, memberCount, old(Now()))
    {
      var comma := Consume(COMMA);
      if !comma {
        var close := Consume(RBRACE);
        if close {
          Emit(EndObjectEvent(memberCount));
        } else {
          SetError(ObjectMissCommaOrCurlyBracket, |rest|);
        }
        return true;
      }
      SkipWhitespaceAndComments();
      if error.Some? { return true; }
      if f.trailingCommas && Peek(rest) == RBRACE {
        Emit(EndObjectEvent(memberCount));
        var c := Take();
        return true;
      }
      return false;
    }

    /** `ParseObject`. */
    method ReadObject()
      requires error == None && Peek(rest) == LBRACE
      modifies `rest, `log, `error
      ensures Result() == ObjectBody(f, old(Now()).Skip().Emit(StartObjectEvent))
      decreases |rest|, 0
    {
      var c := Take();
      Emit(StartObjectEvent);
      SkipWhitespaceAndComments();
      if error.Some? { return; }
      ghost var first := Now();
      var close := Consume(RBRACE);
      if close {
        Emit(EndObjectEvent(0));
        return;
      }
      var memberCount: SizeType := 0;
      var done := false;
      while !done
        invariant error == None || done
        invariant |rest| < |old(rest)| || done
        invariant done ==> Result() == ObjectFirst(f, first)
        invariant !done ==> NextMember(f, memberCount, Now()) == ObjectFirst(f, first)
        decreases !done, |rest|
      {
        ReadName();
        if error.Some? { return; }
        ReadValue();
        if error.Some? { return; }
        SkipWhitespaceAndComments();
        if error.Some? { return; }
        memberCount := Increment(memberCount);
        done := EndMember(memberCount);
      }
    }

    /** What follows an element; `done` when the array has ended. */
    method EndElement(elementCount: SizeType) returns (done: bool)
      requires error == None
      modifies `rest, `log, `error
      ensures done ==> Result() == ElementEnd(f, elementCount, old(Now()))
      ensures !done ==> error == None && |rest| < |old(rest)|
      ensures !done ==> NextElement(f, elementCount, Now()) == ElementEnd(f, elementCount, old(Now()))
    {
      var comma := Consume(COMMA);
      if !comma {
        var close := Consume(RBRACKET);
        if close {
          Emit(EndArrayEvent(elementCount));
        } else {
          SetError(ArrayMissCommaOrSquareBracket, |rest|);
        }
        return true;
      }
      SkipWhitespaceAndComments();
      if error.Some? { return true; }
      if f.trailingCommas && Peek(rest) == RBRACKET {
        Emit(EndArrayEvent(elementCount));
        var c := Take();
        return true;
      }
      return false;
    }

    /** `ParseArray`. */
    method ReadArray()
      requires error == None && Peek(rest) == LBRACKET
      modifies `rest, `log, `error
      ensures Result() == ArrayBody(f, old(Now()).Skip().Emit(StartArrayEvent))
      decreases |rest|, 0
    {
      var c := Take();
      Emit(StartArrayEvent);
      SkipWhitespaceAndComments();
      if error.Some? { return; }
      ghost var first := Now();
      var close := Consume(RBRACKET);
      if close {
        Emit(EndArrayEvent(0));
        return;
      }
      var elementCount: SizeType := 0;
      var done := false;
      while !done
        invariant error == None || done
        invariant |rest| < |old(rest)| || done
        invariant done ==> Result() == ArrayFirst(f, first)
        invariant !done ==> NextElement(f, elementCount, Now()) == ArrayFirst(f, first)
        decreases !done, |rest|
      {
        ReadValue();
        if error.Some? { return; }
        elementCount := Increment(elementCount);
        SkipWhitespaceAndComments();
        if error.Some? { return; }
        done := EndElement(elementCount);
      }
    }

    /** `Parse` without the iterative flag. */
    method Parse()
      requires error == None && log == []
      modifies `rest, `log, `error
      ensures Result() == ParseText(f, old(rest))
    {
      SkipWhitespaceAndComments();
      if error.Some? { return; }
      if Peek(rest) == NUL {
        SetError(DocumentEmpty, |rest|);
        return;
      }
      ReadValue();
      if error.Some? { return; }
      if !f.stopWhenDone {
        SkipWhitespaceAndComments();
        if error.Some? { return; }
        if Peek(rest) != NUL {
          SetError(DocumentRootNotSingular, |rest|);
        }
      }
    }

    // -------------------------------------------------------------------------------------------
    // The table-driven parser
    // -------------------------------------------------------------------------------------------

    method Push(word: SizeType)
      modifies `stack
      ensures stack == old(stack) + [word]
    {
      stack := stack + [word];
    }

    method PopWord() returns (word: SizeType)
      requires stack != []
      modifies `stack
      ensures word == Top(old(stack)) && stack == Drop(old(stack), 1)
    {
      word := stack[|stack| - 1];
      stack := stack[..|stack| - 1];
    }

    /** The end of a compound value: the frame is popped, the handler told. */
    method PopFrame(isObject: bool, lastCounts: bool) returns (n: Phase)
      requires error == None && rest != [] && |stack| >= 2
      modifies `rest, `log, `stack
      ensures forall src :: Moved(Machine(n, stack, Now())) == Iterative.Pop(Machine(src, old(stack), old(Now())), isObject, lastCounts)
    {
      var c := PopWord();
      if lastCounts {
        c := Increment(c);
      }
      var word := PopWord();
      n := Iterative.Decode(word);
      if n == Start {
        n := Finish;
      }
      assert Drop(Drop(old(stack), 1), 1) == Drop(old(stack), 2);
      Emit(if isObject then EndObjectEvent(c) else EndArrayEvent(c));
      var taken := Take();
    }

    /** The cases of `Transit` that end a compound value. */
    method MoveOut(src: Phase, dst: Phase) returns (n: Phase)
      requires error == None && rest != [] && |stack| >= 2 && dst in {ObjectFinish, ArrayFinish}
      modifies `rest, `log, `stack, `error
      ensures match Transit(f, Machine(src, old(stack), old(Now())), dst)
              case Moved(m) => error == None && n == m.phase && stack == m.stack && Now() == m.state
              case Stuck(e, events) => n == Error && error == e && log == events && e.Some?
    {
      if dst == ObjectFinish {
        if !f.trailingCommas && src == MemberDelimiter {
          SetError(ObjectMissName, |rest|);
          n := Error;
        } else {
          n := PopFrame(true, src == MemberHasValue);
        }
      } else {
        if !f.trailingCommas && src == ElementDelimiter {
          SetError(ValueInvalid, |rest|);
          n := Error;
        } else {
          n := PopFrame(false, src == ElementHasValue);
        }
      }
    }

    /** The cases of `Transit` that start a compound value. */
    method MoveIn(src: Phase, dst: Phase)
      requires error == None && rest != [] && dst in {ObjectInitial, ArrayInitial}
      modifies `rest, `log, `stack
      ensures error == None && stack == old(stack) + [Code(ReturnPhase(src)), 0]
      ensures Now() == old(Now()).Emit(if dst == ObjectInitial then StartObjectEvent else StartArrayEvent).Skip()
    {
      Push(Code(ReturnPhase(src)));
      Push(0);
      Emit(if dst == ObjectInitial then StartObjectEvent else StartArrayEvent);
      var c := Take();
    }

    /** The cases of `Transit` that read a scalar. */
    method MoveOn(src: Phase, dst: Phase) returns (n: Phase)
      requires error == None && dst in {MemberHasValue, ElementHasValue, SingleValue}
      modifies `rest, `log, `error
      ensures match FromOutcome(ParseValue(f, old(Now())), if dst == SingleValue then Finish else dst, stack)
              case Moved(m) => error == None && n == m.phase && Now() == m.state
              case Stuck(e, events) => n == Error && error == e && log == events && e.Some?
    {
      n := dst;
      ReadValue();
      if error.Some? {
        n := Error;
      } else if dst == SingleValue {
        n := Finish;
      }
    }

    /** `Transit`: the phase moved to, or Error. */
    method Move(src: Phase, dst: Phase) returns (n: Phase)
      requires CanMove(Machine(src, stack, Now())) && error == None
      requires dst == Predict(src, Tokenize(Peek(rest)))
      modifies `rest, `log, `stack, `error
      ensures match Transit(f, Machine(src, old(stack), old(Now())), dst)
              case Moved(m) => error == None && n == m.phase != Error && stack == m.stack && Now() == m.state
              case Stuck(e, events) => n == Error && error == e && log == events && (e == None ==> rest == old(rest))
    {
      n := dst;
      var c;
      if dst == Error {
      } else if dst == ObjectInitial || dst == ArrayInitial {
        MoveIn(src, dst);
      } else if dst == MemberKey {
        ReadString(true);
        if error.Some? { n := Error; }
      } else if dst == KeyValueDelimiter {
        c := Take();
      } else if dst == MemberDelimiter || dst == ElementDelimiter {
        c := Take();
        var count := PopWord();
        Push(Increment(count));
      } else if dst == ObjectFinish || dst == ArrayFinish {
        n := MoveOut(src, dst);
      } else {
        n := MoveOn(src, dst);
      }
    }

    method HandleError(src: Phase)
      modifies `error
      ensures error == if old(error).Some? then old(error) else Some((PhaseError(src), |rest|))
    {
      if error.Some? { return; }
      SetError(PhaseError(src), |rest|);
    }

    /** `Parse` with the iterative flag. It returns what the recursive parser returns. */
    method ParseIteratively()
      requires error == None && log == [] && stack == []
      modifies `rest, `log, `stack, `error
      ensures Result() == IterativeParse(f, old(rest))
      ensures !HasStrayRoot(f, old(rest)) ==> Result() == ParseText(f, old(rest))
    {
      ghost var text := rest;
      IterativeRefinesRecursive(f, text);
      var phase := Start;
      SkipWhitespaceAndComments();
      if error.Some? { return; }
      while Peek(rest) != NUL
        invariant error == None && WellFormed(phase, stack)
        invariant Run(f, Machine(phase, stack, Now())) == IterativeParse(f, text)
        decreases |rest|
      {
        ghost var m := Machine(phase, stack, Now());
        StepIsWellFormed(f, m);
        var t := Tokenize(Peek(rest));
        var n := Predict(phase, t);
        var d := Move(phase, n);
        if d == Error {
          HandleError(phase);
          return;
        }
        phase := d;
        if f.stopWhenDone && phase == Finish {
          return;
        }
        SkipWhitespaceAndComments();
        if error.Some? { return; }
      }
      if phase != Finish {
        HandleError(phase);
      }
    }
  }
}
