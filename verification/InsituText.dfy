/**
 * ParseInsitu of include/rapidjson/document.h: what the parser of include/rapidjson/reader.h does to its stream, and
 * so where the strings of a document lie that was parsed in its own buffer.
 */
module InsituText {
  import opened Text
  import opened ParseTypes
  import opened StringCodec
  import opened Number
  import opened NumberGrammar
  import opened NumberMeaning
  import opened SpaceGrammar
  import opened Grammar
  import opened InsituString
  import Syntax

  // ---------------------------------------------------------------------------------------------
  // Strings and calls
  // ---------------------------------------------------------------------------------------------

  predicate HasString(e: Event) {
    e.StringEvent? || e.KeyEvent?
  }

  /** The strings the handler is given, in order. */
  function StringsOf(log: seq<Event>): seq<Str> {
    if log == [] then []
    else StringsOf(log[..|log| - 1]) + (if HasString(log[|log| - 1]) then [log[|log| - 1].str] else [])
  }

  lemma OneEventMore(log: seq<Event>, e: Event)
    ensures StringsOf(log + [e]) == StringsOf(log) + (if HasString(e) then [e.str] else [])
  {
    assert (log + [e])[..|log|] == log;
  }

  function LogOf(r: Outcome): seq<Event> {
    match r
    case Ok(st) => st.log
    case Err(_, _, log) => log
  }

  /**
   * The calls take a routine of the parser from a state to its outcome: they hand out the strings of its events. They
   * end where the routine ends, or in the string or before the token at which it fails.
   */
  predicate Leads(f: Flags, calls: seq<Call>, st: State, r: Outcome) {
    var handed := Handed(f, calls, st.rest);
    && StringsOf(LogOf(r)) == StringsOf(st.log) + handed.strings
    && (r.Ok? ==> !handed.stopped && handed.rest == r.state.rest)
  }

  lemma {:induction false} HandedOneAfterOther(f: Flags, a: seq<Call>, b: seq<Call>, s: Str)
    requires !Handed(f, a, s).stopped
    ensures var first := Handed(f, a, s);
            var second := Handed(f, b, first.rest);
            Handed(f, a + b, s) == second.(strings := first.strings + second.strings)
    decreases |a|
  {
    hide DecodeString;
    if a == [] {
      assert a + b == b;
      assert [] + Handed(f, b, s).strings == Handed(f, b, s).strings;
    } else {
      assert (a + b)[0] == a[0] && (a + b)[1..] == a[1..] + b;
      if a[0].TakeUnit? {
        HandedOneAfterOther(f, a[1..], b, Tail(s));
      } else {
        var rest := DecodeString(f, [], s).rest;
        HandedOneAfterOther(f, a[1..], b, rest);
        Regroup3([DecodeString(f, [], s).value], Handed(f, a[1..], rest).strings, Handed(f, b, Handed(f, a, s).rest).strings);
      }
    }
  }

  /** A routine that goes on after another has succeeded. */
  lemma Then(f: Flags, a: seq<Call>, st: State, mid: State, b: seq<Call>, r: Outcome)
    requires Leads(f, a, st, Ok(mid)) && Leads(f, b, mid, r)
    ensures Leads(f, a + b, st, r)
  {
    hide Handed, StringsOf;
    HandedOneAfterOther(f, a, b, st.rest);
    Regroup3(StringsOf(st.log), Handed(f, a, st.rest).strings, Handed(f, b, mid.rest).strings);
  }

  /** A routine that fails in the first place. */
  lemma NoCalls(f: Flags, st: State, r: Outcome)
    requires LogOf(r) == st.log && (r.Ok? ==> r.state == st)
    ensures Leads(f, [], st, r)
  {
  }

  // ---------------------------------------------------------------------------------------------
  // Tokens
  // ---------------------------------------------------------------------------------------------

  function Units(n: nat): seq<Call> {
    seq(n, _ => TakeUnit)
  }

  lemma {:induction false} UnitsAreTaken(f: Flags, u: Str, rest: Str)
    requires NUL !in u
    ensures Handed(f, Units(|u|), u + rest) == Handing([], rest, false)
    decreases |u|
  {
    if u == [] {
      assert u + rest == rest;
    } else {
      assert Units(|u|)[1..] == Units(|u| - 1);
      assert (u + rest)[0] == u[0] && (u + rest)[1..] == u[1..] + rest;
      UnitsAreTaken(f, u[1..], rest);
    }
  }

  /** Text without a string in it, and the event it may raise. */
  lemma UnitsLead(f: Flags, u: Str, st: State, end: State)
    requires NUL !in u && st.rest == u + end.rest && StringsOf(end.log) == StringsOf(st.log)
    ensures Leads(f, Units(|u|), st, Ok(end))
  {
    UnitsAreTaken(f, u, end.rest);
  }

  lemma TokenLeads(f: Flags, st: State, end: State)
    requires Peek(st.rest) != NUL && end.rest == Tail(st.rest)
    requires end.log == st.log || exists e :: end.log == st.log + [e] && !HasString(e)
    ensures Leads(f, Units(1), st, Ok(end))
  {
    assert st.rest == [st.rest[0]] + end.rest;
    if end.log != st.log {
      var e :| end.log == st.log + [e] && !HasString(e);
      OneEventMore(st.log, e);
    }
    UnitsLead(f, [st.rest[0]], st, end);
  }

  lemma {:induction false} BlockHasNoEnd(body: Str)
    requires IsBlockBody(body)
    ensures NUL !in body
    decreases |body|
  {
    if body != [] {
      BlockHasNoEnd(body[1..]);
      assert body == [body[0]] + body[1..];
    }
  }

  lemma {:induction false} SpacesHaveNoEnd(f: Flags, g: seq<Space>)
    requires AllSpacing(f, g)
    ensures NUL !in SpellSpaces(g)
    decreases |g|
  {
    if g != [] {
      assert IsSpacing(f, g[0]);
      if g[0].Block? {
        BlockHasNoEnd(g[0].body);
      }
      SpacesHaveNoEnd(f, g[1..]);
    }
  }

  lemma LastHasNoEnd(f: Flags, last: Str, rest: Str)
    requires IsLastLine(f, last, rest)
    ensures NUL !in last
  {
    if last != [] {
      assert last == last[..2] + last[2..];
    }
  }

  lemma SpaceLeads(f: Flags, st: State) returns (calls: seq<Call>)
    ensures Leads(f, calls, st, SkipSpace(f, st))
  {
    if SkipSpace(f, st).Err? {
      calls := [];
      NoCalls(f, st, SkipSpace(f, st));
    } else {
      var end := SkipSpace(f, st).state;
      var g, last := SkippedAreSpaces(f, st.rest, st.log);
      SpacesHaveNoEnd(f, g);
      LastHasNoEnd(f, last, end.rest);
      hide SkipSpace, AllSpacing, IsLastLine, StartsToken;
      Regroup3(SpellSpaces(g), last, end.rest);
      UnitsLead(f, SpellSpaces(g) + last, st, end);
      calls := Units(|SpellSpaces(g) + last|);
    }
  }

  lemma LettersLead(f: Flags, letters: Str, e: Event, st: State) returns (calls: seq<Call>)
    requires NUL !in letters && !HasString(e)
    ensures Leads(f, calls, st, Keyword(letters, e, st))
  {
    calls := [];
    KeywordRaises(letters, e, st);
    if Keyword(letters, e, st).Err? {
      NoCalls(f, st, Keyword(letters, e, st));
    } else {
      hide Keyword;
      var end := Keyword(letters, e, st).state;
      Syntax.ReadIsKeyword(letters, e, st);
      OneEventMore(st.log, e);
      UnitsLead(f, letters, st, end);
      calls := Units(|letters|);
    }
  }

  lemma {:induction false} KeywordRaises(letters: Str, e: Event, st: State)
    ensures LogOf(Keyword(letters, e, st)) == if Keyword(letters, e, st).Ok? then st.log + [e] else st.log
    decreases |letters|
  {
    if letters != [] && letters[0] != NUL && Peek(st.rest) == letters[0] {
      KeywordRaises(letters[1..], e, st.Skip());
    }
  }

  lemma DigitsHaveNoEnd(ds: Str)
    requires AllDigits(ds)
    ensures NUL !in ds
  {
  }

  lemma FractionHasNoEnd(t: Str)
    requires IsFraction(t)
    ensures NUL !in t
  {
    if t != [] {
      DigitsHaveNoEnd(t[1..]);
      assert t == [t[0]] + t[1..];
    }
  }

  lemma ExponentHasNoEnd(t: Str)
    requires IsExponent(t)
    ensures NUL !in t
  {
    if t != [] {
      var signed := t[1..];
      DigitsHaveNoEnd(Unsigned(signed));
      hide AllDigits;
      assert Unsigned(signed) == signed || signed == [signed[0]] + Unsigned(signed);
      assert t == [t[0]] + signed;
    }
  }

  lemma NumeralHasNoEnd(n: Numeral)
    requires IsNumeral(n)
    ensures NUL !in SpellNumeral(n)
  {
    DigitsHaveNoEnd(n.whole);
    FractionHasNoEnd(n.fraction);
    ExponentHasNoEnd(n.exponent);
    hide IsFraction, IsExponent, IsCanonical;
  }

  lemma NumberLeads(f: Flags, st: State) returns (calls: seq<Call>)
    ensures Leads(f, calls, st, ParseNumberAt(f, st))
  {
    hide ParseNumber, IsNumeral, SpellNumeral, NumeralEvent;
    calls := [];
    if ParseNumberAt(f, st).Err? {
      NoCalls(f, st, ParseNumberAt(f, st));
    } else {
      var n := ReadIsNumeral(f, st.rest);
      NumeralHasNoEnd(n);
      NumeralIsNoString(f, n);
      OneEventMore(st.log, NumeralEvent(f, n));
      UnitsLead(f, SpellNumeral(n), st, ParseNumberAt(f, st).state);
      calls := Units(|SpellNumeral(n)|);
    }
  }

  lemma NumeralIsNoString(f: Flags, n: Numeral)
    requires IsNumeral(n)
    ensures !HasString(NumeralEvent(f, n))
  {
  }

  lemma StringLeads(f: Flags, isKey: bool, st: State) returns (calls: seq<Call>)
    requires Peek(st.rest) == QUOTE
    ensures Leads(f, calls, st, ParseString(f, isKey, st))
  {
    hide DecodeString;
    calls := [TakeUnit, TakeString];
    var s := st.rest[1..];
    assert calls[1..] == [TakeString] && calls[1..][1..] == [];
    var r := DecodeString(f, [], s);
    if r.StringOk? {
      OneEventMore(st.log, if isKey then KeyEvent(r.value) else StringEvent(r.value));
    }
  }

  // ---------------------------------------------------------------------------------------------
  // Values
  // ---------------------------------------------------------------------------------------------

  lemma {:induction false} ValueLeads(f: Flags, st: State) returns (calls: seq<Call>)
    ensures Leads(f, calls, st, ParseValue(f, st))
    decreases |st.rest|, 1
  {
    hide Leads, Keyword, ParseString, ParseNumberAt, ObjectBody, ArrayBody;
    var c, next := Peek(st.rest), st.Skip();
    if c == QUOTE {
      calls := StringLeads(f, false, st);
    } else if c in {LETTER_N, LETTER_T, LETTER_F, LBRACE, LBRACKET} {
      var more;
      if c == LBRACE {
        next := next.Emit(StartObjectEvent);
        more := ObjectLeads(f, next);
      } else if c == LBRACKET {
        next := next.Emit(StartArrayEvent);
        more := ArrayLeads(f, next);
      } else {
        more := LettersLead(f, if c == LETTER_N then NULL_TAIL else if c == LETTER_T then TRUE_TAIL else FALSE_TAIL,
          if c == LETTER_N then NullEvent else BoolEvent(c == LETTER_T), next);
      }
      TokenLeads(f, st, next);
      Then(f, Units(1), st, next, more, ParseValue(f, st));
      calls := Units(1) + more;
    } else {
      calls := NumberLeads(f, st);
    }
  }

  /** A closing bracket. */
  lemma CloseLeads(f: Flags, st: State, e: Event)
    requires Peek(st.rest) != NUL && !HasString(e)
    ensures Leads(f, Units(1), st, Ok(st.Skip().Emit(e)))
  {
    TokenLeads(f, st, st.Skip().Emit(e));
  }

  /** A comma, a colon or an opening bracket has been looked at; it is taken and the space after it skipped. */
  lemma PastToken(f: Flags, st: State) returns (calls: seq<Call>)
    requires Peek(st.rest) != NUL
    ensures Leads(f, calls, st, SkipSpace(f, st.Skip()))
  {
    hide Leads, SkipSpace;
    TokenLeads(f, st, st.Skip());
    var more := SpaceLeads(f, st.Skip());
    Then(f, Units(1), st, st.Skip(), more, SkipSpace(f, st.Skip()));
    calls := Units(1) + more;
  }

  lemma {:induction false} ObjectLeads(f: Flags, st: State) returns (calls: seq<Call>)
    ensures Leads(f, calls, st, ObjectBody(f, st))
    decreases |st.rest|, 6
  {
    hide Leads, SkipSpace, NextMember;
    calls := SpaceLeads(f, st);
    if SkipSpace(f, st).Ok? {
      var first := SkipSpace(f, st).state;
      var more;
      if Peek(first.rest) == RBRACE {
        CloseLeads(f, first, EndObjectEvent(0));
        more := Units(1);
      } else {
        more := MemberLeads(f, 0, first);
      }
      assert ObjectBody(f, st) == ObjectFirst(f, first);
      Then(f, calls, st, first, more, ObjectBody(f, st));
      calls := calls + more;
    }
  }

  lemma {:induction false} MemberLeads(f: Flags, count: SizeType, st: State) returns (calls: seq<Call>)
    ensures Leads(f, calls, st, NextMember(f, count, st))
    decreases |st.rest|, 2
  {
    hide Leads, SkipSpace, ParseString, MemberColon;
    if Peek(st.rest) != QUOTE {
      calls := [];
      NoCalls(f, st, NextMember(f, count, st));
    } else {
      calls := StringLeads(f, true, st);
      var name := ParseString(f, true, st);
      if name.Ok? {
        var space := SpaceLeads(f, name.state);
        Then(f, calls, st, name.state, space, SkipSpace(f, name.state));
        calls := calls + space;
        var colon := SkipSpace(f, name.state);
        if colon.Ok? {
          var more := ColonLeads(f, count, colon.state);
          Then(f, calls, st, colon.state, more, NextMember(f, count, st));
          calls := calls + more;
        }
      }
    }
  }

  lemma {:induction false} ColonLeads(f: Flags, count: SizeType, st: State) returns (calls: seq<Call>)
    ensures Leads(f, calls, st, MemberColon(f, count, st))
    decreases |st.rest|, 4
  {
    hide Leads, SkipSpace, MemberValue;
    if Peek(st.rest) != COLON {
      calls := [];
      NoCalls(f, st, MemberColon(f, count, st));
    } else {
      calls := PastToken(f, st);
      var value := SkipSpace(f, st.Skip());
      if value.Ok? {
        var more := MemberValueLeads(f, count, value.state);
        Then(f, calls, st, value.state, more, MemberColon(f, count, st));
        calls := calls + more;
      }
    }
  }

  lemma {:induction false} MemberValueLeads(f: Flags, count: SizeType, st: State) returns (calls: seq<Call>)
    ensures Leads(f, calls, st, MemberValue(f, count, st))
    decreases |st.rest|, 3
  {
    hide Leads, SkipSpace, ParseValue, MemberEnd;
    calls := ValueLeads(f, st);
    var value := ParseValue(f, st);
    if value.Ok? {
      var space := SpaceLeads(f, value.state);
      Then(f, calls, st, value.state, space, SkipSpace(f, value.state));
      calls := calls + space;
      var end := SkipSpace(f, value.state);
      if end.Ok? {
        var more := MemberEndLeads(f, Increment(count), end.state);
        Then(f, calls, st, end.state, more, MemberValue(f, count, st));
        calls := calls + more;
      }
    }
  }

  lemma {:induction false} MemberEndLeads(f: Flags, count: SizeType, st: State) returns (calls: seq<Call>)
    ensures Leads(f, calls, st, MemberEnd(f, count, st))
    decreases |st.rest|, 4
  {
    hide Leads, SkipSpace, NextMember;
    if Peek(st.rest) == COMMA {
      calls := PastToken(f, st);
      var next := SkipSpace(f, st.Skip());
      if next.Ok? {
        var more;
        if f.trailingCommas && Peek(next.state.rest) == RBRACE {
          CloseLeads(f, next.state, EndObjectEvent(count));
          more := Units(1);
        } else {
          more := MemberLeads(f, count, next.state);
        }
        assert MemberEnd(f, count, st) == MemberAfterComma(f, count, next.state);
        Then(f, calls, st, next.state, more, MemberEnd(f, count, st));
        calls := calls + more;
      }
    } else if Peek(st.rest) == RBRACE {
      CloseLeads(f, st, EndObjectEvent(count));
      calls := Units(1);
    } else {
      calls := [];
      NoCalls(f, st, MemberEnd(f, count, st));
    }
  }

  lemma {:induction false} ArrayLeads(f: Flags, st: State) returns (calls: seq<Call>)
    ensures Leads(f, calls, st, ArrayBody(f, st))
    decreases |st.rest|, 6
  {
    hide Leads, SkipSpace, NextElement;
    calls := SpaceLeads(f, st);
    if SkipSpace(f, st).Ok? {
      var first := SkipSpace(f, st).state;
      var more;
      if Peek(first.rest) == RBRACKET {
        CloseLeads(f, first, EndArrayEvent(0));
        more := Units(1);
      } else {
        more := ElementLeads(f, 0, first);
      }
      assert ArrayBody(f, st) == ArrayFirst(f, first);
      Then(f, calls, st, first, more, ArrayBody(f, st));
      calls := calls + more;
    }
  }

  lemma {:induction false} ElementLeads(f: Flags, count: SizeType, st: State) returns (calls: seq<Call>)
    ensures Leads(f, calls, st, NextElement(f, count, st))
    decreases |st.rest|, 2
  {
    hide Leads, SkipSpace, ParseValue, ElementEnd;
    calls := ValueLeads(f, st);
    var value := ParseValue(f, st);
    if value.Ok? {
      var space := SpaceLeads(f, value.state);
      Then(f, calls, st, value.state, space, SkipSpace(f, value.state));
      calls := calls + space;
      var end := SkipSpace(f, value.state);
      if end.Ok? {
        var more := ElementEndLeads(f, Increment(count), end.state);
        Then(f, calls, st, end.state, more, NextElement(f, count, st));
        calls := calls + more;
      }
    }
  }

  lemma {:induction false} ElementEndLeads(f: Flags, count: SizeType, st: State) returns (calls: seq<Call>)
    ensures Leads(f, calls, st, ElementEnd(f, count, st))
    decreases |st.rest|, 4
  {
    hide Leads, SkipSpace, NextElement;
    if Peek(st.rest) == COMMA {
      calls := PastToken(f, st);
      var next := SkipSpace(f, st.Skip());
      if next.Ok? {
        var more;
        if f.trailingCommas && Peek(next.state.rest) == RBRACKET {
          CloseLeads(f, next.state, EndArrayEvent(count));
          more := Units(1);
        } else {
          more := ElementLeads(f, count, next.state);
        }
        assert ElementEnd(f, count, st) == ElementAfterComma(f, count, next.state);
        Then(f, calls, st, next.state, more, ElementEnd(f, count, st));
        calls := calls + more;
      }
    } else if Peek(st.rest) == RBRACKET {
      CloseLeads(f, st, EndArrayEvent(count));
      calls := Units(1);
    } else {
      calls := [];
      NoCalls(f, st, ElementEnd(f, count, st));
    }
  }

  // ---------------------------------------------------------------------------------------------
  // Texts
  // ---------------------------------------------------------------------------------------------

  /** The calls hand out what a parse of this text does, and end where it ends, whether it accepts the text or not. */
  predicate IsParse(f: Flags, calls: seq<Call>, text: Str) {
    Leads(f, calls, State(text, []), ParseText(f, text))
  }

  /** Whatever the text, its parse is a run of calls that hands out the strings the handler is given, in their order. */
  lemma ParseIsCalls(f: Flags, text: Str) returns (calls: seq<Call>)
    ensures IsParse(f, calls, text)
  {
    hide Leads, SkipSpace, ParseValue;
    var st := State(text, []);
    calls := SpaceLeads(f, st);
    var root := SkipSpace(f, st);
    if root.Ok? {
      var more := RootLeads(f, root.state);
      Then(f, calls, st, root.state, more, ParseText(f, text));
      calls := calls + more;
    }
  }

  lemma RootLeads(f: Flags, st: State) returns (calls: seq<Call>)
    ensures Leads(f, calls, st, Root(f, st))
  {
    hide Leads, SkipSpace, ParseValue;
    calls := [];
    if Peek(st.rest) == NUL {
      NoCalls(f, st, Root(f, st));
    } else {
      calls := ValueLeads(f, st);
      var value := ParseValue(f, st);
      if value.Ok? && !f.stopWhenDone {
        var space := SpaceLeads(f, value.state);
        Then(f, calls, st, value.state, space, SkipSpace(f, value.state));
        calls := calls + space;
        var end := SkipSpace(f, value.state);
        if end.Ok? {
          NoCalls(f, end.state, TextEnd(end.state));
          Then(f, calls, st, end.state, [], Root(f, st));
          calls := calls + [];
        }
      }
    }
  }

  /**
   * A parse in the buffer of the text: at its end the strings the handler was given lie at their addresses, each
   * with its terminator, unharmed by all that was decoded after it.
   */
  method PerformParse(stream: InsituStream, f: Flags, calls: seq<Call>) returns (placed: seq<Placed>)
    requires stream.Valid() && stream.src < stream.buf.Length && IsParse(f, calls, stream.Unread())
    modifies stream`src, stream`dst, stream.buf
    ensures stream.Valid() && AllLie(stream.buf[..], placed, stream.buf.Length)
    ensures Values(placed) == StringsOf(LogOf(ParseText(f, old(stream.Unread()))))
  {
    hide ParseText, Values, AllLie, LiesAt, Handed;
    placed := Perform(stream, f, calls);
    assert StringsOf([]) == [] && [] + Values(placed) == Values(placed);
  }
}
