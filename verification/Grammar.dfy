/**
 * The recursive-descent parser of include/rapidjson/reader.h as a function of the text: what each of
 * its routines accepts, where it stops, which events it has raised, and with which error it fails.
 */
module Grammar {
  import opened Text
  import opened ParseTypes
  import opened StringCodec
  import opened Number

  /** The parser between two calls: the unread text and the events raised so far. */
  datatype State = State(rest: Str, log: seq<Event>) {
    function Emit(e: Event): State {
      State(rest, log + [e])
    }

    /** Past one unit, which must not be the terminator. */
    function Skip(): State {
      State(Tail(rest), log)
    }
  }

  /** A routine's outcome; `at` counts the units from the error to the end of the text. */
  datatype Outcome =
    | Ok(state: State)
    | Err(code: ErrorCode, at: nat, log: seq<Event>)
  {
    predicate IsFailure() {
      Err?
    }

    function PropagateFailure(): Outcome
      requires Err?
    {
      this
    }

    function Extract(): State
      requires Ok?
    {
      state
    }
  }

  function Fail(code: ErrorCode, st: State): Outcome {
    Err(code, |st.rest|, st.log)
  }

  // ---------------------------------------------------------------------------------------------
  // Whitespace and comments
  // ---------------------------------------------------------------------------------------------

  function SkipWhitespace(s: Str): (rest: Str)
    ensures |rest| <= |s|
    ensures !IsSpace(Peek(rest))
  {
    if IsSpace(Peek(s)) then SkipWhitespace(s[1..]) else s
  }

  /** To the end of a block comment; None when the text ends first. */
  function SkipBlockComment(s: Str): (r: Option<Str>)
    ensures r.Some? ==> |r.value| <= |s|
    decreases |s|
  {
    if Peek(s) == NUL then None
    else if Peek(s) == STAR then
      if Peek(s[1..]) == SLASH then Some(s[2..]) else SkipBlockComment(s[1..])
    else SkipBlockComment(s[1..])
  }

  /** Where the text of an unterminated block comment ends. */
  function CommentEnd(s: Str): (rest: Str)
    ensures |rest| <= |s|
  {
    if Peek(s) == NUL then s else CommentEnd(s[1..])
  }

  function SkipLineComment(s: Str): (rest: Str)
    ensures |rest| <= |s|
  {
    if Peek(s) == NUL then s
    else if s[0] == LF then s[1..]
    else SkipLineComment(s[1..])
  }

  /** The loop over comments, entered with the whitespace skipped. */
  function SkipComments(st: State): (r: Outcome)
    ensures r.Ok? ==> |r.state.rest| <= |st.rest| && r.state.log == st.log
    ensures r.Err? ==> r.log == st.log && r.at <= |st.rest|
    decreases |st.rest|
  {
    var s := st.rest;
    if Peek(s) != SLASH then Ok(st)
    else if Peek(s[1..]) == STAR then
      var r := SkipBlockComment(s[2..]);
      if r.None? then Err(UnspecificSyntaxError, |CommentEnd(s[2..])|, st.log)
      else SkipComments(State(SkipWhitespace(r.value), st.log))
    else if Peek(s[1..]) == SLASH then SkipComments(State(SkipWhitespace(SkipLineComment(s[2..])), st.log))
    else Err(UnspecificSyntaxError, |s| - 1, st.log)
  }

  /** `SkipWhitespaceAndComments`. */
  function SkipSpace(f: Flags, st: State): (r: Outcome)
    ensures r.Ok? ==> |r.state.rest| <= |st.rest| && r.state.log == st.log
    ensures r.Err? ==> r.log == st.log
  {
    var st1 := State(SkipWhitespace(st.rest), st.log);
    if f.comments then SkipComments(st1) else Ok(st1)
  }

  // ---------------------------------------------------------------------------------------------
  // Scalars
  // ---------------------------------------------------------------------------------------------

  const NULL_TAIL: Str := [0x75, 0x6C, 0x6C]
  const TRUE_TAIL: Str := [0x72, 0x75, 0x65]
  const FALSE_TAIL: Str := [0x61, 0x6C, 0x73, 0x65]

  const LETTER_N: Ch := 0x6E
  const LETTER_T: Ch := 0x74
  const LETTER_F: Ch := 0x66

  /** The letters of a keyword after its first, each consumed before the next is looked at. */
  function Keyword(letters: Str, event: Event, st: State): (r: Outcome)
    ensures r.Ok? ==> |r.state.rest| <= |st.rest|
    decreases |letters|
  {
    if letters == [] then Ok(st.Emit(event))
    else if letters[0] != NUL && Peek(st.rest) == letters[0] then Keyword(letters[1..], event, st.Skip())
    else Fail(ValueInvalid, st)
  }

  /** `ParseString`, at the opening quote. */
  function ParseString(f: Flags, isKey: bool, st: State): (r: Outcome)
    requires Peek(st.rest) == QUOTE
    ensures r.Ok? ==> |r.state.rest| < |st.rest|
  {
    match DecodeString(f, [], st.rest[1..])
    case StringErr(code, at) => Err(code, at, st.log)
    case StringOk(value, rest) => Ok(State(rest, st.log + [if isKey then KeyEvent(value) else StringEvent(value)]))
  }

  function ParseNumberAt(f: Flags, st: State): (r: Outcome)
    ensures r.Ok? ==> |r.state.rest| < |st.rest|
  {
    match ParseNumber(f, st.rest)
    case NumberErr(code, at) => Err(code, at, st.log)
    case NumberOk(event, rest) => Ok(State(rest, st.log + [event]))
  }

  // ---------------------------------------------------------------------------------------------
  // Values
  // ---------------------------------------------------------------------------------------------

  /** `ParseValue`. */
  function ParseValue(f: Flags, st: State): (r: Outcome)
    ensures r.Ok? ==> |r.state.rest| < |st.rest|
    decreases |st.rest|, 1
  {
    var c := Peek(st.rest);
    if c == LETTER_N then Keyword(NULL_TAIL, NullEvent, st.Skip())
    else if c == LETTER_T then Keyword(TRUE_TAIL, BoolEvent(true), st.Skip())
    else if c == LETTER_F then Keyword(FALSE_TAIL, BoolEvent(false), st.Skip())
    else if c == QUOTE then ParseString(f, false, st)
    else if c == LBRACE then ObjectBody(f, st.Skip().Emit(StartObjectEvent))
    else if c == LBRACKET then ArrayBody(f, st.Skip().Emit(StartArrayEvent))
    else ParseNumberAt(f, st)
  }

  /** `ParseObject` after the opening brace. */
  function ObjectBody(f: Flags, st: State): (r: Outcome)
    ensures r.Ok? ==> |r.state.rest| <= |st.rest|
    decreases |st.rest|, 6
  {
    var st1 :- SkipSpace(f, st);
    ObjectFirst(f, st1)
  }

  function ObjectFirst(f: Flags, st: State): (r: Outcome)
    ensures r.Ok? ==> |r.state.rest| < |st.rest|
    decreases |st.rest|, 5
  {
    if Peek(st.rest) == RBRACE then Ok(st.Skip().Emit(EndObjectEvent(0))) else NextMember(f, 0, st)
  }

  /** The loop over members, from where a name is due; `count` members have been read. */
  function NextMember(f: Flags, count: SizeType, st: State): (r: Outcome)
    ensures r.Ok? ==> |r.state.rest| < |st.rest|
    decreases |st.rest|, 2
  {
    if Peek(st.rest) != QUOTE then Fail(ObjectMissName, st)
    else
      var st1 :- ParseString(f, true, st);
      var st2 :- SkipSpace(f, st1);
      MemberColon(f, count, st2)
  }

  function MemberColon(f: Flags, count: SizeType, st: State): (r: Outcome)
    ensures r.Ok? ==> |r.state.rest| <= |st.rest|
    decreases |st.rest|, 4
  {
    if Peek(st.rest) != COLON then Fail(ObjectMissColon, st)
    else
      var st1 :- SkipSpace(f, st.Skip());
      MemberValue(f, count, st1)
  }

  function MemberValue(f: Flags, count: SizeType, st: State): (r: Outcome)
    ensures r.Ok? ==> |r.state.rest| <= |st.rest|
    decreases |st.rest|, 3
  {
    var st1 :- ParseValue(f, st);
    var st2 :- SkipSpace(f, st1);
    MemberEnd(f, Increment(count), st2)
  }

  /** After a member's value; `count` includes the member. */
  function MemberEnd(f: Flags, count: SizeType, st: State): (r: Outcome)
    ensures r.Ok? ==> |r.state.rest| <= |st.rest|
    decreases |st.rest|, 4
  {
    if Peek(st.rest) == COMMA then
      var st1 :- SkipSpace(f, st.Skip());
      MemberAfterComma(f, count, st1)
    else if Peek(st.rest) == RBRACE then Ok(st.Skip().Emit(EndObjectEvent(count)))
    else Fail(ObjectMissCommaOrCurlyBracket, st)
  }

  function MemberAfterComma(f: Flags, count: SizeType, st: State): (r: Outcome)
    ensures r.Ok? ==> |r.state.rest| <= |st.rest|
    decreases |st.rest|, 3
  {
    if f.trailingCommas && Peek(st.rest) == RBRACE then Ok(st.Skip().Emit(EndObjectEvent(count)))
    else NextMember(f, count, st)
  }

  /** `ParseArray` after the opening bracket. */
  function ArrayBody(f: Flags, st: State): (r: Outcome)
    ensures r.Ok? ==> |r.state.rest| <= |st.rest|
    decreases |st.rest|, 6
  {
    var st1 :- SkipSpace(f, st);
    ArrayFirst(f, st1)
  }

  function ArrayFirst(f: Flags, st: State): (r: Outcome)
    ensures r.Ok? ==> |r.state.rest| < |st.rest|
    decreases |st.rest|, 5
  {
    if Peek(st.rest) == RBRACKET then Ok(st.Skip().Emit(EndArrayEvent(0))) else NextElement(f, 0, st)
  }

  /** The loop over elements, from where an element is due; `count` elements have been read. */
  function NextElement(f: Flags, count: SizeType, st: State): (r: Outcome)
    ensures r.Ok? ==> |r.state.rest| < |st.rest|
    decreases |st.rest|, 2
  {
    var st1 :- ParseValue(f, st);
    var st2 :- SkipSpace(f, st1);
    ElementEnd(f, Increment(count), st2)
  }

  /** After an element; `count` includes it. */
  function ElementEnd(f: Flags, count: SizeType, st: State): (r: Outcome)
    ensures r.Ok? ==> |r.state.rest| <= |st.rest|
    decreases |st.rest|, 4
  {
    if Peek(st.rest) == COMMA then
      var st1 :- SkipSpace(f, st.Skip());
      ElementAfterComma(f, count, st1)
    else if Peek(st.rest) == RBRACKET then Ok(st.Skip().Emit(EndArrayEvent(count)))
    else Fail(ArrayMissCommaOrSquareBracket, st)
  }

  function ElementAfterComma(f: Flags, count: SizeType, st: State): (r: Outcome)
    ensures r.Ok? ==> |r.state.rest| <= |st.rest|
    decreases |st.rest|, 3
  {
    if f.trailingCommas && Peek(st.rest) == RBRACKET then Ok(st.Skip().Emit(EndArrayEvent(count)))
    else NextElement(f, count, st)
  }

  // ---------------------------------------------------------------------------------------------
  // Texts
  // ---------------------------------------------------------------------------------------------

  /** `Parse` once the root value has been read. */
  function AfterRoot(f: Flags, st: State): Outcome {
    if f.stopWhenDone then Ok(st)
    else
      var st1 :- SkipSpace(f, st);
      TextEnd(st1)
  }

  function TextEnd(st: State): Outcome {
    if Peek(st.rest) != NUL then Fail(DocumentRootNotSingular, st) else Ok(st)
  }

  function Root(f: Flags, st: State): Outcome {
    if Peek(st.rest) == NUL then Fail(DocumentEmpty, st)
    else
      var st1 :- ParseValue(f, st);
      AfterRoot(f, st1)
  }

  /** `Parse` of a whole text with the recursive-descent parser. */
  function ParseText(f: Flags, text: Str): Outcome {
    var st :- SkipSpace(f, State(text, []));
    Root(f, st)
  }
}
