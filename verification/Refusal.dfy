/**
 * The texts that the parsers of include/rapidjson/reader.h refuse, as a data type of spelled-out beginnings: what has
 * been read of a text up to the unit where it stops being one of the grammar. What is due there, given the innermost
 * bracket that is open, decides the error code; the place is the error offset.
 */
module Refusal {
  import opened Text
  import opened ParseTypes
  import opened StringCodec
  import Number
  import opened NumberGrammar
  import opened NumberMeaning
  import opened NumberRefusal
  import opened StringGrammar
  import opened StringRefusal
  import opened SpaceGrammar
  import opened Grammar
  import opened Syntax
  import Iterative

  // ---------------------------------------------------------------------------------------------
  // What is due
  // ---------------------------------------------------------------------------------------------

  /** What may come next; `closes` tells that the closing bracket may come as well. */
  datatype Due =
    | DueRoot
    | DueElement(closes: bool)
    | DueValue
    | DueName(closes: bool)
    | DueColon
    | DueCommaOrBracket
    | DueCommaOrBrace
    | DueEnd

  predicate Expects(due: Due, c: Ch) {
    match due
    case DueRoot => StartsValue(c)
    case DueElement(closes) => StartsValue(c) || (closes && c == RBRACKET)
    case DueValue => StartsValue(c)
    case DueName(closes) => c == QUOTE || (closes && c == RBRACE)
    case DueColon => c == COLON
    case DueCommaOrBracket => c == COMMA || c == RBRACKET
    case DueCommaOrBrace => c == COMMA || c == RBRACE
    case DueEnd => c == NUL
  }

  /** The error when something else comes. */
  function Missing(due: Due, c: Ch): ErrorCode {
    match due
    case DueRoot => if c == NUL then DocumentEmpty else ValueInvalid
    case DueElement(_) => ValueInvalid
    case DueValue => ValueInvalid
    case DueName(_) => ObjectMissName
    case DueColon => ObjectMissColon
    case DueCommaOrBracket => ArrayMissCommaOrSquareBracket
    case DueCommaOrBrace => ObjectMissCommaOrCurlyBracket
    case DueEnd => DocumentRootNotSingular
  }

  predicate TakesValue(due: Due) {
    due.DueRoot? || due.DueElement? || due.DueValue?
  }

  // ---------------------------------------------------------------------------------------------
  // Where reading stops
  // ---------------------------------------------------------------------------------------------

  /** An error, and the unread text from where it is reported. */
  datatype Error = Error(code: ErrorCode, rest: Str)

  /**
   * What has been read past the last gap when reading stops: nothing (but perhaps a line comment that nothing ends), or
   * the beginning of a comment or of a token. Of a number that is too big nothing counts as read.
   */
  datatype Stop =
    | Unexpected(last: Str)
    | CutComment(begun: Str)
    | CutWord(event: Event, read: Str)
    | CutDigits(number: CutNumber)
    | BigNumber(numeral: Numeral, post: Str)
    | CutString(chars: seq<Char>)

  /** A comment up to where a slash or a star is due, or to the end of the text where a block comment is not closed. */
  predicate IsCutComment(f: Flags, begun: Str, rest: Str) {
    && f.comments
    && ( || (begun == [SLASH] && Peek(rest) != STAR && Peek(rest) != SLASH)
         || (|begun| >= 2 && begun[..2] == OPEN && IsBlockBody(begun[2..]) && Peek(rest) == NUL))
  }

  function SpellWord(e: Event): Str {
    [FirstLetter(e)] + OtherLetters(e)
  }

  /** Some letters of a word, and then not the next one. */
  predicate IsCutWord(e: Event, read: Str, rest: Str) {
    (e.NullEvent? || e.BoolEvent?) && [] < read < SpellWord(e) && Peek(rest) != SpellWord(e)[|read|]
  }

  ghost predicate IsStop(f: Flags, due: Due, stop: Stop, e: Error) {
    match stop
    case Unexpected(last) =>
      IsLastLine(f, last, e.rest) && StartsToken(f, e.rest) && !Expects(due, Peek(e.rest)) && e.code == Missing(due, Peek(e.rest))
    case CutComment(begun) => IsCutComment(f, begun, e.rest) && e.code == UnspecificSyntaxError
    case CutWord(event, read) => TakesValue(due) && IsCutWord(event, read, e.rest) && e.code == ValueInvalid
    case CutDigits(number) => TakesValue(due) && IsCut(number, e.rest) && e.code == CutCode(number)
    case BigNumber(n, post) =>
      TakesValue(due) && IsNumeral(n) && IsTooBig(f, n) && Ends(n, post) && e == Error(NumberTooBig, SpellNumeral(n) + post)
    case CutString(chars) =>
      (TakesValue(due) || due.DueName?) && IsString(f, chars) && IsPaired(f, chars) && IsBroken(f, e.rest, e.code)
  }

  function SpellStop(stop: Stop): Str {
    match stop
    case Unexpected(last) => last
    case CutComment(begun) => begun
    case CutWord(_, read) => read
    case CutDigits(number) => SpellCut(number)
    case BigNumber(_, _) => []
    case CutString(chars) => [QUOTE] + SpellChars(chars)
  }

  // ---------------------------------------------------------------------------------------------
  // Beginnings
  // ---------------------------------------------------------------------------------------------

  /** A value up to where reading stops. */
  datatype Part =
    | ValueStops(stop: Stop)
    | InArray(gap: seq<Space>, elements: PartElements)
    | InObject(gap: seq<Space>, members: PartMembers)

  /** Stops in an element, after one, or later. */
  datatype PartElements =
    | InElement(value: Part)
    | PastElement(whole: Json, after: seq<Space>, stop: Stop)
    | LaterElement(whole: Json, after: seq<Space>, gap: seq<Space>, more: PartElements)

  datatype PartMembers =
    | NameStops(stop: Stop)
    | ColonStops(name: seq<Char>, before: seq<Space>, stop: Stop)
    | PastColon(name: seq<Char>, before: seq<Space>, gap: seq<Space>, member: PartMember)

  /** Stops in the value of a member, after it, or later. */
  datatype PartMember =
    | InMember(value: Part)
    | PastMember(whole: Json, after: seq<Space>, stop: Stop)
    | LaterMember(whole: Json, after: seq<Space>, gap: seq<Space>, more: PartMembers)

  datatype PartText =
    | InRoot(gap: seq<Space>, value: Part)
    | PastRoot(gap: seq<Space>, root: Json, after: seq<Space>, stop: Stop)

  /** A value that is read. */
  predicate IsWhole(f: Flags, j: Json) {
    IsJson(f, j) && IsAcceptable(f, j)
  }

  predicate IsName(f: Flags, name: seq<Char>) {
    IsString(f, name) && IsPaired(f, name)
  }

  /** A value that is read, and after it a gap and what is no gap. */
  ghost predicate StopsAfter(f: Flags, due: Due, j: Json, after: seq<Space>, stop: Stop, e: Error) {
    && IsWhole(f, j) && AllSpacing(f, after) && IsStop(f, due, stop, e)
    && EndsJson(j, SpellSpaces(after) + (SpellStop(stop) + e.rest))
  }

  ghost predicate IsPart(f: Flags, due: Due, p: Part, e: Error)
    decreases p
  {
    match p
    case ValueStops(stop) => IsStop(f, due, stop, e)
    case InArray(gap, elements) => AllSpacing(f, gap) && ArePartElements(f, true, elements, e)
    case InObject(gap, members) => AllSpacing(f, gap) && ArePartMembers(f, true, members, e)
  }

  ghost predicate ArePartElements(f: Flags, closes: bool, p: PartElements, e: Error)
    decreases p
  {
    match p
    case InElement(value) => IsPart(f, DueElement(closes), value, e)
    case PastElement(j, after, stop) => StopsAfter(f, DueCommaOrBracket, j, after, stop, e)
    case LaterElement(j, after, gap, more) =>
      IsWhole(f, j) && AllSpacing(f, after) && AllSpacing(f, gap) && ArePartElements(f, f.trailingCommas, more, e)
  }

  ghost predicate ArePartMembers(f: Flags, closes: bool, p: PartMembers, e: Error)
    decreases p
  {
    match p
    case NameStops(stop) => IsStop(f, DueName(closes), stop, e)
    case ColonStops(name, before, stop) => IsName(f, name) && AllSpacing(f, before) && IsStop(f, DueColon, stop, e)
    case PastColon(name, before, gap, member) =>
      IsName(f, name) && AllSpacing(f, before) && AllSpacing(f, gap) && IsPartMember(f, member, e)
  }

  ghost predicate IsPartMember(f: Flags, p: PartMember, e: Error)
    decreases p
  {
    match p
    case InMember(value) => IsPart(f, DueValue, value, e)
    case PastMember(j, after, stop) => StopsAfter(f, DueCommaOrBrace, j, after, stop, e)
    case LaterMember(j, after, gap, more) =>
      IsWhole(f, j) && AllSpacing(f, after) && AllSpacing(f, gap) && ArePartMembers(f, f.trailingCommas, more, e)
  }

  /** The end of a text is looked at only when parsing does not stop with the value. */
  ghost predicate IsPartText(f: Flags, d: PartText, e: Error) {
    match d
    case InRoot(gap, value) => AllSpacing(f, gap) && IsPart(f, DueRoot, value, e)
    case PastRoot(gap, root, after, stop) => !f.stopWhenDone && AllSpacing(f, gap) && StopsAfter(f, DueEnd, root, after, stop, e)
  }

  // --- spelling ---

  function SpellPart(p: Part): Str {
    match p
    case ValueStops(stop) => SpellStop(stop)
    case InArray(gap, elements) => [LBRACKET] + (SpellSpaces(gap) + SpellPartElements(elements))
    case InObject(gap, members) => [LBRACE] + (SpellSpaces(gap) + SpellPartMembers(members))
  }

  function SpellPartElements(p: PartElements): Str {
    match p
    case InElement(value) => SpellPart(value)
    case PastElement(j, after, stop) => SpellJson(j) + (SpellSpaces(after) + SpellStop(stop))
    case LaterElement(j, after, gap, more) =>
      SpellJson(j) + (SpellSpaces(after) + ([COMMA] + (SpellSpaces(gap) + SpellPartElements(more))))
  }

  function SpellPartMembers(p: PartMembers): Str {
    match p
    case NameStops(stop) => SpellStop(stop)
    case ColonStops(name, before, stop) => SpellString(name) + (SpellSpaces(before) + SpellStop(stop))
    case PastColon(name, before, gap, member) =>
      SpellString(name) + (SpellSpaces(before) + ([COLON] + (SpellSpaces(gap) + SpellPartMember(member))))
  }

  function SpellPartMember(p: PartMember): Str {
    match p
    case InMember(value) => SpellPart(value)
    case PastMember(j, after, stop) => SpellJson(j) + (SpellSpaces(after) + SpellStop(stop))
    case LaterMember(j, after, gap, more) =>
      SpellJson(j) + (SpellSpaces(after) + ([COMMA] + (SpellSpaces(gap) + SpellPartMembers(more))))
  }

  function SpellPartText(d: PartText): Str {
    match d
    case InRoot(gap, value) => SpellSpaces(gap) + SpellPart(value)
    case PastRoot(gap, root, after, stop) => SpellSpaces(gap) + (SpellJson(root) + (SpellSpaces(after) + SpellStop(stop)))
  }

  // --- meaning ---

  /** The events of what has been read: opening brackets, names and whole values. */
  ghost function PartEvents(f: Flags, due: Due, p: Part, e: Error): seq<Event>
    requires IsPart(f, due, p, e)
    decreases p
  {
    match p
    case ValueStops(_) => []
    case InArray(_, elements) => [StartArrayEvent] + PartElementEvents(f, true, elements, e)
    case InObject(_, members) => [StartObjectEvent] + PartMembersEvents(f, true, members, e)
  }

  ghost function PartElementEvents(f: Flags, closes: bool, p: PartElements, e: Error): seq<Event>
    requires ArePartElements(f, closes, p, e)
    decreases p
  {
    match p
    case InElement(value) => PartEvents(f, DueElement(closes), value, e)
    case PastElement(j, _, _) => EventsOf(f, j)
    case LaterElement(j, _, _, more) => EventsOf(f, j) + PartElementEvents(f, f.trailingCommas, more, e)
  }

  ghost function PartMembersEvents(f: Flags, closes: bool, p: PartMembers, e: Error): seq<Event>
    requires ArePartMembers(f, closes, p, e)
    decreases p
  {
    match p
    case NameStops(_) => []
    case ColonStops(name, _, _) => [KeyEvent(Meanings(f, name))]
    case PastColon(name, _, _, member) => [KeyEvent(Meanings(f, name))] + PartMemberEvents(f, member, e)
  }

  ghost function PartMemberEvents(f: Flags, p: PartMember, e: Error): seq<Event>
    requires IsPartMember(f, p, e)
    decreases p
  {
    match p
    case InMember(value) => PartEvents(f, DueValue, value, e)
    case PastMember(j, _, _) => EventsOf(f, j)
    case LaterMember(j, _, _, more) => EventsOf(f, j) + PartMembersEvents(f, f.trailingCommas, more, e)
  }

  ghost function PartTextEvents(f: Flags, d: PartText, e: Error): seq<Event>
    requires IsPartText(f, d, e)
  {
    match d
    case InRoot(_, value) => PartEvents(f, DueRoot, value, e)
    case PastRoot(_, root, _, _) => EventsOf(f, root)
  }

  // ---------------------------------------------------------------------------------------------
  // A stop is refused where it is
  // ---------------------------------------------------------------------------------------------

  lemma {:induction false} CutBlockIsRefused(body: Str, rest: Str)
    requires IsBlockBody(body) && Peek(rest) == NUL
    ensures SkipBlockComment(body + rest) == None && CommentEnd(body + rest) == rest
    decreases |body|
  {
    var s := body + rest;
    if body == [] {
      assert s == rest;
    } else {
      assert s[0] == body[0] && s[1..] == body[1..] + rest;
      assert body[1..] == [] ==> s[1..] == rest;
      CutBlockIsRefused(body[1..], rest);
    }
  }

  lemma CutCommentIsRefused(f: Flags, begun: Str, rest: Str, log: seq<Event>)
    requires IsCutComment(f, begun, rest)
    ensures SkipSpace(f, State(begun + rest, log)) == Err(UnspecificSyntaxError, |rest|, log)
  {
    hide SkipBlockComment, CommentEnd, SkipLineComment;
    var s := begun + rest;
    if begun == [SLASH] {
      assert s[1..] == rest;
    } else {
      assert s[0] == begun[..2][0] && s[1..][0] == begun[..2][1] && s[2..] == begun[2..] + rest;
      CutBlockIsRefused(begun[2..], rest);
    }
  }

  /** What is left to read once the gap before a stop is behind. */
  function Seen(stop: Stop, rest: Str): Str {
    if stop.Unexpected? then rest else SpellStop(stop) + rest
  }

  lemma TokenStarts(f: Flags, due: Due, stop: Stop, e: Error)
    requires IsStop(f, due, stop, e) && !stop.Unexpected? && !stop.CutComment?
    ensures var c := Peek(Seen(stop, e.rest));
            StartsValue(c) && (due.DueName? ==> c == QUOTE)
  {
    hide IsTooBig, IsBroken, SpellChars, IsString, IsPaired;
    match stop
    case CutWord(event, read) => assert read[0] == SpellWord(event)[0];
    case CutDigits(number) =>
      if !number.NoWhole? {
        assert (SpellCut(number) + e.rest)[0] == Number.Literal(number.minus, number.whole)[0];
      }
    case BigNumber(n, post) =>
      assert [] + e.rest == e.rest;
      NumericStarts(n, post);
    case CutString(_) =>
  }

  /** Past a gap, reading comes to the stop, or fails in the comment it is. */
  lemma StopIsReached(f: Flags, due: Due, gap: seq<Space>, stop: Stop, e: Error, log: seq<Event>)
    requires AllSpacing(f, gap) && IsStop(f, due, stop, e)
    ensures SkipSpace(f, State(SpellSpaces(gap) + (SpellStop(stop) + e.rest), log))
         == if stop.CutComment? then Err(e.code, |e.rest|, log) else Ok(State(Seen(stop, e.rest), log))
  {
    SpacesAreSkipped(f, gap, SpellStop(stop) + e.rest, log);
    if stop.Unexpected? {
      hide SkipSpace, IsLastLine, StartsToken, SpellSpaces;
      LastIsSkipped(f, stop.last, e.rest, log);
    } else if stop.CutComment? {
      hide SkipSpace, SpellSpaces;
      CutCommentIsRefused(f, stop.begun, e.rest, log);
    } else {
      TokenStarts(f, due, stop, e);
      hide SkipSpace, SpellSpaces, IsStop, SpellStop;
      TokenIsKept(f, Seen(stop, e.rest), log);
    }
  }

  lemma {:induction false} CutWordIsRefused(letters: Str, read: Str, event: Event, rest: Str, log: seq<Event>)
    requires NUL !in letters && read < letters && Peek(rest) != letters[|read|]
    ensures Keyword(letters, event, State(read + rest, log)) == Err(ValueInvalid, |rest|, log)
    decreases |letters|
  {
    var s := read + rest;
    if read == [] {
      assert s == rest;
    } else {
      assert read[0] == letters[0] && letters[0] in letters;
      assert s[0] == read[0] && s[1..] == read[1..] + rest;
      CutWordIsRefused(letters[1..], read[1..], event, rest, log);
    }
  }

  lemma WordStopIsRefused(f: Flags, event: Event, read: Str, rest: Str, log: seq<Event>)
    requires IsCutWord(event, read, rest)
    ensures ParseValue(f, State(read + rest, log)) == Err(ValueInvalid, |rest|, log)
  {
    var s := read + rest;
    assert read[0] == SpellWord(event)[0] == FirstLetter(event);
    assert s[0] == read[0] && s[1..] == read[1..] + rest;
    assert SpellWord(event)[1..] == OtherLetters(event);
    CutWordIsRefused(OtherLetters(event), read[1..], event, rest, log);
  }

  lemma StringStopIsRefused(f: Flags, isKey: bool, chars: seq<Char>, e: Error, log: seq<Event>)
    requires IsString(f, chars) && IsPaired(f, chars) && IsBroken(f, e.rest, e.code)
    ensures Peek([QUOTE] + SpellChars(chars) + e.rest) == QUOTE
    ensures ParseString(f, isKey, State([QUOTE] + SpellChars(chars) + e.rest, log)) == Err(e.code, |e.rest|, log)
  {
    hide IsString, IsPaired, IsBroken, SpellChars, DecodeString;
    var s := [QUOTE] + SpellChars(chars) + e.rest;
    assert s[1..] == SpellChars(chars) + e.rest;
    BrokenIsRefused(f, chars, e.rest, e.code);
  }

  lemma NumberStopIsRefused(f: Flags, due: Due, stop: Stop, e: Error, log: seq<Event>)
    requires IsStop(f, due, stop, e) && (stop.CutDigits? || stop.BigNumber?)
    ensures ParseValue(f, State(SpellStop(stop) + e.rest, log)) == Err(e.code, |e.rest|, log)
  {
    hide Number.ParseNumber, IsTooBig, NumeralEvent;
    var s := SpellStop(stop) + e.rest;
    match stop
    case CutDigits(number) =>
      CutIsRefused(f, number, e.rest);
      if !number.NoWhole? {
        assert s[0] == Number.Literal(number.minus, number.whole)[0];
      }
    case BigNumber(n, post) =>
      assert s == e.rest;
      NumericStarts(n, post);
      NumeralIsRead(f, n, post);
  }

  lemma NoValueStarts(f: Flags, s: Str, log: seq<Event>)
    requires !StartsValue(Peek(s))
    ensures ParseValue(f, State(s, log)) == Err(ValueInvalid, |s|, log)
  {
  }

  /** A value that stops at once is refused where it stops. */
  lemma ValueStopIsRefused(f: Flags, due: Due, stop: Stop, e: Error, log: seq<Event>)
    requires IsStop(f, due, stop, e) && TakesValue(due) && !stop.CutComment?
    requires due.DueRoot? ==> Peek(Seen(stop, e.rest)) != NUL
    ensures ParseValue(f, State(Seen(stop, e.rest), log)) == Err(e.code, |e.rest|, log)
  {
    hide ParseValue, IsString, IsPaired, IsBroken, IsTooBig, IsCut, SpellCut, IsNumeral, Ends, SpellNumeral, IsCutWord;
    match stop
    case Unexpected(_) => NoValueStarts(f, e.rest, log);
    case CutWord(event, read) => WordStopIsRefused(f, event, read, e.rest, log);
    case CutString(chars) => QuotedStopIsRefused(f, chars, e, log);
    case _ => NumberStopIsRefused(f, due, stop, e, log);
  }

  lemma QuotedStopIsRefused(f: Flags, chars: seq<Char>, e: Error, log: seq<Event>)
    requires IsString(f, chars) && IsPaired(f, chars) && IsBroken(f, e.rest, e.code)
    ensures ParseValue(f, State([QUOTE] + SpellChars(chars) + e.rest, log)) == Err(e.code, |e.rest|, log)
  {
    hide ParseString, IsString, IsPaired, IsBroken, SpellChars;
    StringStopIsRefused(f, false, chars, e, log);
  }

  // ---------------------------------------------------------------------------------------------
  // A beginning is read up to its stop, and refused there
  // ---------------------------------------------------------------------------------------------

  // --- what is left to read once the gap before a beginning is behind ---

  predicate IsComment(p: Part) {
    p.ValueStops? && p.stop.CutComment?
  }

  function SeenPart(p: Part, rest: Str): Str {
    if p.ValueStops? then Seen(p.stop, rest) else SpellPart(p) + rest
  }

  predicate AreComment(p: PartElements) {
    p.InElement? && IsComment(p.value)
  }

  function SeenElements(p: PartElements, rest: Str): Str {
    if p.InElement? then SeenPart(p.value, rest) else SpellPartElements(p) + rest
  }

  function SeenNames(p: PartMembers, rest: Str): Str {
    if p.NameStops? then Seen(p.stop, rest) else SpellPartMembers(p) + rest
  }

  predicate NameIsComment(p: PartMembers) {
    p.NameStops? && p.stop.CutComment?
  }

  predicate MemberIsComment(p: PartMember) {
    p.InMember? && IsComment(p.value)
  }

  function SeenMember(p: PartMember, rest: Str): Str {
    if p.InMember? then SeenPart(p.value, rest) else SpellPartMember(p) + rest
  }

  lemma PartIsReached(f: Flags, due: Due, gap: seq<Space>, p: Part, e: Error, log: seq<Event>)
    requires AllSpacing(f, gap) && IsPart(f, due, p, e)
    ensures SkipSpace(f, State(SpellSpaces(gap) + (SpellPart(p) + e.rest), log))
         == if IsComment(p) then Err(e.code, |e.rest|, log) else Ok(State(SeenPart(p, e.rest), log))
    ensures due == DueElement(true) && !IsComment(p) ==> Peek(SeenPart(p, e.rest)) != RBRACKET
  {
    hide SkipSpace, SpellSpaces, AllSpacing, StartsToken, IsLastLine;
    if p.ValueStops? {
      StopIsReached(f, due, gap, p.stop, e, log);
      if !p.stop.CutComment? {
        StopIsNoBracket(f, due, p.stop, e);
      }
    } else {
      BracketStarts(f, p, e.rest);
      GapIsSkipped(f, gap, SpellPart(p) + e.rest, log);
    }
  }

  lemma StopIsNoBracket(f: Flags, due: Due, stop: Stop, e: Error)
    requires IsStop(f, due, stop, e) && !stop.CutComment?
    ensures due == DueElement(true) ==> Peek(Seen(stop, e.rest)) != RBRACKET
    ensures due == DueName(true) ==> Peek(Seen(stop, e.rest)) != RBRACE
  {
    if !stop.Unexpected? {
      TokenStarts(f, due, stop, e);
    }
  }

  lemma BracketStarts(f: Flags, p: Part, rest: Str)
    requires !p.ValueStops?
    ensures StartsToken(f, SpellPart(p) + rest) && Peek(SpellPart(p) + rest) != RBRACKET
  {
  }

  lemma JsonBegins(f: Flags, j: Json, tail: Str, rest: Str)
    requires IsJson(f, j)
    ensures StartsToken(f, SpellJson(j) + tail + rest) && Peek(SpellJson(j) + tail + rest) !in {RBRACKET, RBRACE, NUL}
    ensures SpellJson(j) + tail + rest == SpellJson(j) + (tail + rest)
  {
    hide SpellJson;
    Regroup3(SpellJson(j), tail, rest);
    JsonStarts(f, j, tail + rest);
  }

  lemma ElementsAreReached(f: Flags, closes: bool, gap: seq<Space>, p: PartElements, e: Error, log: seq<Event>)
    requires AllSpacing(f, gap) && ArePartElements(f, closes, p, e)
    ensures SkipSpace(f, State(SpellSpaces(gap) + (SpellPartElements(p) + e.rest), log))
         == if AreComment(p) then Err(e.code, |e.rest|, log) else Ok(State(SeenElements(p, e.rest), log))
    ensures closes && !AreComment(p) ==> Peek(SeenElements(p, e.rest)) != RBRACKET
  {
    hide SkipSpace, SpellSpaces, AllSpacing, StartsToken, SpellJson, IsStop, IsPart, EndsJson;
    match p
    case InElement(value) => PartIsReached(f, DueElement(closes), gap, value, e, log);
    case PastElement(j, after, stop) =>
      JsonBegins(f, j, SpellSpaces(after) + SpellStop(stop), e.rest);
      GapIsSkipped(f, gap, SpellPartElements(p) + e.rest, log);
    case LaterElement(j, after, next, more) =>
      JsonBegins(f, j, SpellSpaces(after) + ([COMMA] + (SpellSpaces(next) + SpellPartElements(more))), e.rest);
      GapIsSkipped(f, gap, SpellPartElements(p) + e.rest, log);
  }

  // --- arrays ---

  /** Past the opening bracket. */
  lemma BracketOpens(f: Flags, gap: seq<Space>, p: PartElements, e: Error, log: seq<Event>)
    requires AllSpacing(f, gap) && ArePartElements(f, true, p, e)
    ensures ArrayBody(f, State(SpellSpaces(gap) + (SpellPartElements(p) + e.rest), log))
         == if AreComment(p) then Err(e.code, |e.rest|, log) else NextElement(f, 0, State(SeenElements(p, e.rest), log))
  {
    hide SkipSpace, SpellSpaces, AllSpacing, NextElement, ArePartElements, SeenElements;
    ElementsAreReached(f, true, gap, p, e, log);
  }

  /** Past a comma between elements. */
  lemma CommaLeadsOn(f: Flags, count: SizeType, gap: seq<Space>, p: PartElements, e: Error, log: seq<Event>)
    requires AllSpacing(f, gap) && ArePartElements(f, f.trailingCommas, p, e)
    ensures ElementEnd(f, count, State([COMMA] + (SpellSpaces(gap) + (SpellPartElements(p) + e.rest)), log))
         == if AreComment(p) then Err(e.code, |e.rest|, log) else NextElement(f, count, State(SeenElements(p, e.rest), log))
  {
    hide SkipSpace, SpellSpaces, AllSpacing, NextElement, ArePartElements, SeenElements, SpellPartElements;
    var t := SpellSpaces(gap) + (SpellPartElements(p) + e.rest);
    assert ([COMMA] + t)[1..] == t;
    ElementsAreReached(f, f.trailingCommas, gap, p, e, log);
  }

  /** An element is whole, and neither a comma nor a bracket comes. */
  lemma ElementEndIsRefused(f: Flags, count: SizeType, j: Json, after: seq<Space>, stop: Stop, e: Error, log: seq<Event>)
    requires StopsAfter(f, DueCommaOrBracket, j, after, stop, e)
    ensures NextElement(f, count, State(SpellJson(j) + (SpellSpaces(after) + (SpellStop(stop) + e.rest)), log))
         == Err(e.code, |e.rest|, log + EventsOf(f, j))
  {
    hide SkipSpace, SpellSpaces, AllSpacing, ParseValue, ElementAfterComma, IsJson, EndsJson, SpellJson, EventsOf, IsAcceptable, StartsToken,
      IsLastLine;
    JsonIsRead(f, j, SpellSpaces(after) + (SpellStop(stop) + e.rest), log);
    StopIsReached(f, DueCommaOrBracket, after, stop, e, log + EventsOf(f, j));
  }

  /** An element is whole, and a comma leads on. */
  lemma ElementIsPassed(f: Flags, count: SizeType, j: Json, after: seq<Space>, t: Str, log: seq<Event>)
    requires IsWhole(f, j) && AllSpacing(f, after) && Peek(t) == COMMA
    ensures NextElement(f, count, State(SpellJson(j) + (SpellSpaces(after) + t), log))
         == ElementEnd(f, Increment(count), State(t, log + EventsOf(f, j)))
  {
    CommaStarts(f, t);
    GapEnds(f, j, after, t);
    hide SkipSpace, SpellSpaces, AllSpacing, ParseValue, ElementEnd, IsJson, EndsJson, SpellJson, EventsOf, IsAcceptable, StartsToken;
    JsonIsRead(f, j, SpellSpaces(after) + t, log);
    GapIsSkipped(f, after, t, log + EventsOf(f, j));
  }

  lemma CommaStarts(f: Flags, t: Str)
    requires Peek(t) == COMMA
    ensures StartsToken(f, t)
  {
  }

  lemma LaterElementIsSpelled(j: Json, after: seq<Space>, gap: seq<Space>, more: PartElements, rest: Str)
    ensures SpellPartElements(LaterElement(j, after, gap, more)) + rest
         == SpellJson(j) + (SpellSpaces(after) + ([COMMA] + (SpellSpaces(gap) + (SpellPartElements(more) + rest))))
  {
    hide SpellJson, SpellSpaces;
    var more := SpellPartElements(more);
    Regroup3(SpellJson(j), SpellSpaces(after) + ([COMMA] + (SpellSpaces(gap) + more)), rest);
    Regroup3(SpellSpaces(after), [COMMA] + (SpellSpaces(gap) + more), rest);
    Regroup3([COMMA], SpellSpaces(gap) + more, rest);
    Regroup3(SpellSpaces(gap), more, rest);
  }

  lemma {:induction false} ElementsAreRefused(f: Flags, count: SizeType, closes: bool, p: PartElements, e: Error, log: seq<Event>)
    requires ArePartElements(f, closes, p, e) && !AreComment(p)
    ensures NextElement(f, count, State(SeenElements(p, e.rest), log))
         == Err(e.code, |e.rest|, log + PartElementEvents(f, closes, p, e))
    decreases p, 1
  {
    hide SpellSpaces, AllSpacing, ParseValue, ElementEnd, IsJson, EndsJson, SpellJson, EventsOf, IsAcceptable, IsStop, SkipSpace,
      SpellPart, SeenPart, SpellStop;
    match p
    case InElement(value) =>
      PartIsRefused(f, DueElement(closes), value, e, log);
    case PastElement(j, after, stop) =>
      Regroup3(SpellJson(j), SpellSpaces(after) + SpellStop(stop), e.rest);
      Regroup3(SpellSpaces(after), SpellStop(stop), e.rest);
      ElementEndIsRefused(f, count, j, after, stop, e, log);
    case LaterElement(j, after, gap, more) =>
      LaterElementIsRefused(f, count, closes, p, e, log);
  }

  lemma {:induction false} LaterElementIsRefused(f: Flags, count: SizeType, closes: bool, p: PartElements, e: Error, log: seq<Event>)
    requires ArePartElements(f, closes, p, e) && p.LaterElement?
    ensures NextElement(f, count, State(SpellPartElements(p) + e.rest, log))
         == Err(e.code, |e.rest|, log + PartElementEvents(f, closes, p, e))
    decreases p, 0
  {
    hide SpellSpaces, AllSpacing, NextElement, ElementEnd, SpellJson, EventsOf, SpellPartElements, SeenElements, IsJson, IsAcceptable;
    var LaterElement(j, after, gap, more) := p;
    var t := [COMMA] + (SpellSpaces(gap) + (SpellPartElements(more) + e.rest));
    var passed := log + EventsOf(f, j);
    LaterElementIsSpelled(j, after, gap, more, e.rest);
    ElementIsPassed(f, count, j, after, t, log);
    CommaLeadsOn(f, Increment(count), gap, more, e, passed);
    if AreComment(more) {
      NothingIsMeant(f, f.trailingCommas, more, e);
      assert EventsOf(f, j) + [] == EventsOf(f, j);
    } else {
      ElementsAreRefused(f, Increment(count), f.trailingCommas, more, e, passed);
      Regroup3(log, EventsOf(f, j), PartElementEvents(f, f.trailingCommas, more, e));
    }
  }

  lemma NothingIsMeant(f: Flags, closes: bool, p: PartElements, e: Error)
    requires ArePartElements(f, closes, p, e) && AreComment(p)
    ensures PartElementEvents(f, closes, p, e) == []
  {
  }

  /** A beginning of a value is read up to where it stops, and refused there. */
  lemma {:induction false} PartIsRefused(f: Flags, due: Due, p: Part, e: Error, log: seq<Event>)
    requires IsPart(f, due, p, e) && TakesValue(due) && !IsComment(p)
    requires due.DueRoot? ==> Peek(SeenPart(p, e.rest)) != NUL
    ensures ParseValue(f, State(SeenPart(p, e.rest), log)) == Err(e.code, |e.rest|, log + PartEvents(f, due, p, e))
    decreases p
  {
    hide ParseValue, SpellSpaces, AllSpacing, SpellPartElements, SpellPartMembers, IsStop, ArePartElements, ArePartMembers, SpellStop;
    match p
    case ValueStops(stop) =>
      ValueStopIsRefused(f, due, stop, e, log);
      assert log + [] == log;
    case InArray(gap, elements) =>
      ArrayIsRefused(f, gap, elements, e, log);
      Regroup3(log, [StartArrayEvent], PartElementEvents(f, true, elements, e));
    case InObject(gap, members) =>
      ObjectIsRefused(f, gap, members, e, log);
      Regroup3(log, [StartObjectEvent], PartMembersEvents(f, true, members, e));
  }

  lemma {:induction false} ArrayIsRefused(f: Flags, gap: seq<Space>, p: PartElements, e: Error, log: seq<Event>)
    requires AllSpacing(f, gap) && ArePartElements(f, true, p, e)
    ensures ParseValue(f, State([LBRACKET] + (SpellSpaces(gap) + SpellPartElements(p)) + e.rest, log))
         == Err(e.code, |e.rest|, log + [StartArrayEvent] + PartElementEvents(f, true, p, e))
    decreases p, 2
  {
    hide SpellSpaces, AllSpacing, SpellPartElements, ArePartElements, NextElement, ArrayBody, SeenElements, PartElementEvents;
    var t, inside := SpellSpaces(gap) + (SpellPartElements(p) + e.rest), log + [StartArrayEvent];
    Regroup3([LBRACKET], SpellSpaces(gap) + SpellPartElements(p), e.rest);
    Regroup3(SpellSpaces(gap), SpellPartElements(p), e.rest);
    assert ([LBRACKET] + t)[1..] == t;
    assert ParseValue(f, State([LBRACKET] + t, log)) == ArrayBody(f, State(t, inside));
    BracketOpens(f, gap, p, e, inside);
    if AreComment(p) {
      NothingIsMeant(f, true, p, e);
      assert inside + [] == inside;
    } else {
      ElementsAreRefused(f, 0, true, p, e, inside);
    }
  }

  // --- objects ---

  lemma NamesAreReached(f: Flags, closes: bool, gap: seq<Space>, p: PartMembers, e: Error, log: seq<Event>)
    requires AllSpacing(f, gap) && ArePartMembers(f, closes, p, e)
    ensures SkipSpace(f, State(SpellSpaces(gap) + (SpellPartMembers(p) + e.rest), log))
         == if NameIsComment(p) then Err(e.code, |e.rest|, log) else Ok(State(SeenNames(p, e.rest), log))
    ensures closes && !NameIsComment(p) ==> Peek(SeenNames(p, e.rest)) != RBRACE
  {
    hide SkipSpace, SpellSpaces, AllSpacing, StartsToken, IsStop, SpellStop, SpellPartMember, SpellChars;
    if p.NameStops? {
      StopIsReached(f, DueName(closes), gap, p.stop, e, log);
      if !p.stop.CutComment? {
        StopIsNoBracket(f, DueName(closes), p.stop, e);
      }
    } else {
      QuoteStarts(f, SpellPartMembers(p) + e.rest);
      GapIsSkipped(f, gap, SpellPartMembers(p) + e.rest, log);
    }
  }

  lemma QuoteStarts(f: Flags, s: Str)
    requires Peek(s) == QUOTE
    ensures StartsToken(f, s)
  {
  }

  /** Past the opening brace. */
  lemma BraceOpens(f: Flags, gap: seq<Space>, p: PartMembers, e: Error, log: seq<Event>)
    requires AllSpacing(f, gap) && ArePartMembers(f, true, p, e)
    ensures ObjectBody(f, State(SpellSpaces(gap) + (SpellPartMembers(p) + e.rest), log))
         == if NameIsComment(p) then Err(e.code, |e.rest|, log) else NextMember(f, 0, State(SeenNames(p, e.rest), log))
  {
    hide SkipSpace, SpellSpaces, AllSpacing, NextMember, ArePartMembers, SeenNames;
    NamesAreReached(f, true, gap, p, e, log);
  }

  /** Past a comma between members. */
  lemma CommaLeadsToName(f: Flags, count: SizeType, gap: seq<Space>, p: PartMembers, e: Error, log: seq<Event>)
    requires AllSpacing(f, gap) && ArePartMembers(f, f.trailingCommas, p, e)
    ensures MemberEnd(f, count, State([COMMA] + (SpellSpaces(gap) + (SpellPartMembers(p) + e.rest)), log))
         == if NameIsComment(p) then Err(e.code, |e.rest|, log) else NextMember(f, count, State(SeenNames(p, e.rest), log))
  {
    hide SkipSpace, SpellSpaces, AllSpacing, NextMember, ArePartMembers, SeenNames, SpellPartMembers;
    var t := SpellSpaces(gap) + (SpellPartMembers(p) + e.rest);
    assert ([COMMA] + t)[1..] == t;
    NamesAreReached(f, f.trailingCommas, gap, p, e, log);
  }

  /** Where a name is due, something else comes, or a string that is refused. */
  lemma NameStopIsRefused(f: Flags, count: SizeType, closes: bool, stop: Stop, e: Error, log: seq<Event>)
    requires IsStop(f, DueName(closes), stop, e) && !stop.CutComment?
    ensures NextMember(f, count, State(Seen(stop, e.rest), log)) == Err(e.code, |e.rest|, log)
  {
    hide ParseString, IsString, IsPaired, IsBroken, SpellChars, SkipSpace, MemberColon;
    if stop.CutString? {
      StringStopIsRefused(f, true, stop.chars, e, log);
    }
  }

  /** After a name, up to what is no gap. */
  lemma NameIsPassed(f: Flags, count: SizeType, name: seq<Char>, before: seq<Space>, t: Str, log: seq<Event>)
    requires IsName(f, name)
    ensures var named := log + [KeyEvent(Meanings(f, name))];
            var r := SkipSpace(f, State(SpellSpaces(before) + t, named));
            NextMember(f, count, State(SpellString(name) + (SpellSpaces(before) + t), log))
            == if r.Ok? then MemberColon(f, count, r.state) else r
  {
    hide SpellSpaces, SkipSpace, SpellString, ParseString, MemberColon, IsString, IsPaired, Meanings;
    StringIsRead(f, true, name, SpellSpaces(before) + t, log);
  }

  lemma ColonStopIsRefused(f: Flags, count: SizeType, name: seq<Char>, before: seq<Space>, stop: Stop, e: Error, log: seq<Event>)
    requires IsName(f, name) && AllSpacing(f, before) && IsStop(f, DueColon, stop, e)
    ensures NextMember(f, count, State(SpellString(name) + (SpellSpaces(before) + (SpellStop(stop) + e.rest)), log))
         == Err(e.code, |e.rest|, log + [KeyEvent(Meanings(f, name))])
  {
    hide SpellSpaces, SkipSpace, SpellString, NextMember, IsString, IsPaired, Meanings, AllSpacing, MemberValue, StartsToken, IsLastLine;
    NameIsPassed(f, count, name, before, SpellStop(stop) + e.rest, log);
    StopIsReached(f, DueColon, before, stop, e, log + [KeyEvent(Meanings(f, name))]);
  }

  lemma MemberIsReached(f: Flags, gap: seq<Space>, p: PartMember, e: Error, log: seq<Event>)
    requires AllSpacing(f, gap) && IsPartMember(f, p, e)
    ensures SkipSpace(f, State(SpellSpaces(gap) + (SpellPartMember(p) + e.rest), log))
         == if MemberIsComment(p) then Err(e.code, |e.rest|, log) else Ok(State(SeenMember(p, e.rest), log))
  {
    hide SkipSpace, SpellSpaces, AllSpacing, StartsToken, SpellJson, IsStop, IsPart, EndsJson;
    match p
    case InMember(value) => PartIsReached(f, DueValue, gap, value, e, log);
    case PastMember(j, after, stop) =>
      JsonBegins(f, j, SpellSpaces(after) + SpellStop(stop), e.rest);
      GapIsSkipped(f, gap, SpellPartMember(p) + e.rest, log);
    case LaterMember(j, after, next, more) =>
      JsonBegins(f, j, SpellSpaces(after) + ([COMMA] + (SpellSpaces(next) + SpellPartMembers(more))), e.rest);
      GapIsSkipped(f, gap, SpellPartMember(p) + e.rest, log);
  }

  /** Past a name and its colon. */
  lemma ColonLeadsOn(f: Flags, count: SizeType, name: seq<Char>, before: seq<Space>, gap: seq<Space>, p: PartMember, e: Error, log: seq<Event>)
    requires IsName(f, name) && AllSpacing(f, before) && AllSpacing(f, gap) && IsPartMember(f, p, e)
    ensures var t := [COLON] + (SpellSpaces(gap) + (SpellPartMember(p) + e.rest));
            var named := log + [KeyEvent(Meanings(f, name))];
            NextMember(f, count, State(SpellString(name) + (SpellSpaces(before) + t), log))
            == if MemberIsComment(p) then Err(e.code, |e.rest|, named) else MemberValue(f, count, State(SeenMember(p, e.rest), named))
  {
    hide SpellSpaces, SkipSpace, SpellString, NextMember, IsString, IsPaired, Meanings, AllSpacing, MemberValue, StartsToken, IsPartMember, SeenMember,
      SpellPartMember;
    var t := [COLON] + (SpellSpaces(gap) + (SpellPartMember(p) + e.rest));
    var named := log + [KeyEvent(Meanings(f, name))];
    ColonStarts(f, t);
    NameIsPassed(f, count, name, before, t, log);
    GapIsSkipped(f, before, t, named);
    assert t[1..] == SpellSpaces(gap) + (SpellPartMember(p) + e.rest);
    MemberIsReached(f, gap, p, e, named);
  }

  lemma MemberEndIsRefused(f: Flags, count: SizeType, j: Json, after: seq<Space>, stop: Stop, e: Error, log: seq<Event>)
    requires StopsAfter(f, DueCommaOrBrace, j, after, stop, e)
    ensures MemberValue(f, count, State(SpellJson(j) + (SpellSpaces(after) + (SpellStop(stop) + e.rest)), log))
         == Err(e.code, |e.rest|, log + EventsOf(f, j))
  {
    hide SkipSpace, SpellSpaces, AllSpacing, ParseValue, MemberAfterComma, IsJson, EndsJson, SpellJson, EventsOf, IsAcceptable, StartsToken,
      IsLastLine;
    JsonIsRead(f, j, SpellSpaces(after) + (SpellStop(stop) + e.rest), log);
    StopIsReached(f, DueCommaOrBrace, after, stop, e, log + EventsOf(f, j));
  }

  lemma MemberIsPassed(f: Flags, count: SizeType, j: Json, after: seq<Space>, t: Str, log: seq<Event>)
    requires IsWhole(f, j) && AllSpacing(f, after) && Peek(t) == COMMA
    ensures MemberValue(f, count, State(SpellJson(j) + (SpellSpaces(after) + t), log))
         == MemberEnd(f, Increment(count), State(t, log + EventsOf(f, j)))
  {
    CommaStarts(f, t);
    GapEnds(f, j, after, t);
    hide SkipSpace, SpellSpaces, AllSpacing, ParseValue, MemberEnd, IsJson, EndsJson, SpellJson, EventsOf, IsAcceptable, StartsToken;
    JsonIsRead(f, j, SpellSpaces(after) + t, log);
    GapIsSkipped(f, after, t, log + EventsOf(f, j));
  }

  lemma {:induction false} NamesAreRefused(f: Flags, count: SizeType, closes: bool, p: PartMembers, e: Error, log: seq<Event>)
    requires ArePartMembers(f, closes, p, e) && !NameIsComment(p)
    ensures NextMember(f, count, State(SeenNames(p, e.rest), log))
         == Err(e.code, |e.rest|, log + PartMembersEvents(f, closes, p, e))
    decreases p, 1
  {
    hide SpellSpaces, AllSpacing, NextMember, SpellString, IsStop, SpellStop, IsString, IsPaired, Meanings, SpellPartMember, IsPartMember, Seen;
    match p
    case NameStops(stop) =>
      NameStopIsRefused(f, count, closes, stop, e, log);
      assert log + [] == log;
    case ColonStops(name, before, stop) =>
      Regroup3(SpellString(name), SpellSpaces(before) + SpellStop(stop), e.rest);
      Regroup3(SpellSpaces(before), SpellStop(stop), e.rest);
      ColonStopIsRefused(f, count, name, before, stop, e, log);
    case PastColon(name, before, gap, member) =>
      NamedIsRefused(f, count, name, before, gap, member, e, log);
      PastColonIsSpelled(name, before, gap, member, e.rest);
      Regroup3(log, [KeyEvent(Meanings(f, name))], PartMemberEvents(f, member, e));
  }

  lemma PastColonIsSpelled(name: seq<Char>, before: seq<Space>, gap: seq<Space>, member: PartMember, rest: Str)
    ensures SpellPartMembers(PastColon(name, before, gap, member)) + rest
         == SpellString(name) + (SpellSpaces(before) + ([COLON] + (SpellSpaces(gap) + (SpellPartMember(member) + rest))))
  {
    hide SpellString, SpellSpaces;
    var value := SpellPartMember(member);
    Regroup3(SpellString(name), SpellSpaces(before) + ([COLON] + (SpellSpaces(gap) + value)), rest);
    Regroup3(SpellSpaces(before), [COLON] + (SpellSpaces(gap) + value), rest);
    Regroup3([COLON], SpellSpaces(gap) + value, rest);
    Regroup3(SpellSpaces(gap), value, rest);
  }

  lemma {:induction false} NamedIsRefused(f: Flags, count: SizeType, name: seq<Char>, before: seq<Space>, gap: seq<Space>, p: PartMember,
                                          e: Error, log: seq<Event>)
    requires IsName(f, name) && AllSpacing(f, before) && AllSpacing(f, gap) && IsPartMember(f, p, e)
    ensures NextMember(f, count, State(SpellString(name) + (SpellSpaces(before) + ([COLON] + (SpellSpaces(gap) + (SpellPartMember(p) + e.rest)))), log))
         == Err(e.code, |e.rest|, log + [KeyEvent(Meanings(f, name))] + PartMemberEvents(f, p, e))
    decreases p, 1
  {
    hide SpellSpaces, AllSpacing, NextMember, SpellString, IsString, IsPaired, Meanings, SpellPartMember, IsPartMember, SeenMember, MemberValue,
      PartMemberEvents;
    var named := log + [KeyEvent(Meanings(f, name))];
    ColonLeadsOn(f, count, name, before, gap, p, e, log);
    if MemberIsComment(p) {
      NothingIsMeantByMember(f, p, e);
      assert named + [] == named;
    } else {
      MemberIsRefused(f, count, p, e, named);
    }
  }

  lemma NothingIsMeantByMember(f: Flags, p: PartMember, e: Error)
    requires IsPartMember(f, p, e) && MemberIsComment(p)
    ensures PartMemberEvents(f, p, e) == []
  {
  }

  lemma NothingIsMeantByName(f: Flags, closes: bool, p: PartMembers, e: Error)
    requires ArePartMembers(f, closes, p, e) && NameIsComment(p)
    ensures PartMembersEvents(f, closes, p, e) == []
  {
  }

  lemma {:induction false} MemberIsRefused(f: Flags, count: SizeType, p: PartMember, e: Error, log: seq<Event>)
    requires IsPartMember(f, p, e) && !MemberIsComment(p)
    ensures MemberValue(f, count, State(SeenMember(p, e.rest), log)) == Err(e.code, |e.rest|, log + PartMemberEvents(f, p, e))
    decreases p, 0
  {
    hide SpellSpaces, AllSpacing, ParseValue, MemberEnd, IsJson, EndsJson, SpellJson, EventsOf, IsAcceptable, IsStop, SkipSpace,
      SpellPart, SeenPart, SpellStop;
    match p
    case InMember(value) =>
      PartIsRefused(f, DueValue, value, e, log);
    case PastMember(j, after, stop) =>
      Regroup3(SpellJson(j), SpellSpaces(after) + SpellStop(stop), e.rest);
      Regroup3(SpellSpaces(after), SpellStop(stop), e.rest);
      MemberEndIsRefused(f, count, j, after, stop, e, log);
    case LaterMember(j, after, gap, more) =>
      LaterMemberIsSpelled(j, after, gap, more, e.rest);
      LaterMemberIsRefused(f, count, j, after, gap, more, e, log);
      Regroup3(log, EventsOf(f, j), PartMembersEvents(f, f.trailingCommas, more, e));
  }

  lemma LaterMemberIsSpelled(j: Json, after: seq<Space>, gap: seq<Space>, more: PartMembers, rest: Str)
    ensures SpellPartMember(LaterMember(j, after, gap, more)) + rest
         == SpellJson(j) + (SpellSpaces(after) + ([COMMA] + (SpellSpaces(gap) + (SpellPartMembers(more) + rest))))
  {
    hide SpellJson, SpellSpaces;
    var more := SpellPartMembers(more);
    Regroup3(SpellJson(j), SpellSpaces(after) + ([COMMA] + (SpellSpaces(gap) + more)), rest);
    Regroup3(SpellSpaces(after), [COMMA] + (SpellSpaces(gap) + more), rest);
    Regroup3([COMMA], SpellSpaces(gap) + more, rest);
    Regroup3(SpellSpaces(gap), more, rest);
  }

  lemma {:induction false} LaterMemberIsRefused(f: Flags, count: SizeType, j: Json, after: seq<Space>, gap: seq<Space>, more: PartMembers,
                                                e: Error, log: seq<Event>)
    requires IsWhole(f, j) && AllSpacing(f, after) && AllSpacing(f, gap) && ArePartMembers(f, f.trailingCommas, more, e)
    ensures MemberValue(f, count, State(SpellJson(j) + (SpellSpaces(after) + ([COMMA] + (SpellSpaces(gap) + (SpellPartMembers(more) + e.rest)))), log))
         == Err(e.code, |e.rest|, log + EventsOf(f, j) + PartMembersEvents(f, f.trailingCommas, more, e))
    decreases more, 2
  {
    hide SpellSpaces, AllSpacing, MemberValue, MemberEnd, NextMember, SpellJson, EventsOf, SpellPartMembers, SeenNames, IsJson, IsAcceptable, ArePartMembers,
      PartMembersEvents;
    var t := [COMMA] + (SpellSpaces(gap) + (SpellPartMembers(more) + e.rest));
    var passed := log + EventsOf(f, j);
    MemberIsPassed(f, count, j, after, t, log);
    CommaLeadsToName(f, Increment(count), gap, more, e, passed);
    if NameIsComment(more) {
      NothingIsMeantByName(f, f.trailingCommas, more, e);
      assert passed + [] == passed;
    } else {
      NamesAreRefused(f, Increment(count), f.trailingCommas, more, e, passed);
    }
  }

  lemma {:induction false} ObjectIsRefused(f: Flags, gap: seq<Space>, p: PartMembers, e: Error, log: seq<Event>)
    requires AllSpacing(f, gap) && ArePartMembers(f, true, p, e)
    ensures ParseValue(f, State([LBRACE] + (SpellSpaces(gap) + SpellPartMembers(p)) + e.rest, log))
         == Err(e.code, |e.rest|, log + [StartObjectEvent] + PartMembersEvents(f, true, p, e))
    decreases p, 2
  {
    hide SpellSpaces, AllSpacing, SpellPartMembers, ArePartMembers, NextMember, ObjectBody, SeenNames, PartMembersEvents;
    var t, inside := SpellSpaces(gap) + (SpellPartMembers(p) + e.rest), log + [StartObjectEvent];
    Regroup3([LBRACE], SpellSpaces(gap) + SpellPartMembers(p), e.rest);
    Regroup3(SpellSpaces(gap), SpellPartMembers(p), e.rest);
    assert ([LBRACE] + t)[1..] == t;
    assert ParseValue(f, State([LBRACE] + t, log)) == ObjectBody(f, State(t, inside));
    BraceOpens(f, gap, p, e, inside);
    if NameIsComment(p) {
      NothingIsMeantByName(f, true, p, e);
      assert inside + [] == inside;
    } else {
      NamesAreRefused(f, 0, true, p, e, inside);
    }
  }

  // --- texts ---

  lemma RootIsRefused(f: Flags, gap: seq<Space>, p: Part, e: Error)
    requires AllSpacing(f, gap) && IsPart(f, DueRoot, p, e)
    ensures ParseText(f, SpellSpaces(gap) + SpellPart(p) + e.rest) == Err(e.code, |e.rest|, PartEvents(f, DueRoot, p, e))
  {
    Regroup3(SpellSpaces(gap), SpellPart(p), e.rest);
    PartIsReached(f, DueRoot, gap, p, e, []);
    if IsComment(p) {
    } else if Peek(SeenPart(p, e.rest)) == NUL {
      NulIsUnexpected(f, p, e);
    } else {
      hide *;
      PartIsRefused(f, DueRoot, p, e, []);
      var events := PartEvents(f, DueRoot, p, e);
      assert [] + events == events;
      ValueIsRefused(f, State(SpellSpaces(gap) + (SpellPart(p) + e.rest), []), State(SeenPart(p, e.rest), []));
    }
  }

  /** A root that is refused. */
  lemma ValueIsRefused(f: Flags, st: State, root: State)
    requires st.log == [] && SkipSpace(f, st) == Ok(root) && Peek(root.rest) != NUL && ParseValue(f, root).Err?
    ensures ParseText(f, st.rest) == ParseValue(f, root)
  {
    hide ParseValue, SkipSpace;
  }

  lemma NulIsUnexpected(f: Flags, p: Part, e: Error)
    requires IsPart(f, DueRoot, p, e) && !IsComment(p) && Peek(SeenPart(p, e.rest)) == NUL
    ensures p.ValueStops? && e.code == DocumentEmpty && SeenPart(p, e.rest) == e.rest
  {
    if p.ValueStops? && !p.stop.Unexpected? {
      TokenStarts(f, DueRoot, p.stop, e);
    }
  }

  lemma EndIsRefused(f: Flags, gap: seq<Space>, root: Json, after: seq<Space>, stop: Stop, e: Error)
    requires !f.stopWhenDone && AllSpacing(f, gap) && StopsAfter(f, DueEnd, root, after, stop, e)
    ensures ParseText(f, SpellSpaces(gap) + (SpellJson(root) + (SpellSpaces(after) + (SpellStop(stop) + e.rest))))
         == Err(e.code, |e.rest|, EventsOf(f, root))
  {
    hide ParseValue, SkipSpace, SpellJson, SpellSpaces, AllSpacing, IsJson, EndsJson, StartsToken, IsLastLine, EventsOf, IsAcceptable;
    var tail := SpellSpaces(after) + (SpellStop(stop) + e.rest);
    JsonStarts(f, root, tail);
    GapIsSkipped(f, gap, SpellJson(root) + tail, []);
    JsonIsRead(f, root, tail, []);
    assert [] + EventsOf(f, root) == EventsOf(f, root);
    StopIsReached(f, DueEnd, after, stop, e, EventsOf(f, root));
  }

  /** A text that begins like this is refused, with that error, at that place and after those events. */
  lemma PartTextIsRefused(f: Flags, d: PartText, e: Error)
    requires IsPartText(f, d, e)
    ensures ParseText(f, SpellPartText(d) + e.rest) == Err(e.code, |e.rest|, PartTextEvents(f, d, e))
  {
    hide ParseText, SpellSpaces, SpellJson, SpellStop, SpellPart, AllSpacing, StopsAfter, IsPart, PartEvents;
    match d
    case InRoot(gap, value) => RootIsRefused(f, gap, value, e);
    case PastRoot(gap, root, after, stop) =>
      Regroup3(SpellSpaces(gap), SpellJson(root) + (SpellSpaces(after) + SpellStop(stop)), e.rest);
      Regroup3(SpellJson(root), SpellSpaces(after) + SpellStop(stop), e.rest);
      Regroup3(SpellSpaces(after), SpellStop(stop), e.rest);
      EndIsRefused(f, gap, root, after, stop, e);
      StopsAfterIs(f, DueEnd, root, after, stop, e);
  }

  lemma StopsAfterIs(f: Flags, due: Due, j: Json, after: seq<Space>, stop: Stop, e: Error)
    requires StopsAfter(f, due, j, after, stop, e)
    ensures IsJson(f, j)
  {
  }

  // ---------------------------------------------------------------------------------------------
  // What is refused is a beginning
  // ---------------------------------------------------------------------------------------------

  // --- gaps ---

  lemma {:induction false} RefusedIsBlock(s: Str) returns (body: Str)
    requires SkipBlockComment(s).None?
    ensures IsBlockBody(body) && s == body + CommentEnd(s) && Peek(CommentEnd(s)) == NUL
    decreases |s|
  {
    if Peek(s) == NUL {
      body := [];
      assert [] + s == s;
    } else {
      var more := RefusedIsBlock(s[1..]);
      body := [s[0]] + more;
      assert s == [s[0]] + s[1..];
      Regroup3([s[0]], more, CommentEnd(s));
      assert body[1..] == more && Peek(more) == SLASH ==> s[1] == SLASH;
    }
  }

  lemma NulIsKept(s: Str, log: seq<Event>)
    ensures Peek(s) == NUL ==> SkipComments(State(SkipWhitespace(s), log)).Ok?
  {
  }

  /** A piece and then `t`, or the comment that breaks off at `t`. */
  predicate IsRefusedPiece(f: Flags, s: Str, log: seq<Event>, p: Option<Space>, t: Str, begun: Str) {
    match p
    case Some(piece) =>
      && IsSpacing(f, piece) && s == SpellSpace(piece) + t && |t| < |s|
      && SkipSpace(f, State(s, log)) == SkipSpace(f, State(t, log))
    case None => IsCutComment(f, begun, t) && s == begun + t
  }

  /** Where a gap is refused, a piece is behind, or the comment starts that is refused. */
  lemma RefusedIsPiece(f: Flags, s: Str, log: seq<Event>) returns (p: Option<Space>, t: Str, begun: Str)
    requires SkipSpace(f, State(s, log)).Err?
    ensures IsRefusedPiece(f, s, log, p, t, begun)
  {
    hide SkipBlockComment, SkipLineComment, CommentEnd;
    begun := [];
    if IsSpace(Peek(s)) {
      p, t := Some(Blank(s[0])), s[1..];
    } else if Peek(s[1..]) == STAR {
      assert s == OPEN + s[2..];
      if SkipBlockComment(s[2..]).None? {
        var body := RefusedIsBlock(s[2..]);
        p, t, begun := None, CommentEnd(s[2..]), OPEN + body;
        Regroup3(OPEN, body, t);
        assert begun[..2] == OPEN && begun[2..] == body;
      } else {
        t := SkipBlockComment(s[2..]).value;
        var body := SkippedIsBlock(s[2..]);
        p := Some(Block(body));
        Regroup3(body, CLOSE, t);
        Regroup3(OPEN, body + CLOSE, t);
      }
    } else if Peek(s[1..]) == SLASH {
      t := SkipLineComment(s[2..]);
      var body, ended := SkippedIsLine(s[2..]);
      NulIsKept(t, log);
      p := Some(Line(body));
      assert s == SLASHES + s[2..];
      Regroup3(body, [LF], t);
      Regroup3(SLASHES, body + [LF], t);
    } else {
      p, t, begun := None, s[1..], [SLASH];
    }
  }

  predicate IsRefusedGap(f: Flags, s: Str, g: seq<Space>, begun: Str, rest: Str) {
    AllSpacing(f, g) && s == SpellSpaces(g) + (begun + rest) && IsCutComment(f, begun, rest)
  }

  lemma {:induction false} RefusedIsGap(f: Flags, s: Str, log: seq<Event>) returns (g: seq<Space>, begun: Str, rest: Str)
    requires SkipSpace(f, State(s, log)).Err?
    ensures IsRefusedGap(f, s, g, begun, rest)
    decreases |s|
  {
    hide SkipSpace, SpellSpace, IsSpacing, IsCutComment;
    var p, t;
    p, t, begun := RefusedIsPiece(f, s, log);
    if p.Some? {
      g, begun, rest := RefusedIsGap(f, t, log);
      Prepend(f, p.value, g, s, begun + rest);
      g := [p.value] + g;
    } else {
      g, rest := [], t;
      assert [] + (begun + rest) == begun + rest;
    }
  }

  /** A gap and a stop. */
  ghost predicate IsGapAndStop(f: Flags, due: Due, s: Str, g: seq<Space>, stop: Stop, e: Error) {
    AllSpacing(f, g) && IsStop(f, due, stop, e) && s == SpellSpaces(g) + (SpellStop(stop) + e.rest)
  }

  /** A gap that is refused is one with a stop after it. */
  lemma RefusedGapStops(f: Flags, due: Due, s: Str, log: seq<Event>) returns (g: seq<Space>, stop: Stop, e: Error)
    requires SkipSpace(f, State(s, log)).Err?
    ensures IsGapAndStop(f, due, s, g, stop, e)
  {
    hide SkipSpace, SpellSpaces, IsCutComment;
    var begun, rest;
    g, begun, rest := RefusedIsGap(f, s, log);
    stop, e := CutComment(begun), Error(UnspecificSyntaxError, rest);
  }

  /** After a gap something comes that is not due. */
  lemma GapStops(f: Flags, due: Due, s: Str, log: seq<Event>) returns (g: seq<Space>, stop: Stop, e: Error)
    requires SkipSpace(f, State(s, log)).Ok? && !Expects(due, Peek(SkipSpace(f, State(s, log)).state.rest))
    ensures IsGapAndStop(f, due, s, g, stop, e)
  {
    hide SkipSpace, SpellSpaces, StartsToken, IsLastLine, Expects, Missing;
    var rest := SkipSpace(f, State(s, log)).state.rest;
    var last;
    g, last := SkippedAreSpaces(f, s, log);
    stop, e := Unexpected(last), Error(Missing(due, Peek(rest)), rest);
  }

  lemma GapEndsAtToken(f: Flags, s: Str, log: seq<Event>)
    requires SkipSpace(f, State(s, log)).Ok?
    ensures StartsToken(f, SkipSpace(f, State(s, log)).state.rest)
  {
    hide SkipSpace, StartsToken;
    var g, last := SkippedAreSpaces(f, s, log);
  }

  // --- scalars ---

  lemma {:induction false} RefusedIsLetters(letters: Str, event: Event, st: State) returns (read: Str, rest: Str)
    requires Keyword(letters, event, st).Err? && NUL !in letters
    ensures read < letters && Peek(rest) != letters[|read|] && st.rest == read + rest
    decreases |letters|
  {
    assert letters[0] in letters;
    if Peek(st.rest) == letters[0] {
      var more;
      more, rest := RefusedIsLetters(letters[1..], event, st.Skip());
      read := [letters[0]] + more;
      assert letters == [letters[0]] + letters[1..];
      assert st.rest == [letters[0]] + st.rest[1..];
      Regroup3([letters[0]], more, rest);
    } else {
      read, rest := [], st.rest;
      assert [] + rest == rest;
    }
  }

  lemma RefusedIsWord(f: Flags, due: Due, st: State) returns (stop: Stop, e: Error)
    requires TakesValue(due) && Peek(st.rest) in {LETTER_N, LETTER_T, LETTER_F} && ParseValue(f, st).Err?
    ensures IsStop(f, due, stop, e) && st.rest == SpellStop(stop) + e.rest
  {
    hide Keyword;
    var c := Peek(st.rest);
    var event := if c == LETTER_N then NullEvent else BoolEvent(c == LETTER_T);
    var more, rest := RefusedIsLetters(OtherLetters(event), event, st.Skip());
    stop, e := CutWord(event, [c] + more), Error(ValueInvalid, rest);
    assert st.rest == [c] + st.rest[1..];
    Regroup3([c], more, rest);
  }

  lemma RefusedIsString(f: Flags, due: Due, isKey: bool, st: State) returns (stop: Stop, e: Error)
    requires (TakesValue(due) || due.DueName?) && Peek(st.rest) == QUOTE && ParseString(f, isKey, st).Err?
    ensures IsStop(f, due, stop, e) && st.rest == SpellStop(stop) + e.rest
  {
    hide IsBroken, IsString, IsPaired, SpellChars;
    var chars, rest := RefusedIsBroken(f, [], st.rest[1..]);
    stop, e := CutString(chars), Error(DecodeString(f, [], st.rest[1..]).code, rest);
    assert st.rest == [QUOTE] + st.rest[1..];
    Regroup3([QUOTE], SpellChars(chars), rest);
  }

  lemma RefusedIsNumber(f: Flags, due: Due, s: Str) returns (stop: Stop, e: Error)
    requires TakesValue(due) && Number.ParseNumber(f, s).NumberErr? && (Peek(s) == MINUS || IsDigit(Peek(s)))
    ensures IsStop(f, due, stop, e) && s == SpellStop(stop) + e.rest
  {
    hide Number.ParseNumber, IsCut, SpellCut, IsNumeral, IsTooBig, Ends, SpellNumeral;
    var p, rest, n := RefusedIs(f, s);
    if p.Some? {
      stop, e := CutDigits(p.value), Error(CutCode(p.value), rest);
    } else {
      stop, e := BigNumber(n, rest), Error(NumberTooBig, s);
      assert [] + s == s;
    }
  }

  lemma NothingStarts(f: Flags, due: Due, s: Str) returns (stop: Stop, e: Error)
    requires !Expects(due, Peek(s)) && StartsToken(f, s)
    ensures IsStop(f, due, stop, e) && s == SpellStop(stop) + e.rest
  {
    stop, e := Unexpected([]), Error(Missing(due, Peek(s)), s);
    assert [] + s == s;
  }

  /** A value that is neither array nor object stops where it is refused. */
  lemma RefusedIsScalar(f: Flags, due: Due, st: State) returns (stop: Stop, e: Error)
    requires TakesValue(due) && ParseValue(f, st).Err? && StartsToken(f, st.rest)
    requires Peek(st.rest) != LBRACE && Peek(st.rest) != LBRACKET
    requires due == DueElement(true) ==> Peek(st.rest) != RBRACKET
    ensures IsStop(f, due, stop, e) && st.rest == SpellStop(stop) + e.rest
  {
    hide Keyword, ParseString, Number.ParseNumber, IsStop, StartsToken;
    var c := Peek(st.rest);
    if c == LETTER_N || c == LETTER_T || c == LETTER_F {
      stop, e := RefusedIsWord(f, due, st);
    } else if c == QUOTE {
      stop, e := RefusedIsString(f, due, false, st);
    } else if c == MINUS || IsDigit(c) {
      stop, e := RefusedIsNumber(f, due, st.rest);
    } else {
      stop, e := NothingStarts(f, due, st.rest);
    }
  }

  // --- arrays ---

  lemma ElementsRegroup(j: Json, after: seq<Space>, gap: seq<Space>, more: PartElements, s: Str, end: Str, next: Str, rest: Str)
    requires s == SpellJson(j) + (SpellSpaces(after) + end) && end == [COMMA] + next
    requires next == SpellSpaces(gap) + (SpellPartElements(more) + rest)
    ensures s == SpellPartElements(LaterElement(j, after, gap, more)) + rest
  {
    hide *;
    LaterElementIsSpelled(j, after, gap, more, rest);
  }

  lemma StopRegroup(j: Json, after: seq<Space>, stop: Stop, s: Str, rest: Str)
    requires s == SpellJson(j) + (SpellSpaces(after) + (SpellStop(stop) + rest))
    ensures s == SpellJson(j) + (SpellSpaces(after) + SpellStop(stop)) + rest
  {
    hide *;
    Regroup3(SpellJson(j), SpellSpaces(after) + SpellStop(stop), rest);
    Regroup3(SpellSpaces(after), SpellStop(stop), rest);
  }

  lemma StopIsPart(f: Flags, due: Due, stop: Stop, e: Error)
    requires IsStop(f, due, stop, e)
    ensures IsPart(f, due, ValueStops(stop), e) && SpellPart(ValueStops(stop)) == SpellStop(stop)
  {
  }

  /** Elements up to a stop, and the gap before them. */
  ghost predicate AreElementsAfter(f: Flags, closes: bool, g: seq<Space>, p: PartElements, e: Error, s: Str) {
    AllSpacing(f, g) && ArePartElements(f, closes, p, e) && s == SpellSpaces(g) + (SpellPartElements(p) + e.rest)
  }

  lemma {:induction false} ElementsAfterGap(f: Flags, closes: bool, count: SizeType, s: Str, log: seq<Event>)
      returns (g: seq<Space>, p: PartElements, e: Error)
    requires var r := SkipSpace(f, State(s, log));
             r.Ok? ==> (closes ==> Peek(r.state.rest) != RBRACKET) && NextElement(f, count, r.state).Err?
    ensures AreElementsAfter(f, closes, g, p, e, s)
    decreases |s|, 4
  {
    hide SkipSpace, NextElement, SpellSpaces, AllSpacing, IsStop, SpellStop, StartsToken;
    var r := SkipSpace(f, State(s, log));
    var stop;
    if r.Err? {
      g, stop, e := RefusedGapStops(f, DueElement(closes), s, log);
      p := InElement(ValueStops(stop));
      StopIsPart(f, DueElement(closes), stop, e);
    } else if Peek(r.state.rest) == NUL {
      g, stop, e := GapStops(f, DueElement(closes), s, log);
      p := InElement(ValueStops(stop));
      StopIsPart(f, DueElement(closes), stop, e);
    } else {
      g := ReadIsGap(f, s, log);
      GapEndsAtToken(f, s, log);
      p, e := RefusedIsElements(f, closes, count, r.state);
    }
  }

  lemma {:induction false} RefusedIsElements(f: Flags, closes: bool, count: SizeType, st: State) returns (p: PartElements, e: Error)
    requires NextElement(f, count, st).Err? && StartsToken(f, st.rest) && (closes ==> Peek(st.rest) != RBRACKET)
    ensures ArePartElements(f, closes, p, e) && st.rest == SpellPartElements(p) + e.rest
    decreases |st.rest|, 3
  {
    hide ParseValue, ElementEnd, SkipSpace, SpellSpaces, SpellJson, AllSpacing, IsStop, SpellStop, StartsToken, IsPart, SpellPart, EndsJson,
      IsJson, IsAcceptable;
    if ParseValue(f, st).Err? {
      var value;
      value, e := RefusedIsPart(f, DueElement(closes), st);
      p := InElement(value);
    } else {
      var j := ReadIsJson(f, st);
      p, e := RefusedAfterElement(f, count, j, st, ParseValue(f, st).state);
    }
  }

  /** An element has been read and the array is refused later. */
  lemma {:induction false} RefusedAfterElement(f: Flags, count: SizeType, j: Json, st: State, end: State) returns (p: PartElements, e: Error)
    requires NextElement(f, count, st).Err? && ParseValue(f, st) == Ok(end) && |end.rest| < |st.rest|
    requires IsReadAs(f, j, st.rest, end.rest)
    ensures forall closes :: ArePartElements(f, closes, p, e)
    ensures st.rest == SpellPartElements(p) + e.rest
    decreases |end.rest|, 5
  {
    hide ParseValue, SkipSpace, SpellSpaces, SpellJson, AllSpacing, IsStop, SpellStop, StartsToken, IsPart, SpellPart, EndsJson,
      IsJson, IsAcceptable, ElementAfterComma, SpellPartElements;
    var r := SkipSpace(f, end);
    var after, stop;
    if r.Err? {
      after, stop, e := RefusedGapStops(f, DueCommaOrBracket, end.rest, end.log);
      p := PastElement(j, after, stop);
    } else if Peek(r.state.rest) != COMMA {
      after, stop, e := GapStops(f, DueCommaOrBracket, end.rest, end.log);
      p := PastElement(j, after, stop);
    } else {
      after := ReadIsGap(f, end.rest, end.log);
      var gap, more;
      gap, more, e := RefusedAfterComma(f, Increment(count), r.state);
      p := LaterElement(j, after, gap, more);
      assert r.state.rest == [COMMA] + r.state.rest[1..];
      ElementsRegroup(j, after, gap, more, st.rest, r.state.rest, r.state.rest[1..], e.rest);
      return;
    }
    StopRegroup(j, after, stop, st.rest, e.rest);
    PastElementIsSpelled(j, after, stop);
  }

  lemma PastElementIsSpelled(j: Json, after: seq<Space>, stop: Stop)
    ensures SpellPartElements(PastElement(j, after, stop)) == SpellJson(j) + (SpellSpaces(after) + SpellStop(stop))
  {
  }

  lemma {:induction false} RefusedAfterComma(f: Flags, count: SizeType, st: State) returns (g: seq<Space>, p: PartElements, e: Error)
    requires Peek(st.rest) == COMMA && ElementEnd(f, count, st).Err?
    ensures AreElementsAfter(f, f.trailingCommas, g, p, e, st.rest[1..])
    decreases |st.rest|, 0
  {
    hide SkipSpace, NextElement, AreElementsAfter;
    g, p, e := ElementsAfterGap(f, f.trailingCommas, count, st.rest[1..], st.log);
  }

  /** A value that is refused is the beginning of one, up to a stop. */
  lemma {:induction false} RefusedIsPart(f: Flags, due: Due, st: State) returns (p: Part, e: Error)
    requires TakesValue(due) && ParseValue(f, st).Err? && StartsToken(f, st.rest)
    requires due == DueElement(true) ==> Peek(st.rest) != RBRACKET
    ensures IsPart(f, due, p, e) && st.rest == SpellPart(p) + e.rest
    decreases |st.rest|, 1
  {
    hide ObjectBody, ArrayBody, Keyword, ParseString, Number.ParseNumber, IsStop, SpellStop, StartsToken, ArePartElements, ArePartMembers,
      SpellPartElements, SpellPartMembers, SpellSpaces, AllSpacing;
    var c := Peek(st.rest);
    var gap;
    if c == LBRACKET {
      var elements;
      gap, elements, e := RefusedIsArray(f, st);
      p := InArray(gap, elements);
      assert st.rest == [LBRACKET] + st.rest[1..];
      Regroup3(SpellSpaces(gap), SpellPartElements(elements), e.rest);
      Regroup3([LBRACKET], SpellSpaces(gap) + SpellPartElements(elements), e.rest);
    } else if c == LBRACE {
      var members;
      gap, members, e := RefusedIsObject(f, st);
      p := InObject(gap, members);
      assert st.rest == [LBRACE] + st.rest[1..];
      Regroup3(SpellSpaces(gap), SpellPartMembers(members), e.rest);
      Regroup3([LBRACE], SpellSpaces(gap) + SpellPartMembers(members), e.rest);
    } else {
      var stop;
      stop, e := RefusedIsScalar(f, due, st);
      p := ValueStops(stop);
    }
  }

  lemma {:induction false} RefusedIsArray(f: Flags, st: State) returns (g: seq<Space>, p: PartElements, e: Error)
    requires Peek(st.rest) == LBRACKET && ParseValue(f, st).Err?
    ensures AreElementsAfter(f, true, g, p, e, st.rest[1..])
    decreases |st.rest|, 0
  {
    hide SkipSpace, NextElement, AreElementsAfter;
    var inside := st.Skip().Emit(StartArrayEvent);
    assert inside == State(st.rest[1..], inside.log) && ParseValue(f, st) == ArrayBody(f, inside);
    g, p, e := ElementsAfterGap(f, true, 0, st.rest[1..], inside.log);
  }

  // --- objects ---

  ghost predicate AreNamesAfter(f: Flags, closes: bool, g: seq<Space>, p: PartMembers, e: Error, s: Str) {
    AllSpacing(f, g) && ArePartMembers(f, closes, p, e) && s == SpellSpaces(g) + (SpellPartMembers(p) + e.rest)
  }

  lemma {:induction false} RefusedIsObject(f: Flags, st: State) returns (g: seq<Space>, p: PartMembers, e: Error)
    requires Peek(st.rest) == LBRACE && ParseValue(f, st).Err?
    ensures AreNamesAfter(f, true, g, p, e, st.rest[1..])
    decreases |st.rest|, 0
  {
    hide SkipSpace, NextMember, AreNamesAfter;
    var inside := st.Skip().Emit(StartObjectEvent);
    assert inside == State(st.rest[1..], inside.log) && ParseValue(f, st) == ObjectBody(f, inside);
    g, p, e := NamesAfterGap(f, true, 0, st.rest[1..], inside.log);
  }

  lemma {:induction false} NamesAfterGap(f: Flags, closes: bool, count: SizeType, s: Str, log: seq<Event>)
      returns (g: seq<Space>, p: PartMembers, e: Error)
    requires var r := SkipSpace(f, State(s, log));
             r.Ok? ==> (closes ==> Peek(r.state.rest) != RBRACE) && NextMember(f, count, r.state).Err?
    ensures AreNamesAfter(f, closes, g, p, e, s)
    decreases |s|, 4
  {
    hide SkipSpace, NextMember, SpellSpaces, AllSpacing, IsStop, SpellStop, StartsToken;
    var r := SkipSpace(f, State(s, log));
    var stop;
    if r.Err? {
      g, stop, e := RefusedGapStops(f, DueName(closes), s, log);
      p := NameStops(stop);
    } else if Peek(r.state.rest) != QUOTE {
      g, stop, e := GapStops(f, DueName(closes), s, log);
      p := NameStops(stop);
    } else {
      g := ReadIsGap(f, s, log);
      p, e := RefusedIsNames(f, closes, count, r.state);
    }
  }

  lemma {:induction false} RefusedIsNames(f: Flags, closes: bool, count: SizeType, st: State) returns (p: PartMembers, e: Error)
    requires NextMember(f, count, st).Err? && Peek(st.rest) == QUOTE
    ensures ArePartMembers(f, closes, p, e) && st.rest == SpellPartMembers(p) + e.rest
    decreases |st.rest|, 3
  {
    hide ParseString, MemberColon, SkipSpace, SpellSpaces, SpellString, AllSpacing, IsStop, SpellStop, IsString, IsPaired;
    if ParseString(f, true, st).Err? {
      var stop;
      stop, e := RefusedIsString(f, DueName(closes), true, st);
      p := NameStops(stop);
    } else {
      var name := ReadIsQuoted(f, true, st);
      p, e := RefusedAfterName(f, count, name, st, ParseString(f, true, st).state);
    }
  }

  /** A name has been read and the object is refused later. */
  lemma {:induction false} RefusedAfterName(f: Flags, count: SizeType, name: seq<Char>, st: State, end: State) returns (p: PartMembers, e: Error)
    requires NextMember(f, count, st).Err? && Peek(st.rest) == QUOTE && ParseString(f, true, st) == Ok(end) && |end.rest| < |st.rest|
    requires IsName(f, name) && st.rest == SpellString(name) + end.rest
    ensures forall closes :: ArePartMembers(f, closes, p, e)
    ensures st.rest == SpellPartMembers(p) + e.rest
    decreases |end.rest|, 5
  {
    hide ParseString, MemberValue, SkipSpace, SpellSpaces, SpellString, AllSpacing, IsStop, SpellStop, IsString, IsPaired, SpellPartMember,
      IsPartMember;
    var r := SkipSpace(f, end);
    var before;
    if r.Ok? && Peek(r.state.rest) == COLON {
      before := ReadIsGap(f, end.rest, end.log);
      var gap, member;
      gap, member, e := MemberAfterGap(f, count, r.state.rest[1..], r.state.log);
      p := PastColon(name, before, gap, member);
      assert r.state.rest == [COLON] + r.state.rest[1..];
      PastColonIsSpelled(name, before, gap, member, e.rest);
    } else {
      var stop;
      if r.Err? {
        before, stop, e := RefusedGapStops(f, DueColon, end.rest, end.log);
      } else {
        before, stop, e := GapStops(f, DueColon, end.rest, end.log);
      }
      p := ColonStops(name, before, stop);
      Regroup3(SpellSpaces(before), SpellStop(stop), e.rest);
      Regroup3(SpellString(name), SpellSpaces(before) + SpellStop(stop), e.rest);
    }
  }

  ghost predicate IsMemberAfter(f: Flags, g: seq<Space>, p: PartMember, e: Error, s: Str) {
    AllSpacing(f, g) && IsPartMember(f, p, e) && s == SpellSpaces(g) + (SpellPartMember(p) + e.rest)
  }

  lemma {:induction false} MemberAfterGap(f: Flags, count: SizeType, s: Str, log: seq<Event>) returns (g: seq<Space>, p: PartMember, e: Error)
    requires var r := SkipSpace(f, State(s, log));
             r.Ok? ==> MemberValue(f, count, r.state).Err?
    ensures IsMemberAfter(f, g, p, e, s)
    decreases |s|, 4
  {
    hide SkipSpace, MemberValue, SpellSpaces, AllSpacing, IsStop, SpellStop, StartsToken;
    var r := SkipSpace(f, State(s, log));
    var stop;
    if r.Err? {
      g, stop, e := RefusedGapStops(f, DueValue, s, log);
      p := InMember(ValueStops(stop));
      StopIsPart(f, DueValue, stop, e);
    } else if Peek(r.state.rest) == NUL {
      g, stop, e := GapStops(f, DueValue, s, log);
      p := InMember(ValueStops(stop));
      StopIsPart(f, DueValue, stop, e);
    } else {
      g := ReadIsGap(f, s, log);
      GapEndsAtToken(f, s, log);
      p, e := RefusedIsMember(f, count, r.state);
    }
  }

  lemma {:induction false} RefusedIsMember(f: Flags, count: SizeType, st: State) returns (p: PartMember, e: Error)
    requires MemberValue(f, count, st).Err? && StartsToken(f, st.rest)
    ensures IsPartMember(f, p, e) && st.rest == SpellPartMember(p) + e.rest
    decreases |st.rest|, 3
  {
    hide ParseValue, MemberEnd, SkipSpace, SpellSpaces, SpellJson, AllSpacing, IsStop, SpellStop, StartsToken, IsPart, SpellPart, EndsJson,
      IsJson, IsAcceptable;
    if ParseValue(f, st).Err? {
      var value;
      value, e := RefusedIsPart(f, DueValue, st);
      p := InMember(value);
    } else {
      var j := ReadIsJson(f, st);
      p, e := RefusedAfterMember(f, count, j, st, ParseValue(f, st).state);
    }
  }

  /** The value of a member has been read and the object is refused later. */
  lemma {:induction false} RefusedAfterMember(f: Flags, count: SizeType, j: Json, st: State, end: State) returns (p: PartMember, e: Error)
    requires MemberValue(f, count, st).Err? && ParseValue(f, st) == Ok(end) && |end.rest| < |st.rest|
    requires IsReadAs(f, j, st.rest, end.rest)
    ensures IsPartMember(f, p, e) && st.rest == SpellPartMember(p) + e.rest
    decreases |end.rest|, 5
  {
    hide ParseValue, SkipSpace, SpellSpaces, SpellJson, AllSpacing, IsStop, SpellStop, StartsToken, IsPart, SpellPart, EndsJson,
      IsJson, IsAcceptable, MemberAfterComma, SpellPartMember;
    var r := SkipSpace(f, end);
    var after, stop;
    if r.Err? {
      after, stop, e := RefusedGapStops(f, DueCommaOrBrace, end.rest, end.log);
      p := PastMember(j, after, stop);
    } else if Peek(r.state.rest) != COMMA {
      after, stop, e := GapStops(f, DueCommaOrBrace, end.rest, end.log);
      p := PastMember(j, after, stop);
    } else {
      after := ReadIsGap(f, end.rest, end.log);
      var gap, more;
      gap, more, e := RefusedAfterMemberComma(f, Increment(count), r.state);
      p := LaterMember(j, after, gap, more);
      assert r.state.rest == [COMMA] + r.state.rest[1..];
      MembersRegroup(j, after, gap, more, st.rest, r.state.rest, r.state.rest[1..], e.rest);
      return;
    }
    StopRegroup(j, after, stop, st.rest, e.rest);
    PastMemberIsSpelled(j, after, stop);
  }

  lemma MembersRegroup(j: Json, after: seq<Space>, gap: seq<Space>, more: PartMembers, s: Str, end: Str, next: Str, rest: Str)
    requires s == SpellJson(j) + (SpellSpaces(after) + end) && end == [COMMA] + next
    requires next == SpellSpaces(gap) + (SpellPartMembers(more) + rest)
    ensures s == SpellPartMember(LaterMember(j, after, gap, more)) + rest
  {
    hide *;
    LaterMemberIsSpelled(j, after, gap, more, rest);
  }

  lemma PastMemberIsSpelled(j: Json, after: seq<Space>, stop: Stop)
    ensures SpellPartMember(PastMember(j, after, stop)) == SpellJson(j) + (SpellSpaces(after) + SpellStop(stop))
  {
  }

  lemma {:induction false} RefusedAfterMemberComma(f: Flags, count: SizeType, st: State) returns (g: seq<Space>, p: PartMembers, e: Error)
    requires Peek(st.rest) == COMMA && MemberEnd(f, count, st).Err?
    ensures AreNamesAfter(f, f.trailingCommas, g, p, e, st.rest[1..])
    decreases |st.rest|, 0
  {
    hide SkipSpace, NextMember, AreNamesAfter;
    g, p, e := NamesAfterGap(f, f.trailingCommas, count, st.rest[1..], st.log);
  }

  // --- texts ---

  /** Every text that is refused begins like this. */
  lemma RefusedIsPartText(f: Flags, text: Str) returns (d: PartText, e: Error)
    requires ParseText(f, text).Err?
    ensures IsPartText(f, d, e) && text == SpellPartText(d) + e.rest
  {
    hide ParseValue, SkipSpace, SpellSpaces, AllSpacing, IsStop, SpellStop, StartsToken, SpellJson, IsJson, IsAcceptable, EndsJson, IsPart,
      SpellPart;
    var r := SkipSpace(f, State(text, []));
    var gap, value, stop;
    if r.Err? {
      gap, stop, e := RefusedGapStops(f, DueRoot, text, []);
      value := ValueStops(stop);
      StopIsPart(f, DueRoot, stop, e);
    } else if Peek(r.state.rest) == NUL {
      gap, stop, e := GapStops(f, DueRoot, text, []);
      value := ValueStops(stop);
      StopIsPart(f, DueRoot, stop, e);
    } else {
      gap := ReadIsGap(f, text, []);
      if ParseValue(f, r.state).Err? {
        GapEndsAtToken(f, text, []);
        value, e := RefusedIsPart(f, DueRoot, r.state);
      } else {
        var root := ReadIsJson(f, r.state);
        var after;
        after, stop, e := RefusedAtEnd(f, ParseValue(f, r.state).state);
        d := PastRoot(gap, root, after, stop);
        StopRegroup(root, after, stop, r.state.rest, e.rest);
        Regroup3(SpellSpaces(gap), SpellJson(root) + (SpellSpaces(after) + SpellStop(stop)), e.rest);
        return;
      }
    }
    d := InRoot(gap, value);
    Regroup3(SpellSpaces(gap), SpellPart(value), e.rest);
  }

  lemma RefusedAtEnd(f: Flags, end: State) returns (after: seq<Space>, stop: Stop, e: Error)
    requires AfterRoot(f, end).Err?
    ensures !f.stopWhenDone && IsGapAndStop(f, DueEnd, end.rest, after, stop, e)
  {
    hide SkipSpace, SpellSpaces, AllSpacing, IsStop, SpellStop;
    if SkipSpace(f, end).Err? {
      after, stop, e := RefusedGapStops(f, DueEnd, end.rest, end.log);
    } else {
      after, stop, e := GapStops(f, DueEnd, end.rest, end.log);
    }
  }

  /** Reading the text comes to this stop. */
  ghost predicate StopsAt(f: Flags, text: Str, d: PartText, e: Error) {
    IsPartText(f, d, e) && text == SpellPartText(d) + e.rest
  }

  /** The root is a bracket, a comma or a colon out of place. */
  predicate IsStrayRoot(d: PartText, e: Error) {
    d.InRoot? && d.value.ValueStops? && d.value.stop.Unexpected? && Peek(e.rest) in {RBRACKET, RBRACE, COMMA, COLON}
  }

  lemma StrayRootIs(f: Flags, d: PartText, e: Error)
    requires IsPartText(f, d, e)
    ensures Iterative.HasStrayRoot(f, SpellPartText(d) + e.rest) <==> IsStrayRoot(d, e)
  {
    hide SkipSpace, SpellSpaces, AllSpacing, IsStop, SpellStop, StartsToken, SpellJson, IsJson, IsAcceptable, EndsJson, SpellPartElements,
      SpellPartMembers, Seen, ArePartElements, ArePartMembers;
    match d
    case InRoot(gap, value) =>
      Regroup3(SpellSpaces(gap), SpellPart(value), e.rest);
      PartIsReached(f, DueRoot, gap, value, e, []);
      if value.ValueStops? && !value.stop.CutComment? {
        SeenIsStray(f, value.stop, e);
      }
    case PastRoot(gap, root, after, stop) =>
      JsonBegins(f, root, SpellSpaces(after) + SpellStop(stop), e.rest);
      Regroup3(SpellSpaces(gap), SpellJson(root) + (SpellSpaces(after) + SpellStop(stop)), e.rest);
      GapIsSkipped(f, gap, SpellJson(root) + (SpellSpaces(after) + SpellStop(stop)) + e.rest, []);
      JsonStarts(f, root, SpellSpaces(after) + SpellStop(stop) + e.rest);
  }

  lemma SeenIsStray(f: Flags, stop: Stop, e: Error)
    requires IsStop(f, DueRoot, stop, e) && !stop.CutComment?
    ensures Peek(Seen(stop, e.rest)) in {RBRACKET, RBRACE, COMMA, COLON} <==> stop.Unexpected? && Peek(e.rest) in {RBRACKET, RBRACE, COMMA, COLON}
  {
    if !stop.Unexpected? {
      TokenStarts(f, DueRoot, stop, e);
    }
  }

  /** The error code of the table-driven parser. */
  function IterativeCode(d: PartText, e: Error): ErrorCode {
    if IsStrayRoot(d, e) then DocumentEmpty else e.code
  }

  /**
   * A text is refused with an error, at a place and after some events, if and only if it begins with what the grammar
   * allows, up to that place, what comes there is not what is due, the error is the one for what is due, and the events
   * are those of what has been read. The table-driven parser differs only in the error for a stray root.
   */
  lemma RefusedIff(f: Flags, text: Str, code: ErrorCode, at: nat, log: seq<Event>)
    ensures ParseText(f, text) == Err(code, at, log)
       <==> exists d, e :: StopsAt(f, text, d, e) && code == e.code && at == |e.rest| && log == PartTextEvents(f, d, e)
    ensures Iterative.IterativeParse(f, text) == Err(code, at, log)
       <==> exists d, e :: StopsAt(f, text, d, e) && code == IterativeCode(d, e) && at == |e.rest| && log == PartTextEvents(f, d, e)
  {
    hide ParseText, Iterative.IterativeParse, PartTextEvents, IsPartText, SpellPartText, IterativeCode;
    Iterative.IterativeRefinesRecursive(f, text);
    if ParseText(f, text).Err? {
      var d, e := RefusedIsPartText(f, text);
      StopGives(f, text, d, e);
      assert StopsAt(f, text, d, e);
    }
    forall d, e | StopsAt(f, text, d, e)
      ensures ParseText(f, text) == Err(e.code, |e.rest|, PartTextEvents(f, d, e))
      ensures Iterative.IterativeParse(f, text) == Err(IterativeCode(d, e), |e.rest|, PartTextEvents(f, d, e))
    {
      StopGives(f, text, d, e);
    }
  }

  lemma StopGives(f: Flags, text: Str, d: PartText, e: Error)
    requires StopsAt(f, text, d, e)
    ensures ParseText(f, text) == Err(e.code, |e.rest|, PartTextEvents(f, d, e))
    ensures Iterative.IterativeParse(f, text) == Err(IterativeCode(d, e), |e.rest|, PartTextEvents(f, d, e))
  {
    hide ParseText, Iterative.IterativeParse, PartTextEvents, IsPartText, SpellPartText, Iterative.HasStrayRoot, IsStrayRoot;
    PartTextIsRefused(f, d, e);
    StrayRootIs(f, d, e);
    Iterative.IterativeRefinesRecursive(f, text);
  }
}
