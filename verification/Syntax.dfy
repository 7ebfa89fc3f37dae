/**
 * The JSON grammar of RFC 8259, with the extensions the parse flags allow, as a data type of spelled-out texts. The
 * parser of include/rapidjson/reader.h accepts nothing else, and of these it accepts exactly those without a number
 * that is too big and without a surrogate that has no partner; for each it raises the events it means.
 */
module Syntax {
  import opened Text
  import opened ParseTypes
  import opened StringCodec
  import Number
  import opened NumberGrammar
  import opened NumberMeaning
  import opened StringGrammar
  import opened SpaceGrammar
  import opened Grammar
  import Iterative

  // ---------------------------------------------------------------------------------------------
  // The grammar
  // ---------------------------------------------------------------------------------------------

  /** A value as it is spelled: what its leaves are spelled with, and the white space between its tokens. */
  datatype Json =
    | Word(event: Event)
    | Numeric(numeral: Numeral)
    | Quoted(chars: seq<Char>)
    | EmptyArray(gap: seq<Space>)
    | Array(gap: seq<Space>, elements: Elements)
    | EmptyObject(gap: seq<Space>)
    | Object(gap: seq<Space>, members: Members)

  /** An element, and what comes after it up to the closing bracket. */
  datatype Elements = Elements(value: Json, after: seq<Space>, more: MoreElements)

  /** The end of an array, perhaps after one more comma, or a comma and further elements. */
  datatype MoreElements =
    | NoElement(comma: Option<seq<Space>>)
    | NextElements(gap: seq<Space>, next: Elements)

  datatype Members = Members(name: seq<Char>, beforeColon: seq<Space>, afterColon: seq<Space>,
                             value: Json, after: seq<Space>, more: MoreMembers)

  datatype MoreMembers =
    | NoMember(comma: Option<seq<Space>>)
    | NextMembers(gap: seq<Space>, next: Members)

  predicate IsTrailing(f: Flags, comma: Option<seq<Space>>) {
    comma.Some? ==> f.trailingCommas && AllSpacing(f, comma.value)
  }

  predicate IsJson(f: Flags, j: Json)
    decreases j
  {
    match j
    case Word(event) => event.NullEvent? || event.BoolEvent?
    case Numeric(n) => IsNumeral(n)
    case Quoted(chars) => IsString(f, chars)
    case EmptyArray(gap) => AllSpacing(f, gap)
    case Array(gap, elements) => AllSpacing(f, gap) && IsElements(f, elements)
    case EmptyObject(gap) => AllSpacing(f, gap)
    case Object(gap, members) => AllSpacing(f, gap) && IsMembers(f, members)
  }

  predicate IsElements(f: Flags, e: Elements)
    decreases e
  {
    IsJson(f, e.value) && AllSpacing(f, e.after) && AreMoreElements(f, e.more)
  }

  predicate AreMoreElements(f: Flags, m: MoreElements)
    decreases m
  {
    match m
    case NoElement(comma) => IsTrailing(f, comma)
    case NextElements(gap, next) => AllSpacing(f, gap) && IsElements(f, next)
  }

  predicate IsMembers(f: Flags, m: Members)
    decreases m
  {
    && IsString(f, m.name) && AllSpacing(f, m.beforeColon) && AllSpacing(f, m.afterColon)
    && IsJson(f, m.value) && AllSpacing(f, m.after) && AreMoreMembers(f, m.more)
  }

  predicate AreMoreMembers(f: Flags, m: MoreMembers)
    decreases m
  {
    match m
    case NoMember(comma) => IsTrailing(f, comma)
    case NextMembers(gap, next) => AllSpacing(f, gap) && IsMembers(f, next)
  }

  // --- what the reader sets apart ---

  /** No number is too big and every escaped surrogate is half of a pair. */
  predicate IsAcceptable(f: Flags, j: Json)
    requires IsJson(f, j)
    decreases j
  {
    match j
    case Numeric(n) => !IsTooBig(f, n)
    case Quoted(chars) => IsPaired(f, chars)
    case Array(_, elements) => AcceptableElements(f, elements)
    case Object(_, members) => AcceptableMembers(f, members)
    case _ => true
  }

  predicate AcceptableElements(f: Flags, e: Elements)
    requires IsElements(f, e)
    decreases e
  {
    IsAcceptable(f, e.value) && AcceptableMoreElements(f, e.more)
  }

  predicate AcceptableMoreElements(f: Flags, m: MoreElements)
    requires AreMoreElements(f, m)
    decreases m
  {
    match m
    case NoElement(_) => true
    case NextElements(_, next) => AcceptableElements(f, next)
  }

  predicate AcceptableMembers(f: Flags, m: Members)
    requires IsMembers(f, m)
    decreases m
  {
    IsPaired(f, m.name) && IsAcceptable(f, m.value) && AcceptableMoreMembers(f, m.more)
  }

  predicate AcceptableMoreMembers(f: Flags, m: MoreMembers)
    requires AreMoreMembers(f, m)
    decreases m
  {
    match m
    case NoMember(_) => true
    case NextMembers(_, next) => AcceptableMembers(f, next)
  }

  // --- spelling ---

  function FirstLetter(e: Event): Ch {
    if e.NullEvent? then LETTER_N else if e == BoolEvent(true) then LETTER_T else LETTER_F
  }

  function OtherLetters(e: Event): Str {
    if e.NullEvent? then NULL_TAIL else if e == BoolEvent(true) then TRUE_TAIL else FALSE_TAIL
  }

  function SpellString(cs: seq<Char>): Str {
    [QUOTE] + (SpellChars(cs) + [QUOTE])
  }

  function SpellJson(j: Json): Str {
    match j
    case Word(event) => [FirstLetter(event)] + OtherLetters(event)
    case Numeric(n) => SpellNumeral(n)
    case Quoted(chars) => SpellString(chars)
    case EmptyArray(gap) => [LBRACKET] + (SpellSpaces(gap) + [RBRACKET])
    case Array(gap, elements) => [LBRACKET] + (SpellSpaces(gap) + SpellElements(elements))
    case EmptyObject(gap) => [LBRACE] + (SpellSpaces(gap) + [RBRACE])
    case Object(gap, members) => [LBRACE] + (SpellSpaces(gap) + SpellMembers(members))
  }

  function SpellElements(e: Elements): Str {
    SpellJson(e.value) + (SpellSpaces(e.after) + SpellMoreElements(e.more))
  }

  function SpellTrailing(comma: Option<seq<Space>>): Str {
    if comma.None? then [] else [COMMA] + SpellSpaces(comma.value)
  }

  function SpellMoreElements(m: MoreElements): Str {
    match m
    case NoElement(comma) => SpellTrailing(comma) + [RBRACKET]
    case NextElements(gap, next) => [COMMA] + (SpellSpaces(gap) + SpellElements(next))
  }

  function SpellMembers(m: Members): Str
    decreases m, 1
  {
    SpellString(m.name) + (SpellSpaces(m.beforeColon) + ([COLON] + (SpellSpaces(m.afterColon) + SpellFromValue(m))))
  }

  function SpellFromValue(m: Members): Str
    decreases m, 0
  {
    SpellJson(m.value) + (SpellSpaces(m.after) + SpellMoreMembers(m.more))
  }

  function SpellMoreMembers(m: MoreMembers): Str {
    match m
    case NoMember(comma) => SpellTrailing(comma) + [RBRACE]
    case NextMembers(gap, next) => [COMMA] + (SpellSpaces(gap) + SpellMembers(next))
  }

  // --- spelling without white space ---

  /** The value with no white space between its tokens. */
  function Bare(j: Json): Json {
    match j
    case EmptyArray(_) => EmptyArray([])
    case Array(_, elements) => Array([], BareElements(elements))
    case EmptyObject(_) => EmptyObject([])
    case Object(_, members) => Object([], BareMembers(members))
    case _ => j
  }

  function BareElements(e: Elements): Elements {
    Elements(Bare(e.value), [], BareMoreElements(e.more))
  }

  function BareMoreElements(m: MoreElements): MoreElements {
    match m
    case NoElement(comma) => NoElement(if comma.None? then None else Some([]))
    case NextElements(_, next) => NextElements([], BareElements(next))
  }

  function BareMembers(m: Members): Members {
    Members(m.name, [], [], Bare(m.value), [], BareMoreMembers(m.more))
  }

  function BareMoreMembers(m: MoreMembers): MoreMembers {
    match m
    case NoMember(comma) => NoMember(if comma.None? then None else Some([]))
    case NextMembers(_, next) => NextMembers([], BareMembers(next))
  }

  // --- meaning ---

  /** The events a value means. */
  function EventsOf(f: Flags, j: Json): seq<Event>
    requires IsJson(f, j)
    decreases j
  {
    match j
    case Word(event) => [event]
    case Numeric(n) => [NumeralEvent(f, n)]
    case Quoted(chars) => [StringEvent(Meanings(f, chars))]
    case EmptyArray(_) => [StartArrayEvent, EndArrayEvent(0)]
    case Array(_, elements) => [StartArrayEvent] + ElementEvents(f, 0, elements)
    case EmptyObject(_) => [StartObjectEvent, EndObjectEvent(0)]
    case Object(_, members) => [StartObjectEvent] + MemberEvents(f, 0, members)
  }

  /** `count` elements come before these. */
  function ElementEvents(f: Flags, count: SizeType, e: Elements): seq<Event>
    requires IsElements(f, e)
    decreases e
  {
    EventsOf(f, e.value) + MoreElementEvents(f, Increment(count), e.more)
  }

  function MoreElementEvents(f: Flags, count: SizeType, m: MoreElements): seq<Event>
    requires AreMoreElements(f, m)
    decreases m
  {
    match m
    case NoElement(_) => [EndArrayEvent(count)]
    case NextElements(_, next) => ElementEvents(f, count, next)
  }

  function MemberEvents(f: Flags, count: SizeType, m: Members): seq<Event>
    requires IsMembers(f, m)
    decreases m
  {
    [KeyEvent(Meanings(f, m.name))] + (EventsOf(f, m.value) + MoreMemberEvents(f, Increment(count), m.more))
  }

  function MoreMemberEvents(f: Flags, count: SizeType, m: MoreMembers): seq<Event>
    requires AreMoreMembers(f, m)
    decreases m
  {
    match m
    case NoMember(_) => [EndObjectEvent(count)]
    case NextMembers(_, next) => MemberEvents(f, count, next)
  }

  /** What follows does not carry the value on; only a number can be. */
  predicate EndsJson(j: Json, post: Str) {
    j.Numeric? ==> Ends(j.numeral, post)
  }

  // ---------------------------------------------------------------------------------------------
  // What is spelled is read
  // ---------------------------------------------------------------------------------------------

  /** The first unit of a value. */
  predicate StartsValue(c: Ch) {
    c in {LETTER_N, LETTER_T, LETTER_F, QUOTE, LBRACE, LBRACKET, MINUS} || IsDigit(c)
  }

  lemma JsonStarts(f: Flags, j: Json, post: Str)
    requires IsJson(f, j)
    ensures SpellJson(j) != [] && StartsValue(SpellJson(j)[0])
    ensures var s := SpellJson(j) + post;
            s[0] == SpellJson(j)[0] && StartsToken(f, s) && Peek(s) !in {RBRACKET, RBRACE, NUL}
  {
    if j.Numeric? {
      var n := j.numeral;
      assert SpellNumeral(n)[0] == Number.Literal(n.minus, n.whole)[0];
    }
  }

  lemma {:induction false} KeywordIsTaken(letters: Str, e: Event, post: Str, log: seq<Event>)
    requires NUL !in letters
    ensures Keyword(letters, e, State(letters + post, log)) == Ok(State(post, log + [e]))
    decreases |letters|
  {
    var s := letters + post;
    if letters == [] {
      assert s == post;
    } else {
      assert letters[0] in letters;
      assert s[0] == letters[0] && s[1..] == letters[1..] + post;
      KeywordIsTaken(letters[1..], e, post, log);
    }
  }

  lemma WordIsRead(f: Flags, e: Event, post: Str, log: seq<Event>)
    requires e.NullEvent? || e.BoolEvent?
    ensures ParseValue(f, State(SpellJson(Word(e)) + post, log)) == Ok(State(post, log + [e]))
  {
    var s := SpellJson(Word(e)) + post;
    assert s[0] == FirstLetter(e) && s[1..] == OtherLetters(e) + post;
    KeywordIsTaken(OtherLetters(e), e, post, log);
  }

  /** An outcome: that of accepting with these events, or an error. */
  predicate Comes(r: Outcome, ok: bool, post: Str, log: seq<Event>) {
    if ok then r == Ok(State(post, log)) else r.Err?
  }

  lemma StringIsRead(f: Flags, isKey: bool, cs: seq<Char>, post: Str, log: seq<Event>)
    requires IsString(f, cs)
    ensures Peek(SpellString(cs) + post) == QUOTE
    ensures Comes(ParseString(f, isKey, State(SpellString(cs) + post, log)), IsPaired(f, cs),
                  post, log + [if isKey then KeyEvent(Meanings(f, cs)) else StringEvent(Meanings(f, cs))])
  {
    var s := SpellString(cs) + post;
    Regroup3([QUOTE], SpellChars(cs) + [QUOTE], post);
    Regroup3(SpellChars(cs), [QUOTE], post);
    assert s[1..] == SpellChars(cs) + ([QUOTE] + post);
    CharsAreRead(f, cs, [], post);
    assert [] + Meanings(f, cs) == Meanings(f, cs);
  }

  lemma QuotedIsRead(f: Flags, cs: seq<Char>, post: Str, log: seq<Event>)
    requires IsString(f, cs)
    ensures Comes(ParseValue(f, State(SpellString(cs) + post, log)), IsPaired(f, cs), post, log + [StringEvent(Meanings(f, cs))])
  {
    hide ParseString, SpellString;
    StringIsRead(f, false, cs, post, log);
  }

  lemma NumericIsRead(f: Flags, n: Numeral, post: Str, log: seq<Event>)
    requires IsNumeral(n) && Ends(n, post)
    ensures Comes(ParseValue(f, State(SpellNumeral(n) + post, log)), !IsTooBig(f, n), post, log + [NumeralEvent(f, n)])
  {
    hide Number.ParseNumber, IsNumeral, Ends, IsTooBig, NumeralEvent;
    NumeralIsRead(f, n, post);
    JsonStarts(f, Numeric(n), post);
    NumericStarts(n, post);
  }

  lemma NumericStarts(n: Numeral, post: Str)
    requires IsNumeral(n)
    ensures var s := SpellNumeral(n) + post;
            Peek(s) == MINUS || IsDigit(Peek(s))
  {
    assert (SpellNumeral(n) + post)[0] == Number.Literal(n.minus, n.whole)[0];
  }

  /** Past a gap, up to a token. */
  lemma GapIsSkipped(f: Flags, g: seq<Space>, s: Str, log: seq<Event>)
    requires AllSpacing(f, g) && StartsToken(f, s)
    ensures SkipSpace(f, State(SpellSpaces(g) + s, log)) == Ok(State(s, log))
  {
    hide *;
    SpacesAreSkipped(f, g, s, log);
    TokenIsKept(f, s, log);
  }

  /** What may come after a value inside an array or object carries no number on. */
  lemma GapEnds(f: Flags, j: Json, g: seq<Space>, s: Str)
    requires AllSpacing(f, g) && Peek(s) in {COMMA, RBRACKET, RBRACE, NUL}
    ensures EndsJson(j, SpellSpaces(g) + s)
  {
    if g != [] {
      assert IsSpacing(f, g[0]);
      assert (SpellSpaces(g) + s)[0] == SpellSpace(g[0])[0];
    } else {
      assert SpellSpaces(g) + s == s;
    }
  }

  // --- arrays ---

  lemma EmptyArrayIsRead(f: Flags, gap: seq<Space>, post: Str, log: seq<Event>)
    requires AllSpacing(f, gap)
    ensures ParseValue(f, State(SpellJson(EmptyArray(gap)) + post, log)) == Ok(State(post, log + [StartArrayEvent, EndArrayEvent(0)]))
  {
    hide AllSpacing, SpellSpaces, SkipSpace, NextElement;
    var s, close, inside := SpellJson(EmptyArray(gap)) + post, [RBRACKET] + post, log + [StartArrayEvent];
    Regroup3([LBRACKET], SpellSpaces(gap) + [RBRACKET], post);
    Regroup3(SpellSpaces(gap), [RBRACKET], post);
    assert s[1..] == SpellSpaces(gap) + close;
    GapIsSkipped(f, gap, close, inside);
    assert ArrayBody(f, State(s[1..], inside)) == ArrayFirst(f, State(close, inside));
    assert close[1..] == post;
    assert inside + [EndArrayEvent(0)] == log + [StartArrayEvent, EndArrayEvent(0)];
  }

  /** The opening of an array that is not empty. */
  lemma ArrayOpens(f: Flags, gap: seq<Space>, first: Str, log: seq<Event>)
    requires AllSpacing(f, gap) && StartsToken(f, first) && Peek(first) != RBRACKET
    ensures ParseValue(f, State([LBRACKET] + (SpellSpaces(gap) + first), log)) == NextElement(f, 0, State(first, log + [StartArrayEvent]))
  {
    hide AllSpacing, SpellSpaces, SkipSpace, StartsToken, NextElement;
    var s, inside := [LBRACKET] + (SpellSpaces(gap) + first), log + [StartArrayEvent];
    assert s[1..] == SpellSpaces(gap) + first;
    GapIsSkipped(f, gap, first, inside);
    assert ArrayBody(f, State(s[1..], inside)) == ArrayFirst(f, State(first, inside));
  }

  lemma ArrayStarts(f: Flags, gap: seq<Space>, e: Elements, post: Str, log: seq<Event>)
    requires AllSpacing(f, gap) && StartsToken(f, SpellElements(e) + post) && Peek(SpellElements(e) + post) != RBRACKET
    ensures ParseValue(f, State(SpellJson(Array(gap, e)) + post, log))
         == NextElement(f, 0, State(SpellElements(e) + post, log + [StartArrayEvent]))
  {
    hide AllSpacing, SpellSpaces, ParseValue, NextElement, SpellElements, StartsToken;
    Regroup3([LBRACKET], SpellSpaces(gap) + SpellElements(e), post);
    Regroup3(SpellSpaces(gap), SpellElements(e), post);
    ArrayOpens(f, gap, SpellElements(e) + post, log);
  }

  lemma ElementStarts(f: Flags, e: Elements, post: Str)
    requires IsElements(f, e)
    ensures StartsToken(f, SpellElements(e) + post) && Peek(SpellElements(e) + post) != RBRACKET
  {
    hide StartsToken, SpellJson, SpellSpaces, SpellMoreElements;
    var tail := SpellSpaces(e.after) + SpellMoreElements(e.more);
    Regroup3(SpellJson(e.value), tail, post);
    JsonStarts(f, e.value, tail + post);
  }

  /** What comes after an element, and that it ends the element. */
  lemma AfterElement(f: Flags, e: Elements, post: Str)
    requires IsElements(f, e)
    ensures var more := SpellMoreElements(e.more) + post;
            && SpellElements(e) + post == SpellJson(e.value) + (SpellSpaces(e.after) + more)
            && EndsJson(e.value, SpellSpaces(e.after) + more)
            && StartsToken(f, more) && Peek(more) in {COMMA, RBRACKET}
  {
    hide SpellJson, SpellSpaces;
    var more := SpellMoreElements(e.more) + post;
    Regroup3(SpellJson(e.value), SpellSpaces(e.after) + SpellMoreElements(e.more), post);
    Regroup3(SpellSpaces(e.after), SpellMoreElements(e.more), post);
    assert Peek(more) == SpellMoreElements(e.more)[0];
    GapEnds(f, e.value, e.after, more);
  }

  lemma ElementIsRead(f: Flags, count: SizeType, st: State, end: State, gap: seq<Space>, more: Str)
    requires ParseValue(f, st) == Ok(end) && end.rest == SpellSpaces(gap) + more && AllSpacing(f, gap) && StartsToken(f, more)
    ensures NextElement(f, count, st) == ElementEnd(f, Increment(count), State(more, end.log))
  {
    hide ParseValue, ElementEnd, SkipSpace, SpellSpaces, AllSpacing, StartsToken;
    GapIsSkipped(f, gap, more, end.log);
  }

  /** An element that is refused ends the array's reading. */
  lemma ElementIsRefused(f: Flags, count: SizeType, st: State)
    requires ParseValue(f, st).Err?
    ensures NextElement(f, count, st).Err?
  {
  }

  /** What is known of an element and of what comes after it. */
  lemma ElementsInParts(f: Flags, count: SizeType, e: Elements)
    requires IsElements(f, e)
    ensures IsJson(f, e.value) && AllSpacing(f, e.after) && AreMoreElements(f, e.more)
    ensures ElementEvents(f, count, e) == EventsOf(f, e.value) + MoreElementEvents(f, Increment(count), e.more)
    ensures AcceptableElements(f, e) <==> IsAcceptable(f, e.value) && AcceptableMoreElements(f, e.more)
  {
  }

  /** The elements that are spelled are read, if they are acceptable, and the array ends with its count. */
  lemma {:induction false} ElementsAreRead(f: Flags, count: SizeType, e: Elements, post: Str, log: seq<Event>)
    requires IsElements(f, e)
    ensures Comes(NextElement(f, count, State(SpellElements(e) + post, log)), AcceptableElements(f, e),
                  post, log + ElementEvents(f, count, e))
    decreases e
  {
    AfterElement(f, e, post);
    ElementsInParts(f, count, e);
    hide *;
    var events := EventsOf(f, e.value);
    var more := SpellMoreElements(e.more) + post;
    var st := State(SpellElements(e) + post, log);
    JsonIsRead(f, e.value, SpellSpaces(e.after) + more, log);
    OutcomeIs(ParseValue(f, st), IsAcceptable(f, e.value), SpellSpaces(e.after) + more, log + events);
    if IsAcceptable(f, e.value) {
      MoreElementsAreRead(f, Increment(count), e.more, post, log + events);
      ElementIsRead(f, count, st, State(SpellSpaces(e.after) + more, log + events), e.after, more);
      Regroup3(log, events, MoreElementEvents(f, Increment(count), e.more));
    } else {
      ElementIsRefused(f, count, st);
      ErrorComes(NextElement(f, count, st), post, log + ElementEvents(f, count, e));
    }
  }

  lemma OutcomeIs(r: Outcome, ok: bool, post: Str, log: seq<Event>)
    requires Comes(r, ok, post, log)
    ensures if ok then r == Ok(State(post, log)) else r.Err?
  {
  }

  lemma ErrorComes(r: Outcome, post: Str, log: seq<Event>)
    requires r.Err?
    ensures Comes(r, false, post, log)
  {
  }

  lemma {:induction false} MoreElementsAreRead(f: Flags, count: SizeType, m: MoreElements, post: Str, log: seq<Event>)
    requires AreMoreElements(f, m)
    ensures Comes(ElementEnd(f, count, State(SpellMoreElements(m) + post, log)), AcceptableMoreElements(f, m),
                  post, log + MoreElementEvents(f, count, m))
    decreases m
  {
    match m
    case NoElement(comma) => ArrayCloses(f, count, comma, post, log);
    case NextElements(gap, next) =>
      ElementsAreRead(f, count, next, post, log);
      ElementComma(f, count, gap, next, post, log);
  }

  lemma ArrayCloses(f: Flags, count: SizeType, comma: Option<seq<Space>>, post: Str, log: seq<Event>)
    requires IsTrailing(f, comma)
    ensures ElementEnd(f, count, State(SpellMoreElements(NoElement(comma)) + post, log)) == Ok(State(post, log + [EndArrayEvent(count)]))
  {
    hide AllSpacing, SpellSpaces, SkipSpace, NextElement;
    var s, close := SpellMoreElements(NoElement(comma)) + post, [RBRACKET] + post;
    assert close[1..] == post;
    if comma.Some? {
      Regroup4([COMMA], SpellSpaces(comma.value), [RBRACKET], post);
      assert s[1..] == SpellSpaces(comma.value) + close;
      GapIsSkipped(f, comma.value, close, log);
      assert ElementEnd(f, count, State(s, log)) == ElementAfterComma(f, count, State(close, log));
    } else {
      assert s == close;
    }
  }

  lemma ElementComma(f: Flags, count: SizeType, gap: seq<Space>, next: Elements, post: Str, log: seq<Event>)
    requires AllSpacing(f, gap) && IsElements(f, next)
    ensures ElementEnd(f, count, State(SpellMoreElements(NextElements(gap, next)) + post, log))
         == NextElement(f, count, State(SpellElements(next) + post, log))
  {
    ElementStarts(f, next, post);
    hide AllSpacing, SpellSpaces, SkipSpace, NextElement, IsElements, SpellElements;
    var s, first := SpellMoreElements(NextElements(gap, next)) + post, SpellElements(next) + post;
    Regroup3([COMMA], SpellSpaces(gap) + SpellElements(next), post);
    Regroup3(SpellSpaces(gap), SpellElements(next), post);
    assert s[1..] == SpellSpaces(gap) + first;
    GapIsSkipped(f, gap, first, log);
    assert ElementEnd(f, count, State(s, log)) == ElementAfterComma(f, count, State(first, log));
  }

  // --- objects ---

  lemma EmptyObjectIsRead(f: Flags, gap: seq<Space>, post: Str, log: seq<Event>)
    requires AllSpacing(f, gap)
    ensures ParseValue(f, State(SpellJson(EmptyObject(gap)) + post, log)) == Ok(State(post, log + [StartObjectEvent, EndObjectEvent(0)]))
  {
    hide AllSpacing, SpellSpaces, SkipSpace, NextMember;
    var s, close, inside := SpellJson(EmptyObject(gap)) + post, [RBRACE] + post, log + [StartObjectEvent];
    Regroup3([LBRACE], SpellSpaces(gap) + [RBRACE], post);
    Regroup3(SpellSpaces(gap), [RBRACE], post);
    assert s[1..] == SpellSpaces(gap) + close;
    GapIsSkipped(f, gap, close, inside);
    assert ObjectBody(f, State(s[1..], inside)) == ObjectFirst(f, State(close, inside));
    assert close[1..] == post;
    assert inside + [EndObjectEvent(0)] == log + [StartObjectEvent, EndObjectEvent(0)];
  }

  lemma NameStarts(m: Members, post: Str)
    ensures Peek(SpellMembers(m) + post) == QUOTE
  {
    assert (SpellMembers(m) + post)[0] == SpellString(m.name)[0];
  }

  /** The opening of an object that is not empty. */
  lemma ObjectOpens(f: Flags, gap: seq<Space>, first: Str, log: seq<Event>)
    requires AllSpacing(f, gap) && StartsToken(f, first) && Peek(first) != RBRACE
    ensures ParseValue(f, State([LBRACE] + (SpellSpaces(gap) + first), log)) == NextMember(f, 0, State(first, log + [StartObjectEvent]))
  {
    hide AllSpacing, SpellSpaces, SkipSpace, StartsToken, NextMember;
    var s, inside := [LBRACE] + (SpellSpaces(gap) + first), log + [StartObjectEvent];
    assert s[1..] == SpellSpaces(gap) + first;
    GapIsSkipped(f, gap, first, inside);
    assert ObjectBody(f, State(s[1..], inside)) == ObjectFirst(f, State(first, inside));
  }

  lemma ObjectStarts(f: Flags, gap: seq<Space>, m: Members, post: Str, log: seq<Event>)
    requires AllSpacing(f, gap)
    ensures ParseValue(f, State(SpellJson(Object(gap, m)) + post, log))
         == NextMember(f, 0, State(SpellMembers(m) + post, log + [StartObjectEvent]))
  {
    NameStarts(m, post);
    hide AllSpacing, SpellSpaces, ParseValue, NextMember, SpellMembers;
    Regroup3([LBRACE], SpellSpaces(gap) + SpellMembers(m), post);
    Regroup3(SpellSpaces(gap), SpellMembers(m), post);
    ObjectOpens(f, gap, SpellMembers(m) + post, log);
  }

  lemma ValueStarts(f: Flags, m: Members, post: Str)
    requires IsMembers(f, m)
    ensures StartsToken(f, SpellFromValue(m) + post)
  {
    hide StartsToken, SpellJson, SpellSpaces, SpellMoreMembers;
    var tail := SpellSpaces(m.after) + SpellMoreMembers(m.more);
    Regroup3(SpellJson(m.value), tail, post);
    JsonStarts(f, m.value, tail + post);
  }

  /** A name and its colon are read, up to the value, unless the name is refused. */
  lemma NameIsRead(f: Flags, count: SizeType, m: Members, post: Str, log: seq<Event>)
    requires IsMembers(f, m)
    ensures var r := NextMember(f, count, State(SpellMembers(m) + post, log));
            if IsPaired(f, m.name) then r == MemberValue(f, count, State(SpellFromValue(m) + post, log + [KeyEvent(Meanings(f, m.name))]))
            else r.Err?
  {
    ValueStarts(f, m, post);
    assert IsString(f, m.name) && AllSpacing(f, m.beforeColon) && AllSpacing(f, m.afterColon);
    hide IsMembers, AllSpacing, SpellSpaces, SkipSpace, SpellFromValue, SpellString, ParseString, MemberValue, IsString, IsPaired;
    var value := SpellFromValue(m) + post;
    var colon := [COLON] + (SpellSpaces(m.afterColon) + value);
    var named := log + [KeyEvent(Meanings(f, m.name))];
    MembersSplit(m, post);
    StringIsRead(f, true, m.name, SpellSpaces(m.beforeColon) + colon, log);
    if IsPaired(f, m.name) {
      ColonStarts(f, colon);
      GapIsSkipped(f, m.beforeColon, colon, named);
      GapIsSkipped(f, m.afterColon, value, named);
      assert colon[1..] == SpellSpaces(m.afterColon) + value;
      assert NextMember(f, count, State(SpellMembers(m) + post, log)) == MemberColon(f, count, State(colon, named));
    }
  }

  lemma ColonStarts(f: Flags, colon: Str)
    requires Peek(colon) == COLON
    ensures StartsToken(f, colon)
  {
  }

  lemma MembersSplit(m: Members, post: Str)
    ensures SpellMembers(m) + post
         == SpellString(m.name) + (SpellSpaces(m.beforeColon) + ([COLON] + (SpellSpaces(m.afterColon) + (SpellFromValue(m) + post))))
  {
    hide SpellString, SpellSpaces, SpellFromValue;
    var tail := SpellSpaces(m.afterColon) + SpellFromValue(m);
    Regroup3(SpellString(m.name), SpellSpaces(m.beforeColon) + ([COLON] + tail), post);
    Regroup3(SpellSpaces(m.beforeColon), [COLON] + tail, post);
    Regroup3([COLON], tail, post);
    Regroup3(SpellSpaces(m.afterColon), SpellFromValue(m), post);
  }

  lemma AfterMember(f: Flags, m: Members, post: Str)
    requires IsMembers(f, m)
    ensures var more := SpellMoreMembers(m.more) + post;
            && SpellFromValue(m) + post == SpellJson(m.value) + (SpellSpaces(m.after) + more)
            && EndsJson(m.value, SpellSpaces(m.after) + more)
            && StartsToken(f, more) && Peek(more) in {COMMA, RBRACE}
  {
    hide SpellJson, SpellSpaces;
    var more := SpellMoreMembers(m.more) + post;
    Regroup3(SpellJson(m.value), SpellSpaces(m.after) + SpellMoreMembers(m.more), post);
    Regroup3(SpellSpaces(m.after), SpellMoreMembers(m.more), post);
    assert Peek(more) == SpellMoreMembers(m.more)[0];
    GapEnds(f, m.value, m.after, more);
  }

  lemma MemberIsRead(f: Flags, count: SizeType, st: State, end: State, gap: seq<Space>, more: Str)
    requires ParseValue(f, st) == Ok(end) && end.rest == SpellSpaces(gap) + more && AllSpacing(f, gap) && StartsToken(f, more)
    ensures MemberValue(f, count, st) == MemberEnd(f, Increment(count), State(more, end.log))
  {
    hide ParseValue, MemberEnd, SkipSpace, SpellSpaces, AllSpacing, StartsToken;
    GapIsSkipped(f, gap, more, end.log);
  }

  lemma MemberIsRefused(f: Flags, count: SizeType, st: State)
    requires ParseValue(f, st).Err?
    ensures MemberValue(f, count, st).Err?
  {
  }

  /** What is known of a member and of what comes after it. */
  lemma MembersInParts(f: Flags, count: SizeType, m: Members)
    requires IsMembers(f, m)
    ensures IsString(f, m.name) && IsJson(f, m.value) && AllSpacing(f, m.after) && AreMoreMembers(f, m.more)
    ensures MemberEvents(f, count, m)
         == [KeyEvent(Meanings(f, m.name))] + (EventsOf(f, m.value) + MoreMemberEvents(f, Increment(count), m.more))
    ensures AcceptableMembers(f, m) <==> IsPaired(f, m.name) && IsAcceptable(f, m.value) && AcceptableMoreMembers(f, m.more)
  {
  }

  /** The members that are spelled are read, if they are acceptable, and the object ends with its count. */
  lemma {:induction false} MembersAreRead(f: Flags, count: SizeType, m: Members, post: Str, log: seq<Event>)
    requires IsMembers(f, m)
    ensures Comes(NextMember(f, count, State(SpellMembers(m) + post, log)), AcceptableMembers(f, m),
                  post, log + MemberEvents(f, count, m))
    decreases m
  {
    NameIsRead(f, count, m, post, log);
    AfterMember(f, m, post);
    MembersInParts(f, count, m);
    hide *;
    var key, events, others := [KeyEvent(Meanings(f, m.name))], EventsOf(f, m.value), MoreMemberEvents(f, Increment(count), m.more);
    var more := SpellMoreMembers(m.more) + post;
    var st, r := State(SpellFromValue(m) + post, log + key), NextMember(f, count, State(SpellMembers(m) + post, log));
    JsonIsRead(f, m.value, SpellSpaces(m.after) + more, log + key);
    OutcomeIs(ParseValue(f, st), IsAcceptable(f, m.value), SpellSpaces(m.after) + more, log + key + events);
    if IsPaired(f, m.name) && IsAcceptable(f, m.value) {
      MoreMembersAreRead(f, Increment(count), m.more, post, log + key + events);
      MemberIsRead(f, count, st, State(SpellSpaces(m.after) + more, log + key + events), m.after, more);
      Regroup4(log, key, events, others);
    } else {
      if !IsAcceptable(f, m.value) {
        MemberIsRefused(f, count, st);
      }
      ErrorComes(r, post, log + MemberEvents(f, count, m));
    }
  }

  lemma {:induction false} MoreMembersAreRead(f: Flags, count: SizeType, m: MoreMembers, post: Str, log: seq<Event>)
    requires AreMoreMembers(f, m)
    ensures Comes(MemberEnd(f, count, State(SpellMoreMembers(m) + post, log)), AcceptableMoreMembers(f, m),
                  post, log + MoreMemberEvents(f, count, m))
    decreases m
  {
    match m
    case NoMember(comma) => ObjectCloses(f, count, comma, post, log);
    case NextMembers(gap, next) =>
      MembersAreRead(f, count, next, post, log);
      MemberComma(f, count, gap, next, post, log);
  }

  lemma ObjectCloses(f: Flags, count: SizeType, comma: Option<seq<Space>>, post: Str, log: seq<Event>)
    requires IsTrailing(f, comma)
    ensures MemberEnd(f, count, State(SpellMoreMembers(NoMember(comma)) + post, log)) == Ok(State(post, log + [EndObjectEvent(count)]))
  {
    hide AllSpacing, SpellSpaces, SkipSpace, NextMember;
    var s, close := SpellMoreMembers(NoMember(comma)) + post, [RBRACE] + post;
    assert close[1..] == post;
    if comma.Some? {
      Regroup4([COMMA], SpellSpaces(comma.value), [RBRACE], post);
      assert s[1..] == SpellSpaces(comma.value) + close;
      GapIsSkipped(f, comma.value, close, log);
      assert MemberEnd(f, count, State(s, log)) == MemberAfterComma(f, count, State(close, log));
    } else {
      assert s == close;
    }
  }

  lemma MemberComma(f: Flags, count: SizeType, gap: seq<Space>, next: Members, post: Str, log: seq<Event>)
    requires AllSpacing(f, gap)
    ensures MemberEnd(f, count, State(SpellMoreMembers(NextMembers(gap, next)) + post, log))
         == NextMember(f, count, State(SpellMembers(next) + post, log))
  {
    NameStarts(next, post);
    hide AllSpacing, SpellSpaces, SkipSpace, NextMember, SpellMembers;
    var s, first := SpellMoreMembers(NextMembers(gap, next)) + post, SpellMembers(next) + post;
    Regroup3([COMMA], SpellSpaces(gap) + SpellMembers(next), post);
    Regroup3(SpellSpaces(gap), SpellMembers(next), post);
    assert s[1..] == SpellSpaces(gap) + first;
    GapIsSkipped(f, gap, first, log);
    assert MemberEnd(f, count, State(s, log)) == MemberAfterComma(f, count, State(first, log));
  }

  /** A value of the grammar is read up to where it ends and raises the events it means, if and only if it is acceptable. */
  lemma {:induction false} JsonIsRead(f: Flags, j: Json, post: Str, log: seq<Event>)
    requires IsJson(f, j) && EndsJson(j, post)
    ensures Comes(ParseValue(f, State(SpellJson(j) + post, log)), IsAcceptable(f, j), post, log + EventsOf(f, j))
    decreases j
  {
    hide ParseValue, NextElement, NextMember, IsString, AllSpacing, IsNumeral, IsTooBig, NumeralEvent, IsPaired;
    match j
    case Word(event) => WordIsRead(f, event, post, log);
    case Numeric(n) => NumericIsRead(f, n, post, log);
    case Quoted(chars) => QuotedIsRead(f, chars, post, log);
    case EmptyArray(gap) => EmptyArrayIsRead(f, gap, post, log);
    case Array(gap, elements) =>
      ElementStarts(f, elements, post);
      ArrayStarts(f, gap, elements, post, log);
      ElementsAreRead(f, 0, elements, post, log + [StartArrayEvent]);
      Regroup3(log, [StartArrayEvent], ElementEvents(f, 0, elements));
    case EmptyObject(gap) => EmptyObjectIsRead(f, gap, post, log);
    case Object(gap, members) =>
      ObjectStarts(f, gap, members, post, log);
      MembersAreRead(f, 0, members, post, log + [StartObjectEvent]);
      Regroup3(log, [StartObjectEvent], MemberEvents(f, 0, members));
  }

  // ---------------------------------------------------------------------------------------------
  // What is read is spelled
  // ---------------------------------------------------------------------------------------------

  lemma ReadIsGap(f: Flags, s: Str, log: seq<Event>) returns (g: seq<Space>)
    requires SkipSpace(f, State(s, log)).Ok? && Peek(SkipSpace(f, State(s, log)).state.rest) != NUL
    ensures AllSpacing(f, g) && s == SpellSpaces(g) + SkipSpace(f, State(s, log)).state.rest
  {
    hide SkipSpace, AllSpacing, SpellSpaces;
    var rest := SkipSpace(f, State(s, log)).state.rest;
    var last;
    g, last := SkippedAreSpaces(f, s, log);
    assert [] + rest == rest;
  }

  lemma {:induction false} ReadIsKeyword(letters: Str, e: Event, st: State)
    requires Keyword(letters, e, st).Ok?
    ensures st.rest == letters + Keyword(letters, e, st).state.rest
    decreases |letters|
  {
    if letters == [] {
      assert st.rest == [] + st.rest;
    } else {
      ReadIsKeyword(letters[1..], e, st.Skip());
      assert st.rest == [letters[0]] + st.rest[1..];
      assert letters == [letters[0]] + letters[1..];
      Regroup3([letters[0]], letters[1..], Keyword(letters, e, st).state.rest);
    }
  }

  lemma ReadIsWord(f: Flags, st: State) returns (e: Event)
    requires Peek(st.rest) in {LETTER_N, LETTER_T, LETTER_F} && ParseValue(f, st).Ok?
    ensures IsJson(f, Word(e)) && st.rest == SpellJson(Word(e)) + ParseValue(f, st).state.rest
  {
    hide Keyword;
    var c := Peek(st.rest);
    e := if c == LETTER_N then NullEvent else BoolEvent(c == LETTER_T);
    ReadIsKeyword(OtherLetters(e), e, st.Skip());
    assert st.rest == [c] + st.rest[1..];
    Regroup3([c], OtherLetters(e), ParseValue(f, st).state.rest);
  }

  lemma ReadIsQuoted(f: Flags, isKey: bool, st: State) returns (cs: seq<Char>)
    requires Peek(st.rest) == QUOTE && ParseString(f, isKey, st).Ok?
    ensures IsString(f, cs) && IsPaired(f, cs) && st.rest == SpellString(cs) + ParseString(f, isKey, st).state.rest
  {
    cs := ReadIsChars(f, [], st.rest[1..]);
    var rest := ParseString(f, isKey, st).state.rest;
    assert st.rest == [QUOTE] + st.rest[1..];
    Regroup3([QUOTE], SpellChars(cs) + [QUOTE], rest);
    Regroup3(SpellChars(cs), [QUOTE], rest);
  }

  /** What a value turns out to be: text of the grammar, which nothing that comes after carries on. */
  predicate IsReadAs(f: Flags, j: Json, s: Str, rest: Str) {
    IsJson(f, j) && IsAcceptable(f, j) && s == SpellJson(j) + rest && EndsJson(j, rest)
  }

  /** Every value that is accepted is one of the grammar. */
  lemma {:induction false} ReadIsJson(f: Flags, st: State) returns (j: Json)
    requires ParseValue(f, st).Ok?
    ensures IsReadAs(f, j, st.rest, ParseValue(f, st).state.rest)
    decreases |st.rest|, 1
  {
    hide ObjectBody, ArrayBody, Keyword, ParseString, Number.ParseNumber, SpellNumeral, IsNumeral, IsString, SpellString, Ends,
      IsPaired, IsTooBig;
    var c := Peek(st.rest);
    if c == LETTER_N || c == LETTER_T || c == LETTER_F {
      var e := ReadIsWord(f, st);
      j := Word(e);
    } else if c == QUOTE {
      var cs := ReadIsQuoted(f, false, st);
      j := Quoted(cs);
    } else if c == LBRACE {
      j := ReadIsObject(f, st);
    } else if c == LBRACKET {
      j := ReadIsArray(f, st);
    } else {
      var n := ReadIsNumeral(f, st.rest);
      j := Numeric(n);
    }
  }

  /** An opening bracket and the gap after it. */
  lemma Opening(f: Flags, open: Ch, st: State, e: Event) returns (gap: seq<Space>, first: State)
    requires Peek(st.rest) == open != NUL && SkipSpace(f, st.Skip().Emit(e)).Ok?
    requires Peek(SkipSpace(f, st.Skip().Emit(e)).state.rest) != NUL
    ensures first == SkipSpace(f, st.Skip().Emit(e)).state
    ensures AllSpacing(f, gap) && st.rest == [open] + (SpellSpaces(gap) + first.rest) && |first.rest| < |st.rest|
  {
    hide AllSpacing, SpellSpaces;
    gap := ReadIsGap(f, st.rest[1..], st.log + [e]);
    first := SkipSpace(f, st.Skip().Emit(e)).state;
    assert st.rest == [open] + st.rest[1..];
  }

  /** A closing bracket. */
  lemma Closing(close: Ch, s: Str)
    requires Peek(s) == close != NUL
    ensures s == [close] + s[1..]
  {
  }

  lemma NoMoreAtEnd(f: Flags, count: SizeType, st: State)
    ensures Peek(st.rest) == NUL ==> !NextMember(f, count, st).Ok? && !NextElement(f, count, st).Ok?
  {
  }

  lemma ArrayStart(f: Flags, st: State) returns (gap: seq<Space>, first: State)
    requires Peek(st.rest) == LBRACKET && ParseValue(f, st).Ok?
    ensures AllSpacing(f, gap) && st.rest == [LBRACKET] + (SpellSpaces(gap) + first.rest) && |first.rest| < |st.rest|
    ensures if Peek(first.rest) == RBRACKET then first.rest == [RBRACKET] + ParseValue(f, st).state.rest
            else ParseValue(f, st) == NextElement(f, 0, first)
  {
    hide NextElement, AllSpacing, SpellSpaces, SkipSpace;
    first := SkipSpace(f, st.Skip().Emit(StartArrayEvent)).state;
    assert ParseValue(f, st) == ArrayFirst(f, first);
    NoMoreAtEnd(f, 0, first);
    gap, first := Opening(f, LBRACKET, st, StartArrayEvent);
    if Peek(first.rest) == RBRACKET {
      Closing(RBRACKET, first.rest);
    }
  }

  lemma {:induction false} ReadIsArray(f: Flags, st: State) returns (j: Json)
    requires Peek(st.rest) == LBRACKET && ParseValue(f, st).Ok?
    ensures IsReadAs(f, j, st.rest, ParseValue(f, st).state.rest)
    decreases |st.rest|, 0
  {
    hide ParseValue, NextElement, AllSpacing, SpellSpaces, SpellElements, IsElements;
    var gap, first := ArrayStart(f, st);
    var rest := ParseValue(f, st).state.rest;
    if Peek(first.rest) == RBRACKET {
      j := EmptyArray(gap);
      Regroup3(SpellSpaces(gap), [RBRACKET], rest);
      Regroup3([LBRACKET], SpellSpaces(gap) + [RBRACKET], rest);
    } else {
      var e := ReadIsElements(f, 0, first);
      j := Array(gap, e);
      Regroup3(SpellSpaces(gap), SpellElements(e), rest);
      Regroup3([LBRACKET], SpellSpaces(gap) + SpellElements(e), rest);
    }
  }

  /** After an element: the gap up to its comma or the closing bracket. */
  lemma ElementGap(f: Flags, count: SizeType, st: State) returns (gap: seq<Space>, end: State)
    requires NextElement(f, count, st).Ok?
    ensures ParseValue(f, st).Ok?
    ensures AllSpacing(f, gap) && ParseValue(f, st).state.rest == SpellSpaces(gap) + end.rest && |end.rest| < |st.rest|
    ensures NextElement(f, count, st) == ElementEnd(f, Increment(count), end)
  {
    hide AllSpacing, SpellSpaces, SkipSpace, ParseValue, ElementAfterComma;
    var after := ParseValue(f, st).state;
    end := SkipSpace(f, after).state;
    assert ElementEnd(f, Increment(count), end).Ok?;
    gap := ReadIsGap(f, after.rest, after.log);
  }

  lemma {:induction false} ReadIsElements(f: Flags, count: SizeType, st: State) returns (e: Elements)
    requires NextElement(f, count, st).Ok?
    ensures IsElements(f, e) && AcceptableElements(f, e) && st.rest == SpellElements(e) + NextElement(f, count, st).state.rest
    decreases |st.rest|, 2
  {
    hide NextElement, ElementEnd, ParseValue, AllSpacing, SpellSpaces, SpellJson, SpellMoreElements, IsJson, AreMoreElements, EndsJson;
    var gap, end := ElementGap(f, count, st);
    var value := ReadIsJson(f, st);
    var more := ReadIsMoreElements(f, Increment(count), end);
    e := Elements(value, gap, more);
    var rest := NextElement(f, count, st).state.rest;
    Regroup3(SpellSpaces(gap), SpellMoreElements(more), rest);
    Regroup3(SpellJson(value), SpellSpaces(gap) + SpellMoreElements(more), rest);
  }

  /** A comma and the gap after it. */
  lemma CommaGap(f: Flags, st: State) returns (gap: seq<Space>, next: State)
    requires Peek(st.rest) == COMMA && SkipSpace(f, st.Skip()).Ok? && Peek(SkipSpace(f, st.Skip()).state.rest) != NUL
    ensures next == SkipSpace(f, st.Skip()).state
    ensures AllSpacing(f, gap) && st.rest == [COMMA] + (SpellSpaces(gap) + next.rest) && |next.rest| < |st.rest|
  {
    hide AllSpacing, SpellSpaces;
    gap := ReadIsGap(f, st.rest[1..], st.log);
    next := SkipSpace(f, st.Skip()).state;
    assert st.rest == [COMMA] + st.rest[1..];
  }

  lemma ElementTurn(f: Flags, count: SizeType, st: State) returns (gap: seq<Space>, next: State)
    requires Peek(st.rest) == COMMA && ElementEnd(f, count, st).Ok?
    ensures AllSpacing(f, gap) && st.rest == [COMMA] + (SpellSpaces(gap) + next.rest) && |next.rest| < |st.rest|
    ensures if f.trailingCommas && Peek(next.rest) == RBRACKET then next.rest == [RBRACKET] + ElementEnd(f, count, st).state.rest
            else ElementEnd(f, count, st) == NextElement(f, count, next)
  {
    hide NextElement, AllSpacing, SpellSpaces, SkipSpace;
    next := SkipSpace(f, st.Skip()).state;
    assert ElementEnd(f, count, st) == ElementAfterComma(f, count, next);
    NoMoreAtEnd(f, count, next);
    gap, next := CommaGap(f, st);
    if Peek(next.rest) == RBRACKET {
      Closing(RBRACKET, next.rest);
    }
  }

  lemma {:induction false} ReadIsMoreElements(f: Flags, count: SizeType, st: State) returns (m: MoreElements)
    requires ElementEnd(f, count, st).Ok?
    ensures AreMoreElements(f, m) && AcceptableMoreElements(f, m) && st.rest == SpellMoreElements(m) + ElementEnd(f, count, st).state.rest
    decreases |st.rest|, 3
  {
    hide NextElement, AllSpacing, SpellSpaces, SpellElements, IsElements, ElementAfterComma, SkipSpace;
    var rest := ElementEnd(f, count, st).state.rest;
    if Peek(st.rest) == COMMA {
      var gap, next := ElementTurn(f, count, st);
      if f.trailingCommas && Peek(next.rest) == RBRACKET {
        m := NoElement(Some(gap));
        Regroup4([COMMA], SpellSpaces(gap), [RBRACKET], rest);
      } else {
        var e := ReadIsElements(f, count, next);
        m := NextElements(gap, e);
        Regroup3(SpellSpaces(gap), SpellElements(e), rest);
        Regroup3([COMMA], SpellSpaces(gap) + SpellElements(e), rest);
      }
    } else {
      Closing(RBRACKET, st.rest);
      m := NoElement(None);
      assert SpellMoreElements(m) == [RBRACKET];
    }
  }

  lemma ObjectStart(f: Flags, st: State) returns (gap: seq<Space>, first: State)
    requires Peek(st.rest) == LBRACE && ParseValue(f, st).Ok?
    ensures AllSpacing(f, gap) && st.rest == [LBRACE] + (SpellSpaces(gap) + first.rest) && |first.rest| < |st.rest|
    ensures if Peek(first.rest) == RBRACE then first.rest == [RBRACE] + ParseValue(f, st).state.rest
            else ParseValue(f, st) == NextMember(f, 0, first)
  {
    hide NextMember, AllSpacing, SpellSpaces, SkipSpace;
    first := SkipSpace(f, st.Skip().Emit(StartObjectEvent)).state;
    assert ParseValue(f, st) == ObjectFirst(f, first);
    NoMoreAtEnd(f, 0, first);
    gap, first := Opening(f, LBRACE, st, StartObjectEvent);
    if Peek(first.rest) == RBRACE {
      Closing(RBRACE, first.rest);
    }
  }

  lemma {:induction false} ReadIsObject(f: Flags, st: State) returns (j: Json)
    requires Peek(st.rest) == LBRACE && ParseValue(f, st).Ok?
    ensures IsReadAs(f, j, st.rest, ParseValue(f, st).state.rest)
    decreases |st.rest|, 0
  {
    hide ParseValue, NextMember, AllSpacing, SpellSpaces, SpellMembers, IsMembers;
    var gap, first := ObjectStart(f, st);
    var rest := ParseValue(f, st).state.rest;
    if Peek(first.rest) == RBRACE {
      j := EmptyObject(gap);
      Regroup3(SpellSpaces(gap), [RBRACE], rest);
      Regroup3([LBRACE], SpellSpaces(gap) + [RBRACE], rest);
    } else {
      var m := ReadIsMembers(f, 0, first);
      j := Object(gap, m);
      Regroup3(SpellSpaces(gap), SpellMembers(m), rest);
      Regroup3([LBRACE], SpellSpaces(gap) + SpellMembers(m), rest);
    }
  }

  /** A name with its gaps and the colon, and then a value due at `at`. */
  predicate IsNamed(f: Flags, count: SizeType, st: State, name: seq<Char>, before: seq<Space>, after: seq<Space>, at: State) {
    && IsString(f, name) && IsPaired(f, name) && AllSpacing(f, before) && AllSpacing(f, after)
    && st.rest == SpellString(name) + (SpellSpaces(before) + ([COLON] + (SpellSpaces(after) + at.rest))) && |at.rest| < |st.rest|
    && NextMember(f, count, st) == MemberValue(f, count, at)
  }

  /** A name, its colon and the gaps round it, up to the value. */
  lemma NameGaps(f: Flags, count: SizeType, st: State) returns (name: seq<Char>, before: seq<Space>, after: seq<Space>, at: State)
    requires NextMember(f, count, st).Ok?
    ensures IsNamed(f, count, st, name, before, after, at)
  {
    hide AllSpacing, SpellSpaces, SpellString, IsString, SkipSpace, ParseString, MemberValue;
    name := ReadIsQuoted(f, true, st);
    var st1 := ParseString(f, true, st).state;
    var st2 := SkipSpace(f, st1).state;
    assert NextMember(f, count, st) == MemberColon(f, count, st2);
    before := ReadIsGap(f, st1.rest, st1.log);
    at := SkipSpace(f, st2.Skip()).state;
    assert NextMember(f, count, st) == MemberValue(f, count, at);
    NoValueAtEnd(f, count, at);
    after := ReadIsGap(f, st2.rest[1..], st2.log);
    Closing(COLON, st2.rest);
  }

  lemma NoValueAtEnd(f: Flags, count: SizeType, st: State)
    ensures Peek(st.rest) == NUL ==> !MemberValue(f, count, st).Ok?
  {
  }

  /** After a member's value: the gap up to its comma or the closing brace. */
  lemma MemberGap(f: Flags, count: SizeType, st: State) returns (gap: seq<Space>, end: State)
    requires MemberValue(f, count, st).Ok?
    ensures ParseValue(f, st).Ok?
    ensures AllSpacing(f, gap) && ParseValue(f, st).state.rest == SpellSpaces(gap) + end.rest && |end.rest| < |st.rest|
    ensures MemberValue(f, count, st) == MemberEnd(f, Increment(count), end)
  {
    hide AllSpacing, SpellSpaces, SkipSpace, ParseValue, MemberAfterComma;
    var after := ParseValue(f, st).state;
    end := SkipSpace(f, after).state;
    assert MemberEnd(f, Increment(count), end).Ok?;
    gap := ReadIsGap(f, after.rest, after.log);
  }

  lemma {:induction false} ReadIsMembers(f: Flags, count: SizeType, st: State) returns (m: Members)
    requires NextMember(f, count, st).Ok?
    ensures IsMembers(f, m) && AcceptableMembers(f, m) && st.rest == SpellMembers(m) + NextMember(f, count, st).state.rest
    decreases |st.rest|, 2
  {
    hide NextMember, MemberValue, MemberEnd, ParseValue, AllSpacing, SpellSpaces, SpellJson, SpellString, SpellMoreMembers,
      IsJson, IsString, AreMoreMembers, EndsJson, SpellMembers;
    var name, before, after, at := NameGaps(f, count, st);
    var gap, end := MemberGap(f, count, at);
    var value := ReadIsJson(f, at);
    var more := ReadIsMoreMembers(f, Increment(count), end);
    m := Members(name, before, after, value, gap, more);
    var rest := NextMember(f, count, st).state.rest;
    MembersSplit(m, rest);
    Regroup3(SpellSpaces(gap), SpellMoreMembers(more), rest);
    Regroup3(SpellJson(value), SpellSpaces(gap) + SpellMoreMembers(more), rest);
  }

  lemma MemberTurn(f: Flags, count: SizeType, st: State) returns (gap: seq<Space>, next: State)
    requires Peek(st.rest) == COMMA && MemberEnd(f, count, st).Ok?
    ensures AllSpacing(f, gap) && st.rest == [COMMA] + (SpellSpaces(gap) + next.rest) && |next.rest| < |st.rest|
    ensures if f.trailingCommas && Peek(next.rest) == RBRACE then next.rest == [RBRACE] + MemberEnd(f, count, st).state.rest
            else MemberEnd(f, count, st) == NextMember(f, count, next)
  {
    hide NextMember, AllSpacing, SpellSpaces, SkipSpace;
    next := SkipSpace(f, st.Skip()).state;
    assert MemberEnd(f, count, st) == MemberAfterComma(f, count, next);
    NoMoreAtEnd(f, count, next);
    gap, next := CommaGap(f, st);
    if Peek(next.rest) == RBRACE {
      Closing(RBRACE, next.rest);
    }
  }

  lemma {:induction false} ReadIsMoreMembers(f: Flags, count: SizeType, st: State) returns (m: MoreMembers)
    requires MemberEnd(f, count, st).Ok?
    ensures AreMoreMembers(f, m) && AcceptableMoreMembers(f, m) && st.rest == SpellMoreMembers(m) + MemberEnd(f, count, st).state.rest
    decreases |st.rest|, 3
  {
    hide NextMember, AllSpacing, SpellSpaces, SpellMembers, IsMembers, MemberAfterComma, SkipSpace;
    var rest := MemberEnd(f, count, st).state.rest;
    if Peek(st.rest) == COMMA {
      var gap, next := MemberTurn(f, count, st);
      if f.trailingCommas && Peek(next.rest) == RBRACE {
        m := NoMember(Some(gap));
        Regroup4([COMMA], SpellSpaces(gap), [RBRACE], rest);
      } else {
        var more := ReadIsMembers(f, count, next);
        m := NextMembers(gap, more);
        Regroup3(SpellSpaces(gap), SpellMembers(more), rest);
        Regroup3([COMMA], SpellSpaces(gap) + SpellMembers(more), rest);
      }
    } else {
      Closing(RBRACE, st.rest);
      m := NoMember(None);
      assert SpellMoreMembers(m) == [RBRACE];
    }
  }

  // ---------------------------------------------------------------------------------------------
  // Texts
  // ---------------------------------------------------------------------------------------------

  /** `JSON-text = ws value ws`, with a line comment at the very end that nothing ends. */
  datatype JsonText = JsonText(before: seq<Space>, root: Json, after: seq<Space>, last: Str)

  function SpellJsonText(d: JsonText): Str {
    SpellSpaces(d.before) + (SpellJson(d.root) + (SpellSpaces(d.after) + d.last))
  }

  /**
   * The document is one of the grammar and `rest` may follow it: no more than what a NUL hides, or anything at all
   * that does not carry the value on when parsing stops with the value.
   */
  predicate IsJsonText(f: Flags, d: JsonText, rest: Str) {
    && AllSpacing(f, d.before) && IsJson(f, d.root)
    && if f.stopWhenDone then d.after == [] && d.last == [] && EndsJson(d.root, rest)
       else AllSpacing(f, d.after) && IsLastLine(f, d.last, rest) && Peek(rest) == NUL
  }

  /** What follows the root of a document. */
  lemma RootIsFollowed(f: Flags, d: JsonText, rest: Str)
    requires IsJsonText(f, d, rest)
    ensures var tail := SpellSpaces(d.after) + (d.last + rest);
            && SpellJsonText(d) + rest == SpellSpaces(d.before) + (SpellJson(d.root) + tail)
            && EndsJson(d.root, tail) && (f.stopWhenDone ==> tail == rest)
  {
    var tail := SpellSpaces(d.after) + (d.last + rest);
    hide SpellJson, SpellSpaces, IsJson, EndsJson;
    Regroup3(SpellSpaces(d.before), SpellJson(d.root) + (SpellSpaces(d.after) + d.last), rest);
    Regroup3(SpellJson(d.root), SpellSpaces(d.after) + d.last, rest);
    Regroup3(SpellSpaces(d.after), d.last, rest);
    if f.stopWhenDone {
      NothingAfter(d, rest);
    } else {
      LastEnds(f, d, rest);
    }
  }

  lemma NothingAfter(d: JsonText, rest: Str)
    requires d.after == [] && d.last == []
    ensures SpellSpaces(d.after) + (d.last + rest) == rest
  {
  }

  lemma LastEnds(f: Flags, d: JsonText, rest: Str)
    requires AllSpacing(f, d.after) && IsLastLine(f, d.last, rest) && Peek(rest) == NUL
    ensures EndsJson(d.root, SpellSpaces(d.after) + (d.last + rest))
  {
    var s := d.last + rest;
    if d.last == [] {
      assert s == rest;
    } else {
      assert s[0] == d.last[..2][0];
    }
    if d.after == [] {
      assert SpellSpaces(d.after) + s == s;
    } else {
      assert IsSpacing(f, d.after[0]);
      assert (SpellSpaces(d.after) + s)[0] == SpellSpace(d.after[0])[0];
    }
  }

  /** A text of the grammar is accepted, up to `rest`, and raises the events it means, if and only if it is acceptable. */
  lemma JsonTextIsRead(f: Flags, d: JsonText, rest: Str)
    requires IsJsonText(f, d, rest)
    ensures Comes(ParseText(f, SpellJsonText(d) + rest), IsAcceptable(f, d.root), rest, EventsOf(f, d.root))
  {
    RootIsFollowed(f, d, rest);
    assert f.stopWhenDone || (AllSpacing(f, d.after) && IsLastLine(f, d.last, rest) && StartsToken(f, rest));
    hide ParseValue, SkipSpace, SpellJson, SpellSpaces, SpellJsonText, AllSpacing, IsJson, EndsJson, StartsToken, IsLastLine, EventsOf,
      IsAcceptable;
    var tail := SpellSpaces(d.after) + (d.last + rest);
    var s := SpellJson(d.root) + tail;
    JsonStarts(f, d.root, tail);
    GapIsSkipped(f, d.before, s, []);
    JsonIsRead(f, d.root, tail, []);
    var log := EventsOf(f, d.root);
    assert [] + log == log;
    if IsAcceptable(f, d.root) {
      assert ParseText(f, SpellJsonText(d) + rest) == AfterRoot(f, State(tail, log));
      if !f.stopWhenDone {
        SpacesAreSkipped(f, d.after, d.last + rest, log);
        LastIsSkipped(f, d.last, rest, log);
      }
    }
  }

  /** Every text that is accepted is an acceptable one of the grammar. */
  lemma ReadIsJsonText(f: Flags, text: Str) returns (d: JsonText)
    requires ParseText(f, text).Ok?
    ensures IsJsonText(f, d, ParseText(f, text).state.rest) && text == SpellJsonText(d) + ParseText(f, text).state.rest
    ensures IsAcceptable(f, d.root)
  {
    hide ParseValue, SkipSpace, SpellJson, SpellSpaces, AllSpacing, IsJson, EndsJson, IsLastLine, StartsToken, IsAcceptable;
    var st := SkipSpace(f, State(text, [])).state;
    var before := ReadIsGap(f, text, []);
    var root := ReadIsJson(f, st);
    var end := ParseValue(f, st).state;
    var rest := ParseText(f, text).state.rest;
    var after, last: Str := [], [];
    if f.stopWhenDone {
      NothingAfter(JsonText(before, root, after, last), rest);
    } else {
      after, last := SkippedAreSpaces(f, end.rest, end.log);
    }
    d := JsonText(before, root, after, last);
    Regroup3(SpellSpaces(after), last, rest);
    Regroup3(SpellJson(root), SpellSpaces(after) + last, rest);
    Regroup3(SpellSpaces(before), SpellJson(root) + (SpellSpaces(after) + last), rest);
  }

  /**
   * A text is accepted, by either parser, if and only if it is a text of the grammar without a number that is too big
   * and without a surrogate that has no partner; what is left unread and the events are then those of the grammar,
   * however the text is taken apart.
   */
  lemma AcceptedIff(f: Flags, text: Str, rest: Str, log: seq<Event>)
    ensures ParseText(f, text) == Ok(State(rest, log))
       <==> exists d :: IsJsonText(f, d, rest) && IsAcceptable(f, d.root) && text == SpellJsonText(d) + rest && log == EventsOf(f, d.root)
    ensures Iterative.IterativeParse(f, text) == Ok(State(rest, log)) <==> ParseText(f, text) == Ok(State(rest, log))
  {
    hide ParseText, EventsOf, SpellJsonText, IsAcceptable, Iterative.IterativeParse, Iterative.HasStrayRoot;
    Iterative.IterativeRefinesRecursive(f, text);
    if ParseText(f, text) == Ok(State(rest, log)) {
      var d := ReadIsJsonText(f, text);
      JsonTextIsRead(f, d, rest);
      assert IsJsonText(f, d, rest) && IsAcceptable(f, d.root) && text == SpellJsonText(d) + rest && log == EventsOf(f, d.root);
    }
    forall d | IsJsonText(f, d, rest) && IsAcceptable(f, d.root) && text == SpellJsonText(d) + rest && log == EventsOf(f, d.root)
      ensures ParseText(f, text) == Ok(State(rest, log))
    {
      JsonTextIsRead(f, d, rest);
    }
  }
}
