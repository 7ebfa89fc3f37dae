/**
 * The offset of an error is that of the first unit that cannot go on: what comes before it is the beginning of texts
 * that are accepted, and no text is accepted that has this unit next.
 */
module Beginnings {
  import opened Text
  import opened ParseTypes
  import opened NumberGrammar
  import opened NumberMeaning
  import opened StringGrammar
  import opened SpaceGrammar
  import opened Grammar
  import opened Syntax
  import opened StringRefusal
  import opened Refusal

  // ---------------------------------------------------------------------------------------------
  // A beginning goes on
  // ---------------------------------------------------------------------------------------------

  function StopOf(p: Part): Stop {
    match p
    case ValueStops(stop) => stop
    case InArray(_, elements) => StopOfElements(elements)
    case InObject(_, members) => StopOfMembers(members)
  }

  function StopOfElements(p: PartElements): Stop {
    match p
    case InElement(value) => StopOf(value)
    case PastElement(_, _, stop) => stop
    case LaterElement(_, _, _, more) => StopOfElements(more)
  }

  function StopOfMembers(p: PartMembers): Stop {
    match p
    case NameStops(stop) => stop
    case ColonStops(_, _, stop) => stop
    case PastColon(_, _, _, member) => StopOfMember(member)
  }

  function StopOfMember(p: PartMember): Stop {
    match p
    case InMember(value) => StopOf(value)
    case PastMember(_, _, stop) => stop
    case LaterMember(_, _, _, more) => StopOfMembers(more)
  }

  function StopOfText(d: PartText): Stop {
    match d
    case InRoot(_, value) => StopOf(value)
    case PastRoot(_, _, _, stop) => stop
  }

  /** Between two tokens, in a word or in a string. */
  predicate IsOpen(stop: Stop) {
    stop == Unexpected([]) || stop.CutWord? || stop.CutString?
  }

  /** The shortest way to end a beginning: a word or a string is completed, a value that is due is null. */
  function Ended(p: Part): Json {
    match p
    case ValueStops(stop) => EndedStop(stop)
    case InArray(gap, elements) => Array(gap, EndedElements(elements))
    case InObject(gap, members) => Object(gap, EndedMembers(members))
  }

  function EndedStop(stop: Stop): Json {
    match stop
    case CutWord(event, _) => Word(event)
    case CutString(chars) => Quoted(chars)
    case _ => Word(NullEvent)
  }

  function EndedElements(p: PartElements): Elements {
    match p
    case InElement(value) => Elements(Ended(value), [], NoElement(None))
    case PastElement(j, after, _) => Elements(j, after, NoElement(None))
    case LaterElement(j, after, gap, more) => Elements(j, after, NextElements(gap, EndedElements(more)))
  }

  function EndedMembers(p: PartMembers): Members {
    match p
    case NameStops(stop) => Members(if stop.CutString? then stop.chars else [], [], [], Word(NullEvent), [], NoMember(None))
    case ColonStops(name, before, _) => Members(name, before, [], Word(NullEvent), [], NoMember(None))
    case PastColon(name, before, gap, InMember(value)) => Members(name, before, gap, Ended(value), [], NoMember(None))
    case PastColon(name, before, gap, PastMember(j, after, _)) => Members(name, before, gap, j, after, NoMember(None))
    case PastColon(name, before, gap, LaterMember(j, after, next, more)) =>
      Members(name, before, gap, j, after, NextMembers(next, EndedMembers(more)))
  }

  /** The text of `j` starts with `s`, and `j` is read. */
  predicate Extends(f: Flags, j: Json, s: Str) {
    IsWhole(f, j) && s <= SpellJson(j)
  }

  predicate ElementsExtend(f: Flags, es: Elements, s: Str) {
    IsElements(f, es) && AcceptableElements(f, es) && s <= SpellElements(es)
  }

  predicate MembersExtend(f: Flags, ms: Members, s: Str) {
    IsMembers(f, ms) && AcceptableMembers(f, ms) && s <= SpellMembers(ms)
  }

  lemma After(a: Str, b: Str, c: Str)
    requires b <= c
    ensures a + b <= a + c
  {
  }

  lemma Chain(a: Str, b: Str, c: Str)
    requires a <= b && b <= c
    ensures a <= c
  {
  }

  lemma NothingFirst(b: Str)
    ensures [] <= b
  {
  }

  lemma Shorter(a: Str, b: Str)
    ensures a <= a + b
  {
  }

  lemma StopGoesOn(f: Flags, due: Due, stop: Stop, e: Error)
    requires TakesValue(due) && IsStop(f, due, stop, e) && IsOpen(stop)
    ensures Extends(f, EndedStop(stop), SpellStop(stop))
  {
    hide IsString, IsPaired, SpellChars;
    if stop.CutString? {
      Regroup3([QUOTE], SpellChars(stop.chars), [QUOTE]);
    }
  }

  lemma {:induction false} PartGoesOn(f: Flags, due: Due, p: Part, e: Error)
    requires TakesValue(due) && IsPart(f, due, p, e) && IsOpen(StopOf(p))
    ensures Extends(f, Ended(p), SpellPart(p))
    decreases p
  {
    hide IsStop, SpellStop, AllSpacing, SpellSpaces, IsElements, IsMembers, AcceptableElements, AcceptableMembers, SpellElements, SpellMembers,
      ArePartElements, ArePartMembers, SpellPartElements, SpellPartMembers, StopOfElements, StopOfMembers, EndedElements, EndedMembers;
    match p
    case ValueStops(stop) => StopGoesOn(f, due, stop, e);
    case InArray(gap, elements) =>
      ElementsGoOn(f, true, elements, e);
      After(SpellSpaces(gap), SpellPartElements(elements), SpellElements(EndedElements(elements)));
      After([LBRACKET], SpellSpaces(gap) + SpellPartElements(elements), SpellSpaces(gap) + SpellElements(EndedElements(elements)));
    case InObject(gap, members) =>
      MembersGoOn(f, true, members, e);
      After(SpellSpaces(gap), SpellPartMembers(members), SpellMembers(EndedMembers(members)));
      After([LBRACE], SpellSpaces(gap) + SpellPartMembers(members), SpellSpaces(gap) + SpellMembers(EndedMembers(members)));
  }

  /** Where neither a value nor a name is due, nothing is begun. */
  lemma NothingIsSpelled(f: Flags, due: Due, stop: Stop, e: Error)
    requires IsStop(f, due, stop, e) && IsOpen(stop) && !TakesValue(due) && !due.DueName?
    ensures SpellStop(stop) == []
  {
  }

  /** The last element, with nothing of the closing bracket yet. */
  lemma LastElement(f: Flags, j: Json, after: seq<Space>)
    requires IsWhole(f, j) && AllSpacing(f, after)
    ensures ElementsExtend(f, Elements(j, after, NoElement(None)), SpellJson(j) + (SpellSpaces(after) + []))
    ensures SpellJson(j) <= SpellElements(Elements(j, after, NoElement(None)))
  {
    hide SpellJson, SpellSpaces;
    var more := SpellMoreElements(NoElement(None));
    Shorter(SpellJson(j), SpellSpaces(after) + more);
    NothingFirst(more);
    After(SpellSpaces(after), [], more);
    After(SpellJson(j), SpellSpaces(after) + [], SpellSpaces(after) + more);
    ElementsAreSpelled(j, after, NoElement(None));
    assert AreMoreElements(f, NoElement(None)) && AcceptableMoreElements(f, NoElement(None));
  }

  lemma LongerElements(f: Flags, j: Json, after: seq<Space>, gap: seq<Space>, es: Elements, s: Str)
    requires IsWhole(f, j) && AllSpacing(f, after) && AllSpacing(f, gap) && ElementsExtend(f, es, s)
    ensures ElementsExtend(f, Elements(j, after, NextElements(gap, es)), SpellJson(j) + (SpellSpaces(after) + ([COMMA] + (SpellSpaces(gap) + s))))
  {
    hide SpellJson, SpellSpaces, SpellElements, IsJson, IsAcceptable, IsElements, AcceptableElements, AllSpacing;
    var a, b := [COMMA] + (SpellSpaces(gap) + s), SpellMoreElements(NextElements(gap, es));
    After(SpellSpaces(gap), s, SpellElements(es));
    After([COMMA], SpellSpaces(gap) + s, SpellSpaces(gap) + SpellElements(es));
    After(SpellSpaces(after), a, b);
    After(SpellJson(j), SpellSpaces(after) + a, SpellSpaces(after) + b);
    ElementsAre(f, j, after, gap, es);
    ElementsAreSpelled(j, after, NextElements(gap, es));
  }

  lemma ElementsAreSpelled(j: Json, after: seq<Space>, more: MoreElements)
    ensures SpellElements(Elements(j, after, more)) == SpellJson(j) + (SpellSpaces(after) + SpellMoreElements(more))
  {
  }

  lemma ElementsAre(f: Flags, j: Json, after: seq<Space>, gap: seq<Space>, es: Elements)
    requires IsWhole(f, j) && AllSpacing(f, after) && AllSpacing(f, gap) && IsElements(f, es) && AcceptableElements(f, es)
    ensures IsElements(f, Elements(j, after, NextElements(gap, es))) && AcceptableElements(f, Elements(j, after, NextElements(gap, es)))
  {
  }

  lemma {:induction false} ElementsGoOn(f: Flags, closes: bool, p: PartElements, e: Error)
    requires ArePartElements(f, closes, p, e) && IsOpen(StopOfElements(p))
    ensures ElementsExtend(f, EndedElements(p), SpellPartElements(p))
    decreases p
  {
    hide IsStop, AllSpacing, SpellSpaces, SpellElements, IsPart, StopOf, Ended, EndsJson, SpellPart, ElementsExtend, SpellJson, IsJson, IsAcceptable;
    match p
    case InElement(value) =>
      PartGoesOn(f, DueElement(closes), value, e);
      NoGap(f);
      LastElement(f, Ended(value), []);
      ShorterElements(f, Elements(Ended(value), [], NoElement(None)), SpellPart(value), SpellJson(Ended(value)), SpellJson(Ended(value)) + (SpellSpaces([]) + []));
    case PastElement(j, after, stop) =>
      NothingIsSpelled(f, DueCommaOrBracket, stop, e);
      LastElement(f, j, after);
    case LaterElement(j, after, gap, more) =>
      ElementsGoOn(f, f.trailingCommas, more, e);
      LongerElements(f, j, after, gap, EndedElements(more), SpellPartElements(more));
  }

  lemma NoGap(f: Flags)
    ensures AllSpacing(f, [])
  {
  }

  lemma ShorterElements(f: Flags, es: Elements, s: Str, t: Str, u: Str)
    requires ElementsExtend(f, es, u) && s <= t && t <= SpellElements(es)
    ensures ElementsExtend(f, es, s)
  {
  }

  // --- objects ---

  /** What the members are from the value of the first on. */
  lemma NamedExtends(f: Flags, ms: Members, s: Str)
    requires IsMembers(f, ms) && AcceptableMembers(f, ms) && s <= SpellFromValue(ms)
    ensures MembersExtend(f, ms, SpellString(ms.name) + (SpellSpaces(ms.beforeColon) + ([COLON] + (SpellSpaces(ms.afterColon) + s))))
  {
    hide SpellString, SpellSpaces, SpellFromValue, IsMembers, AcceptableMembers;
    var a, b := [COLON] + (SpellSpaces(ms.afterColon) + s), [COLON] + (SpellSpaces(ms.afterColon) + SpellFromValue(ms));
    After(SpellSpaces(ms.afterColon), s, SpellFromValue(ms));
    After([COLON], SpellSpaces(ms.afterColon) + s, SpellSpaces(ms.afterColon) + SpellFromValue(ms));
    After(SpellSpaces(ms.beforeColon), a, b);
    After(SpellString(ms.name), SpellSpaces(ms.beforeColon) + a, SpellSpaces(ms.beforeColon) + b);
  }

  /** A member that is the last. */
  function LastMember(name: seq<Char>, before: seq<Space>, gap: seq<Space>, j: Json, after: seq<Space>): Members {
    Members(name, before, gap, j, after, NoMember(None))
  }

  lemma LastMemberIs(f: Flags, name: seq<Char>, before: seq<Space>, gap: seq<Space>, j: Json, after: seq<Space>)
    requires IsName(f, name) && AllSpacing(f, before) && AllSpacing(f, gap) && IsWhole(f, j) && AllSpacing(f, after)
    ensures var ms := LastMember(name, before, gap, j, after);
            && IsMembers(f, ms) && AcceptableMembers(f, ms)
            && SpellJson(j) <= SpellFromValue(ms) && SpellJson(j) + (SpellSpaces(after) + []) <= SpellFromValue(ms)
  {
    hide SpellJson, SpellSpaces, AllSpacing, IsJson, IsAcceptable, IsString, IsPaired;
    var more := SpellMoreMembers(NoMember(None));
    NothingFirst(more);
    After(SpellSpaces(after), [], more);
    After(SpellJson(j), SpellSpaces(after) + [], SpellSpaces(after) + more);
    Shorter(SpellJson(j), SpellSpaces(after) + more);
  }

  lemma LaterMembersAre(f: Flags, name: seq<Char>, before: seq<Space>, gap: seq<Space>, j: Json, after: seq<Space>, next: seq<Space>,
                        ms: Members, s: Str)
    requires IsName(f, name) && AllSpacing(f, before) && AllSpacing(f, gap) && IsWhole(f, j) && AllSpacing(f, after)
    requires AllSpacing(f, next) && MembersExtend(f, ms, s)
    ensures var all := Members(name, before, gap, j, after, NextMembers(next, ms));
            && IsMembers(f, all) && AcceptableMembers(f, all)
            && SpellJson(j) + (SpellSpaces(after) + ([COMMA] + (SpellSpaces(next) + s))) <= SpellFromValue(all)
  {
    hide SpellJson, SpellSpaces, AllSpacing, IsJson, IsAcceptable, IsString, IsPaired, SpellMembers;
    var a, b := [COMMA] + (SpellSpaces(next) + s), SpellMoreMembers(NextMembers(next, ms));
    After(SpellSpaces(next), s, SpellMembers(ms));
    After([COMMA], SpellSpaces(next) + s, SpellSpaces(next) + SpellMembers(ms));
    After(SpellSpaces(after), a, b);
    After(SpellJson(j), SpellSpaces(after) + a, SpellSpaces(after) + b);
  }

  lemma NullIsWhole(f: Flags)
    ensures IsWhole(f, Word(NullEvent)) && AllSpacing(f, []) && IsName(f, [])
  {
  }

  /** A name that is begun. */
  lemma NameGoesOn(f: Flags, closes: bool, stop: Stop, e: Error)
    requires IsStop(f, DueName(closes), stop, e) && IsOpen(stop)
    ensures MembersExtend(f, EndedMembers(NameStops(stop)), SpellStop(stop))
  {
    NullIsWhole(f);
    var ms := EndedMembers(NameStops(stop));
    NameIsFirst(ms);
    if stop.CutString? {
      Regroup3([QUOTE], SpellChars(stop.chars), [QUOTE]);
      Shorter(SpellStop(stop), [QUOTE]);
    } else {
      NothingFirst(SpellMembers(ms));
    }
    hide SpellString, SpellMembers, SpellChars, IsBroken;
    LastMemberIs(f, ms.name, [], [], Word(NullEvent), []);
  }

  lemma NameIsFirst(ms: Members)
    ensures SpellString(ms.name) <= SpellMembers(ms)
    ensures SpellString(ms.name) + (SpellSpaces(ms.beforeColon) + []) <= SpellMembers(ms)
  {
    hide SpellString, SpellSpaces, SpellFromValue;
    var more := [COLON] + (SpellSpaces(ms.afterColon) + SpellFromValue(ms));
    Shorter(SpellString(ms.name), SpellSpaces(ms.beforeColon) + more);
    NothingFirst(more);
    After(SpellSpaces(ms.beforeColon), [], more);
    After(SpellString(ms.name), SpellSpaces(ms.beforeColon) + [], SpellSpaces(ms.beforeColon) + more);
  }

  lemma {:induction false} MembersGoOn(f: Flags, closes: bool, p: PartMembers, e: Error)
    requires ArePartMembers(f, closes, p, e) && IsOpen(StopOfMembers(p))
    ensures MembersExtend(f, EndedMembers(p), SpellPartMembers(p))
    decreases p
  {
    hide AllSpacing, SpellSpaces, SpellString, IsString, IsPaired, IsPartMember, IsMembers, AcceptableMembers, SpellMembers, StopOfMember,
      SpellPartMember, Expects, IsBroken, EndedMembers, SpellChars;
    match p
    case NameStops(stop) => NameGoesOn(f, closes, stop, e);
    case ColonStops(name, before, stop) =>
      NullIsWhole(f);
      ColonIsDue(name, before, stop);
      NameIsFirst(EndedMembers(p));
      LastMemberIs(f, name, before, [], Word(NullEvent), []);
    case PastColon(name, before, gap, member) =>
      MemberGoesOn(f, name, before, gap, member, e);
  }

  lemma ColonIsDue(name: seq<Char>, before: seq<Space>, stop: Stop)
    ensures EndedMembers(ColonStops(name, before, stop)) == LastMember(name, before, [], Word(NullEvent), [])
  {
  }

  lemma {:induction false} MemberGoesOn(f: Flags, name: seq<Char>, before: seq<Space>, gap: seq<Space>, p: PartMember, e: Error)
    requires IsName(f, name) && AllSpacing(f, before) && AllSpacing(f, gap) && IsPartMember(f, p, e) && IsOpen(StopOfMember(p))
    ensures MembersExtend(f, EndedMembers(PastColon(name, before, gap, p)), SpellPartMembers(PastColon(name, before, gap, p)))
    decreases p
  {
    hide AllSpacing, SpellSpaces, SpellString, IsString, IsPaired, IsMembers, AcceptableMembers, SpellMembers, IsPart, StopOf, Ended, IsStop,
      SpellPart, MembersExtend, SpellJson, IsJson, IsAcceptable, EndsJson, SpellFromValue;
    var ms := EndedMembers(PastColon(name, before, gap, p));
    match p {
      case InMember(value) =>
        PartGoesOn(f, DueValue, value, e);
        NoGap(f);
        LastMemberIs(f, name, before, gap, Ended(value), []);
        Chain(SpellPart(value), SpellJson(Ended(value)), SpellFromValue(ms));
      case PastMember(j, after, stop) =>
        NothingIsSpelled(f, DueCommaOrBrace, stop, e);
        LastMemberIs(f, name, before, gap, j, after);
      case LaterMember(j, after, next, more) =>
        MembersGoOn(f, f.trailingCommas, more, e);
        LaterMembersAre(f, name, before, gap, j, after, next, EndedMembers(more), SpellPartMembers(more));
    }
    NamedExtends(f, ms, SpellPartMember(p));
  }

  // --- texts ---

  lemma RootGoesOn(f: Flags, gap: seq<Space>, root: Json, after: seq<Space>, s: Str)
    requires AllSpacing(f, gap) && IsWhole(f, root) && AllSpacing(f, after) && (f.stopWhenDone ==> after == [])
    requires s <= SpellSpaces(gap) + (SpellJson(root) + (SpellSpaces(after) + []))
    ensures exists more :: ParseText(f, s + more).Ok?
  {
    hide ParseText, SpellSpaces, SpellJson, IsJson, IsAcceptable, AllSpacing;
    var d := JsonText(gap, root, after, []);
    var text := SpellJsonText(d);
    JsonTextIsRead(f, d, []);
    assert text + [] == text == s + text[|s|..];
  }

  /** What has been read up to a stop is the beginning of a text that is accepted. */
  lemma BeginningGoesOn(f: Flags, d: PartText, e: Error)
    requires IsPartText(f, d, e) && IsOpen(StopOfText(d))
    ensures exists more :: ParseText(f, SpellPartText(d) + more).Ok?
  {
    hide ParseText, SpellSpaces, SpellJson, IsJson, IsAcceptable, AllSpacing, IsStop, SpellStop, EndsJson, SpellPart, Ended, StopOf, IsPart;
    match d
    case InRoot(gap, value) =>
      PartGoesOn(f, DueRoot, value, e);
      NoGap(f);
      Shorter(SpellJson(Ended(value)), SpellSpaces([]) + []);
      NextAfter(SpellSpaces(gap), SpellPart(value), SpellJson(Ended(value)), SpellSpaces([]) + []);
      RootGoesOn(f, gap, Ended(value), [], SpellPartText(d));
    case PastRoot(gap, root, after, stop) =>
      NothingIsSpelled(f, DueEnd, stop, e);
      RootGoesOn(f, gap, root, after, SpellPartText(d));
  }

  lemma NextAfter(g: Str, a: Str, b: Str, c: Str)
    requires a <= b
    ensures g + a <= g + (b + c)
  {
  }

  // ---------------------------------------------------------------------------------------------
  // The next unit decides
  // ---------------------------------------------------------------------------------------------

  lemma StopIsSame(f: Flags, due: Due, stop: Stop, e: Error, rest: Str)
    requires IsStop(f, due, stop, e) && stop.Unexpected? && Peek(rest) == Peek(e.rest)
    ensures IsStop(f, due, stop, Error(e.code, rest))
  {
  }

  lemma StopsAfterSame(f: Flags, due: Due, j: Json, after: seq<Space>, stop: Stop, e: Error, rest: Str)
    requires StopsAfter(f, due, j, after, stop, e) && stop.Unexpected? && Peek(rest) == Peek(e.rest)
    ensures StopsAfter(f, due, j, after, stop, Error(e.code, rest))
  {
    hide IsJson, IsAcceptable, AllSpacing, IsStop, SpellSpaces;
    StopIsSame(f, due, stop, e, rest);
    SamePeek(SpellSpaces(after), stop.last, e.rest, rest);
  }

  lemma SamePeek(a: Str, b: Str, s: Str, t: Str)
    requires Peek(s) == Peek(t)
    ensures Peek(a + (b + s)) == Peek(a + (b + t))
  {
    if a == [] {
      assert a + (b + s) == b + s && a + (b + t) == b + t;
      if b == [] {
        assert b + s == s && b + t == t;
      }
    }
  }

  lemma {:induction false} PartIsSame(f: Flags, due: Due, p: Part, e: Error, rest: Str)
    requires IsPart(f, due, p, e) && StopOf(p).Unexpected? && Peek(rest) == Peek(e.rest)
    ensures IsPart(f, due, p, Error(e.code, rest))
    decreases p
  {
    hide IsStop, AllSpacing, StopsAfter;
    match p
    case ValueStops(stop) => StopIsSame(f, due, stop, e, rest);
    case InArray(_, elements) => ElementsAreSame(f, true, elements, e, rest);
    case InObject(_, members) => MembersAreSame(f, true, members, e, rest);
  }

  lemma {:induction false} ElementsAreSame(f: Flags, closes: bool, p: PartElements, e: Error, rest: Str)
    requires ArePartElements(f, closes, p, e) && StopOfElements(p).Unexpected? && Peek(rest) == Peek(e.rest)
    ensures ArePartElements(f, closes, p, Error(e.code, rest))
    decreases p
  {
    hide IsStop, AllSpacing, StopsAfter;
    match p
    case InElement(value) => PartIsSame(f, DueElement(closes), value, e, rest);
    case PastElement(j, after, stop) => StopsAfterSame(f, DueCommaOrBracket, j, after, stop, e, rest);
    case LaterElement(_, _, _, more) => ElementsAreSame(f, f.trailingCommas, more, e, rest);
  }

  lemma {:induction false} MembersAreSame(f: Flags, closes: bool, p: PartMembers, e: Error, rest: Str)
    requires ArePartMembers(f, closes, p, e) && StopOfMembers(p).Unexpected? && Peek(rest) == Peek(e.rest)
    ensures ArePartMembers(f, closes, p, Error(e.code, rest))
    decreases p
  {
    hide IsStop, AllSpacing, StopsAfter, IsName;
    match p
    case NameStops(stop) => StopIsSame(f, DueName(closes), stop, e, rest);
    case ColonStops(_, _, stop) => StopIsSame(f, DueColon, stop, e, rest);
    case PastColon(_, _, _, InMember(value)) => PartIsSame(f, DueValue, value, e, rest);
    case PastColon(_, _, _, PastMember(j, after, stop)) => StopsAfterSame(f, DueCommaOrBrace, j, after, stop, e, rest);
    case PastColon(_, _, _, LaterMember(_, _, _, more)) => MembersAreSame(f, f.trailingCommas, more, e, rest);
  }

  /**
   * Where something comes that is not due, all before it is the beginning of a text that is accepted, and whatever
   * comes after it, the text is refused at that unit and with the same error.
   */
  lemma FirstWrongUnit(f: Flags, d: PartText, e: Error)
    requires IsPartText(f, d, e) && StopOfText(d) == Unexpected([]) && e.rest != []
    ensures exists more :: ParseText(f, SpellPartText(d) + more).Ok?
    ensures forall more :: var r := ParseText(f, SpellPartText(d) + ([e.rest[0]] + more));
                           r.Err? && r.code == e.code && r.at == 1 + |more|
  {
    hide ParseText, IsStop, SpellPartText, IsPart, StopsAfter, PartTextEvents, StopOf, AllSpacing;
    BeginningGoesOn(f, d, e);
    forall more
      ensures var r := ParseText(f, SpellPartText(d) + ([e.rest[0]] + more));
              r.Err? && r.code == e.code && r.at == 1 + |more|
    {
      var rest := [e.rest[0]] + more;
      match d {
        case InRoot(_, value) => PartIsSame(f, DueRoot, value, e, rest);
        case PastRoot(_, root, after, stop) => StopsAfterSame(f, DueEnd, root, after, stop, e, rest);
      }
      PartTextIsRefused(f, d, Error(e.code, rest));
    }
  }
}
