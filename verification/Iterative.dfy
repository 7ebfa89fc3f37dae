/**
 * The table-driven parser of include/rapidjson/reader.h: Tokenize, Predict, Transit and the loop of
 * IterativeParse, and the proof that it computes what the recursive-descent parser computes.
 */
module Iterative {
  import opened Text
  import opened ParseTypes
  import opened Grammar
  import opened Number

  datatype Phase =
    | Finish
    | Error
    | Start
    | ObjectInitial
    | MemberKey
    | MemberHasValue
    | ObjectFinish
    | ArrayInitial
    | ElementHasValue
    | ArrayFinish
    | SingleValue
    | ElementDelimiter
    | MemberDelimiter
    | KeyValueDelimiter

  datatype Token =
    | LeftBracket
    | RightBracket
    | LeftCurly
    | RightCurly
    | CommaToken
    | ColonToken
    | StringToken
    | FalseToken
    | TrueToken
    | NullToken
    | NumberToken

  /** `Tokenize`. */
  function Tokenize(c: Ch): Token {
    if c == LBRACKET then LeftBracket
    else if c == RBRACKET then RightBracket
    else if c == LBRACE then LeftCurly
    else if c == RBRACE then RightCurly
    else if c == COMMA then CommaToken
    else if c == COLON then ColonToken
    else if c == QUOTE then StringToken
    else if c == LETTER_F then FalseToken
    else if c == LETTER_T then TrueToken
    else if c == LETTER_N then NullToken
    else NumberToken
  }

  /** A row of the table where a value may start; `scalar` is reached by the value of one token. */
  function ValueRow(scalar: Phase, close: Phase, t: Token): Phase {
    match t
    case LeftBracket => ArrayInitial
    case RightBracket => close
    case LeftCurly => ObjectInitial
    case RightCurly => Error
    case CommaToken => Error
    case ColonToken => Error
    case _ => scalar
  }

  /** `Predict`, row by row of its table. */
  function Predict(phase: Phase, t: Token): Phase {
    match phase
    case Start => ValueRow(SingleValue, Error, t)
    case ObjectInitial => if t.RightCurly? then ObjectFinish else if t.StringToken? then MemberKey else Error
    case MemberKey => if t.ColonToken? then KeyValueDelimiter else Error
    case MemberHasValue => if t.RightCurly? then ObjectFinish else if t.CommaToken? then MemberDelimiter else Error
    case ArrayInitial => ValueRow(ElementHasValue, ArrayFinish, t)
    case ElementHasValue => if t.RightBracket? then ArrayFinish else if t.CommaToken? then ElementDelimiter else Error
    case ElementDelimiter => ValueRow(ElementHasValue, ArrayFinish, t)
    case MemberDelimiter => if t.RightCurly? then ObjectFinish else if t.StringToken? then MemberKey else Error
    case KeyValueDelimiter => ValueRow(MemberHasValue, Error, t)
    case _ => Error
  }

  /** The number a phase has as an enumerator, which is what is pushed on the stack. */
  function Code(phase: Phase): SizeType {
    match phase
    case Finish => 0
    case Error => 1
    case Start => 2
    case ObjectInitial => 3
    case MemberKey => 4
    case MemberHasValue => 5
    case ObjectFinish => 6
    case ArrayInitial => 7
    case ElementHasValue => 8
    case ArrayFinish => 9
    case SingleValue => 10
    case ElementDelimiter => 11
    case MemberDelimiter => 12
    case KeyValueDelimiter => 13
  }

  function Decode(word: SizeType): Phase {
    if word == 0 then Finish
    else if word == 2 then Start
    else if word == 5 then MemberHasValue
    else if word == 8 then ElementHasValue
    else Error
  }

  /** The phase to come back to when the compound value started in `src` ends. */
  function ReturnPhase(src: Phase): Phase {
    if src == ArrayInitial || src == ElementDelimiter then ElementHasValue
    else if src == KeyValueDelimiter then MemberHasValue
    else src
  }

  /** The pushdown machine: its phase, its stack of words, and the parser state. */
  datatype Machine = Machine(phase: Phase, stack: seq<SizeType>, state: State)

  datatype Move =
    | Moved(machine: Machine)
    | Stuck(error: Option<(ErrorCode, nat)>, log: seq<Event>)

  function FromOutcome(r: Outcome, phase: Phase, stack: seq<SizeType>): Move {
    match r
    case Ok(st) => Moved(Machine(phase, stack, st))
    case Err(code, at, log) => Stuck(Some((code, at)), log)
  }

  function Top(stack: seq<SizeType>): SizeType
    requires stack != []
  {
    stack[|stack| - 1]
  }

  function Drop(stack: seq<SizeType>, n: nat): seq<SizeType>
    requires n <= |stack|
  {
    stack[..|stack| - n]
  }

  /** A compound value ends: its frame is popped and the phase it names is restored. */
  function Pop(m: Machine, isObject: bool, lastCounts: bool): Move
    requires |m.stack| >= 2
  {
    var c := if lastCounts then Increment(Top(m.stack)) else Top(m.stack);
    var n := Decode(Top(Drop(m.stack, 1)));
    var phase := if n == Start then Finish else n;
    Moved(Machine(phase, Drop(m.stack, 2), m.state.Emit(if isObject then EndObjectEvent(c) else EndArrayEvent(c)).Skip()))
  }

  /** `Transit`. */
  function Transit(f: Flags, m: Machine, dst: Phase): Move
    requires |m.stack| >= 2 || dst !in {MemberDelimiter, ElementDelimiter, ObjectFinish, ArrayFinish}
    requires dst == MemberKey ==> Peek(m.state.rest) == QUOTE
  {
    match dst
    case Error => Stuck(None, m.state.log)
    case ObjectInitial =>
      Moved(Machine(dst, m.stack + [Code(ReturnPhase(m.phase)), 0], m.state.Emit(StartObjectEvent).Skip()))
    case ArrayInitial =>
      Moved(Machine(dst, m.stack + [Code(ReturnPhase(m.phase)), 0], m.state.Emit(StartArrayEvent).Skip()))
    case MemberKey => FromOutcome(ParseString(f, true, m.state), dst, m.stack)
    case KeyValueDelimiter => Moved(Machine(dst, m.stack, m.state.Skip()))
    case MemberHasValue => FromOutcome(ParseValue(f, m.state), dst, m.stack)
    case ElementHasValue => FromOutcome(ParseValue(f, m.state), dst, m.stack)
    case MemberDelimiter => Moved(Machine(dst, Drop(m.stack, 1) + [Increment(Top(m.stack))], m.state.Skip()))
    case ElementDelimiter => Moved(Machine(dst, Drop(m.stack, 1) + [Increment(Top(m.stack))], m.state.Skip()))
    case ObjectFinish =>
      if !f.trailingCommas && m.phase == MemberDelimiter then Stuck(Some((ObjectMissName, |m.state.rest|)), m.state.log)
      else Pop(m, true, m.phase == MemberHasValue)
    case ArrayFinish =>
      if !f.trailingCommas && m.phase == ElementDelimiter then Stuck(Some((ValueInvalid, |m.state.rest|)), m.state.log)
      else Pop(m, false, m.phase == ElementHasValue)
    case _ => FromOutcome(ParseValue(f, m.state), Finish, m.stack)
  }

  /** The code `HandleError` gives a phase that could not move. */
  function PhaseError(phase: Phase): ErrorCode {
    match phase
    case Start => DocumentEmpty
    case Finish => DocumentRootNotSingular
    case ObjectInitial => ObjectMissName
    case MemberDelimiter => ObjectMissName
    case MemberKey => ObjectMissColon
    case MemberHasValue => ObjectMissCommaOrCurlyBracket
    case KeyValueDelimiter => ValueInvalid
    case ArrayInitial => ValueInvalid
    case ElementDelimiter => ValueInvalid
    case _ => ArrayMissCommaOrSquareBracket
  }

  // ---------------------------------------------------------------------------------------------
  // What the stack means
  // ---------------------------------------------------------------------------------------------

  predicate IsObjectPhase(phase: Phase) {
    phase in {ObjectInitial, MemberKey, MemberHasValue, MemberDelimiter, KeyValueDelimiter}
  }

  predicate IsArrayPhase(phase: Phase) {
    phase in {ArrayInitial, ElementHasValue, ElementDelimiter}
  }

  /**
   * Two words stand for one pending call: the phase to return to under the count so far. Only the
   * bottom frame returns to the start.
   */
  predicate WellFormed(phase: Phase, stack: seq<SizeType>)
    decreases |stack|
  {
    if phase == Start || phase == Finish then stack == []
    else
      && (IsObjectPhase(phase) || IsArrayPhase(phase))
      && |stack| >= 2
      && Decode(Top(Drop(stack, 1))) in {Start, MemberHasValue, ElementHasValue}
      && (phase in {ObjectInitial, ArrayInitial} ==> Top(stack) == 0)
      && WellFormed(Decode(Top(Drop(stack, 1))), Drop(stack, 2))
  }

  /**
   * What the recursive parser would still do if its pending calls were those on the stack: finish
   * the innermost one, return from it, and so on to the end of the text.
   */
  function Resume(f: Flags, phase: Phase, stack: seq<SizeType>, st: State): Outcome
    requires WellFormed(phase, stack)
    decreases |stack|, 1
  {
    match phase
    case Finish => TextEnd(st)
    case Start => Root(f, st)
    case ObjectInitial => Return(f, stack, ObjectFirst(f, st))
    case MemberKey => Return(f, stack, MemberColon(f, Top(stack), st))
    case KeyValueDelimiter => Return(f, stack, MemberValue(f, Top(stack), st))
    case MemberHasValue => Return(f, stack, MemberEnd(f, Increment(Top(stack)), st))
    case MemberDelimiter => Return(f, stack, MemberAfterComma(f, Top(stack), st))
    case ArrayInitial => Return(f, stack, ArrayFirst(f, st))
    case ElementHasValue => Return(f, stack, ElementEnd(f, Increment(Top(stack)), st))
    case ElementDelimiter => Return(f, stack, ElementAfterComma(f, Top(stack), st))
  }

  /** The innermost call has come back with `r`. */
  function Return(f: Flags, stack: seq<SizeType>, r: Outcome): Outcome
    requires |stack| >= 2
    requires Decode(Top(Drop(stack, 1))) in {Start, MemberHasValue, ElementHasValue}
    requires WellFormed(Decode(Top(Drop(stack, 1))), Drop(stack, 2))
    decreases |stack|, 0
  {
    var st :- r;
    Continue(f, Decode(Top(Drop(stack, 1))), Drop(stack, 2), st)
  }

  /** A compound value has ended in a call that returns to `phase`. */
  function Continue(f: Flags, phase: Phase, stack: seq<SizeType>, st: State): Outcome
    requires phase in {Start, MemberHasValue, ElementHasValue} && WellFormed(phase, stack)
    decreases |stack|, 2
  {
    if phase == Start then AfterRoot(f, st)
    else
      var st1 :- SkipSpace(f, st);
      Resume(f, phase, stack, st1)
  }

  // ---------------------------------------------------------------------------------------------
  // The loop
  // ---------------------------------------------------------------------------------------------

  predicate CanMove(m: Machine) {
    WellFormed(m.phase, m.stack) && Peek(m.state.rest) != NUL
  }

  function Step(f: Flags, m: Machine): Move
    requires CanMove(m)
  {
    Transit(f, m, Predict(m.phase, Tokenize(Peek(m.state.rest))))
  }

  // ---------------------------------------------------------------------------------------------
  // The simulation
  // ---------------------------------------------------------------------------------------------

  /** What is left to do after a move, in the recursive parser's terms. */
  function AfterMove(f: Flags, m: Machine): Outcome
    requires WellFormed(m.phase, m.stack)
  {
    if f.stopWhenDone && m.phase == Finish then Ok(m.state)
    else
      var st :- SkipSpace(f, m.state);
      Resume(f, m.phase, m.stack, st)
  }

  /** A move takes text, keeps the stack well formed and never comes back to the start. */
  predicate IsSound(m: Machine, move: Move) {
    match move
    case Stuck(_, _) => true
    case Moved(m') => m'.phase != Start && |m'.state.rest| < |m.state.rest| && WellFormed(m'.phase, m'.stack)
  }

  /** What comes of a move, in the recursive parser's terms. */
  function Proceed(f: Flags, m: Machine, move: Move): Outcome
    requires IsSound(m, move)
  {
    match move
    case Stuck(Some((code, at)), log) => Err(code, at, log)
    case Stuck(None, log) => Err(PhaseError(m.phase), |m.state.rest|, log)
    case Moved(m') => AfterMove(f, m')
  }

  /** The move leaves the recursive parser with the same work and the same result. */
  predicate Simulates(f: Flags, m: Machine, move: Move)
    requires WellFormed(m.phase, m.stack)
  {
    IsSound(m, move) && Resume(f, m.phase, m.stack, m.state) == Proceed(f, m, move)
  }

  /** A character that starts neither a value nor a number. */
  predicate IsStray(c: Ch) {
    c in {RBRACKET, RBRACE, COMMA, COLON}
  }

  lemma StrayIsNoValue(f: Flags, st: State)
    requires IsStray(Peek(st.rest)) || Peek(st.rest) == NUL
    ensures ParseValue(f, st) == Fail(ValueInvalid, st)
  {
    assert ScanInteger(st.rest) == BadInteger(|st.rest|);
  }

  // --- values ---

  predicate ValueDue(phase: Phase) {
    phase in {Start, KeyValueDelimiter, ArrayInitial, ElementDelimiter}
  }

  /** A value has been read where one was due: back to the call that waits for it. */
  function AfterValue(f: Flags, phase: Phase, stack: seq<SizeType>, r: Outcome): Outcome
    requires ValueDue(phase) && WellFormed(phase, stack)
  {
    var st :- r;
    Continue(f, ReturnPhase(phase), stack, st)
  }

  lemma ResumeReadsMember(f: Flags, stack: seq<SizeType>, st: State)
    requires WellFormed(KeyValueDelimiter, stack)
    ensures Resume(f, KeyValueDelimiter, stack, st) == AfterValue(f, KeyValueDelimiter, stack, ParseValue(f, st))
  {
    hide ParseValue, SkipSpace, MemberEnd;
    var r := ParseValue(f, st);
    if r.Ok? && SkipSpace(f, r.state).Ok? {
      var st2 := SkipSpace(f, r.state).state;
      assert Continue(f, MemberHasValue, stack, r.state) == Resume(f, MemberHasValue, stack, st2);
      assert MemberValue(f, Top(stack), st) == MemberEnd(f, Increment(Top(stack)), st2);
    }
  }

  lemma ResumeReadsElement(f: Flags, phase: Phase, stack: seq<SizeType>, st: State)
    requires phase in {ArrayInitial, ElementDelimiter} && WellFormed(phase, stack) && Peek(st.rest) != RBRACKET
    ensures Resume(f, phase, stack, st) == AfterValue(f, phase, stack, ParseValue(f, st))
  {
    hide ParseValue, SkipSpace, ElementEnd;
    var r := ParseValue(f, st);
    assert Resume(f, phase, stack, st) == Return(f, stack, NextElement(f, Top(stack), st));
    if r.Ok? && SkipSpace(f, r.state).Ok? {
      var st2 := SkipSpace(f, r.state).state;
      assert Continue(f, ElementHasValue, stack, r.state) == Resume(f, ElementHasValue, stack, st2);
      assert NextElement(f, Top(stack), st) == ElementEnd(f, Increment(Top(stack)), st2);
    }
  }

  lemma ResumeReadsValue(f: Flags, phase: Phase, stack: seq<SizeType>, st: State)
    requires ValueDue(phase) && WellFormed(phase, stack) && Peek(st.rest) != NUL
    requires Peek(st.rest) == RBRACKET ==> phase in {Start, KeyValueDelimiter}
    ensures Resume(f, phase, stack, st) == AfterValue(f, phase, stack, ParseValue(f, st))
  {
    if phase == KeyValueDelimiter {
      ResumeReadsMember(f, stack, st);
    } else if phase != Start {
      ResumeReadsElement(f, phase, stack, st);
    }
  }

  lemma ReturnPhaseIsWellFormed(phase: Phase, stack: seq<SizeType>)
    requires WellFormed(phase, stack) && ValueDue(phase)
    ensures WellFormed(ReturnPhase(phase), stack)
    ensures Decode(Code(ReturnPhase(phase))) == ReturnPhase(phase)
    ensures ReturnPhase(phase) in {Start, MemberHasValue, ElementHasValue}
  {
  }

  lemma PushedFrame(phase: Phase, stack: seq<SizeType>)
    ensures var pushed := stack + [Code(phase), 0];
            && Top(pushed) == 0 && Top(Drop(pushed, 1)) == Code(phase) && Drop(pushed, 2) == stack
  {
  }

  /** The frame pushed on entering a compound value is the one that coming back from it pops. */
  lemma EnterFrame(f: Flags, phase: Phase, stack: seq<SizeType>, body: Phase, r: Outcome)
    requires WellFormed(phase, stack) && ValueDue(phase) && body in {ObjectInitial, ArrayInitial}
    ensures var pushed := stack + [Code(ReturnPhase(phase)), 0];
            && Top(pushed) == 0 && WellFormed(body, pushed)
            && Return(f, pushed, r) == AfterValue(f, phase, stack, r)
  {
    ReturnPhaseIsWellFormed(phase, stack);
    PushedFrame(ReturnPhase(phase), stack);
    var pushed := stack + [Code(ReturnPhase(phase)), 0];
    assert WellFormed(body, pushed);
    assert r.Ok? ==> Return(f, pushed, r) == Continue(f, ReturnPhase(phase), stack, r.state);
  }

  /** Inside a compound value just entered, the work left is the value's body and then the caller's. */
  lemma EnteredObject(f: Flags, phase: Phase, stack: seq<SizeType>, st: State)
    requires WellFormed(phase, stack) && ValueDue(phase)
    ensures var inside := Machine(ObjectInitial, stack + [Code(ReturnPhase(phase)), 0], st);
            && WellFormed(inside.phase, inside.stack)
            && AfterMove(f, inside) == AfterValue(f, phase, stack, ObjectBody(f, st))
  {
    hide SkipSpace, ObjectFirst, Return, Continue, WellFormed;
    var r := SkipSpace(f, st);
    EnterFrame(f, phase, stack, ObjectInitial, if r.Ok? then ObjectFirst(f, r.state) else r);
  }

  lemma EnteredArray(f: Flags, phase: Phase, stack: seq<SizeType>, st: State)
    requires WellFormed(phase, stack) && ValueDue(phase)
    ensures var inside := Machine(ArrayInitial, stack + [Code(ReturnPhase(phase)), 0], st);
            && WellFormed(inside.phase, inside.stack)
            && AfterMove(f, inside) == AfterValue(f, phase, stack, ArrayBody(f, st))
  {
    hide SkipSpace, ArrayFirst, Return, Continue, WellFormed;
    var r := SkipSpace(f, st);
    EnterFrame(f, phase, stack, ArrayInitial, if r.Ok? then ArrayFirst(f, r.state) else r);
  }

  lemma EnterObjectSimulates(f: Flags, m: Machine)
    requires CanMove(m) && ValueDue(m.phase) && Peek(m.state.rest) == LBRACE
    ensures Simulates(f, m, Step(f, m))
  {
    var st := m.state.Emit(StartObjectEvent).Skip();
    ObjectEntered(f, m);
    hide Step, Resume, AfterMove, AfterValue, ParseValue, ObjectBody, WellFormed;
    ResumeReadsValue(f, m.phase, m.stack, m.state);
    EnteredObject(f, m.phase, m.stack, st);
  }

  /** A brace where a value is due: the frame pushed, and what the recursive parser would do. */
  lemma ObjectEntered(f: Flags, m: Machine)
    requires CanMove(m) && ValueDue(m.phase) && Peek(m.state.rest) == LBRACE
    ensures var st := m.state.Emit(StartObjectEvent).Skip();
            && |st.rest| < |m.state.rest| && ParseValue(f, m.state) == ObjectBody(f, st)
            && Step(f, m) == Moved(Machine(ObjectInitial, m.stack + [Code(ReturnPhase(m.phase)), 0], st))
  {
    hide WellFormed, ObjectBody, Resume;
    var st := m.state.Emit(StartObjectEvent).Skip();
    assert ParseValue(f, m.state) == ObjectBody(f, st);
  }

  lemma EnterArraySimulates(f: Flags, m: Machine)
    requires CanMove(m) && ValueDue(m.phase) && Peek(m.state.rest) == LBRACKET
    ensures Simulates(f, m, Step(f, m))
  {
    var st := m.state.Emit(StartArrayEvent).Skip();
    ArrayEntered(f, m);
    hide Step, Resume, AfterMove, AfterValue, ParseValue, ArrayBody, WellFormed;
    ResumeReadsValue(f, m.phase, m.stack, m.state);
    EnteredArray(f, m.phase, m.stack, st);
  }

  lemma ArrayEntered(f: Flags, m: Machine)
    requires CanMove(m) && ValueDue(m.phase) && Peek(m.state.rest) == LBRACKET
    ensures var st := m.state.Emit(StartArrayEvent).Skip();
            && |st.rest| < |m.state.rest| && ParseValue(f, m.state) == ArrayBody(f, st)
            && Step(f, m) == Moved(Machine(ArrayInitial, m.stack + [Code(ReturnPhase(m.phase)), 0], st))
  {
    hide WellFormed, ArrayBody, Resume;
    var st := m.state.Emit(StartArrayEvent).Skip();
    assert ParseValue(f, m.state) == ArrayBody(f, st);
  }

  /** After a value of one token, the work left is the caller's. */
  lemma AfterScalar(f: Flags, phase: Phase, stack: seq<SizeType>, st: State)
    requires WellFormed(phase, stack) && ValueDue(phase)
    ensures var after := Machine(if phase == Start then Finish else ReturnPhase(phase), stack, st);
            && WellFormed(after.phase, after.stack)
            && AfterMove(f, after) == Continue(f, ReturnPhase(phase), stack, st)
  {
    ReturnPhaseIsWellFormed(phase, stack);
  }

  /** A value of one token. */
  lemma ScalarSimulates(f: Flags, m: Machine)
    requires CanMove(m) && ValueDue(m.phase)
    requires !IsStray(Peek(m.state.rest)) && Peek(m.state.rest) !in {LBRACE, LBRACKET}
    ensures Simulates(f, m, Step(f, m))
  {
    ScalarTaken(f, m);
    hide Step, Resume, AfterMove, ParseValue, WellFormed, Continue;
    ResumeReadsValue(f, m.phase, m.stack, m.state);
    var r := ParseValue(f, m.state);
    if r.Ok? {
      AfterScalar(f, m.phase, m.stack, r.state);
    }
  }

  lemma ScalarTaken(f: Flags, m: Machine)
    requires CanMove(m) && ValueDue(m.phase)
    requires !IsStray(Peek(m.state.rest)) && Peek(m.state.rest) !in {LBRACE, LBRACKET}
    ensures Step(f, m) == FromOutcome(ParseValue(f, m.state), if m.phase == Start then Finish else ReturnPhase(m.phase), m.stack)
  {
    hide WellFormed, ParseValue, Resume;
  }

  /** A stray character where a value is due, other than a bracket that ends an array. */
  lemma StraySimulates(f: Flags, m: Machine)
    requires CanMove(m) && ValueDue(m.phase) && m.phase != Start && IsStray(Peek(m.state.rest))
    requires Peek(m.state.rest) == RBRACKET ==> m.phase == KeyValueDelimiter
    ensures Simulates(f, m, Step(f, m))
  {
    StrayIsNoValue(f, m.state);
    ResumeReadsValue(f, m.phase, m.stack, m.state);
    assert Step(f, m) == Stuck(None, m.state.log);
  }

  // --- the ends of compound values ---

  /** The state once the closing bracket has been taken and the end of the compound value reported. */
  function Closed(m: Machine, isObject: bool, lastCounts: bool): State
    requires m.stack != []
  {
    var c := if lastCounts then Increment(Top(m.stack)) else Top(m.stack);
    m.state.Skip().Emit(if isObject then EndObjectEvent(c) else EndArrayEvent(c))
  }

  lemma PopSimulates(f: Flags, m: Machine, isObject: bool, lastCounts: bool)
    requires CanMove(m) && |m.stack| >= 2
    requires WellFormed(Decode(Top(Drop(m.stack, 1))), Drop(m.stack, 2))
    requires Decode(Top(Drop(m.stack, 1))) in {Start, MemberHasValue, ElementHasValue}
    requires Resume(f, m.phase, m.stack, m.state) == Return(f, m.stack, Ok(Closed(m, isObject, lastCounts)))
    ensures Simulates(f, m, Pop(m, isObject, lastCounts))
  {
    var m' := Pop(m, isObject, lastCounts).machine;
    var n := Decode(Top(Drop(m.stack, 1)));
    assert WellFormed(m'.phase, m'.stack);
    assert Continue(f, n, Drop(m.stack, 2), m'.state) == AfterMove(f, m');
  }

  /** Returning looks only at the frame below the count. */
  lemma CountDoesNotMatter(f: Flags, stack: seq<SizeType>, count: SizeType, r: Outcome)
    requires |stack| >= 2
    requires Decode(Top(Drop(stack, 1))) in {Start, MemberHasValue, ElementHasValue}
    requires WellFormed(Decode(Top(Drop(stack, 1))), Drop(stack, 2))
    ensures var counted := Drop(stack, 1) + [count];
            && Drop(counted, 1) == Drop(stack, 1) && Drop(counted, 2) == Drop(stack, 2) && Top(counted) == count
            && Return(f, counted, r) == Return(f, stack, r)
  {
    var counted := Drop(stack, 1) + [count];
    assert Drop(counted, 1) == Drop(stack, 1) && Drop(counted, 2) == Drop(stack, 2);
  }

  lemma MemberCommaSimulates(f: Flags, m: Machine)
    requires CanMove(m) && m.phase == MemberHasValue && Peek(m.state.rest) == COMMA
    ensures Simulates(f, m, Step(f, m))
  {
    var c := Increment(Top(m.stack));
    var counted := Drop(m.stack, 1) + [c];
    CountDoesNotMatter(f, m.stack, c, Ok(m.state));
    var r := SkipSpace(f, m.state.Skip());
    assert Step(f, m) == Moved(Machine(MemberDelimiter, counted, m.state.Skip()));
    assert WellFormed(MemberDelimiter, counted);
    if r.Ok? {
      CountDoesNotMatter(f, m.stack, c, MemberAfterComma(f, c, r.state));
    }
  }

  lemma ElementCommaSimulates(f: Flags, m: Machine)
    requires CanMove(m) && m.phase == ElementHasValue && Peek(m.state.rest) == COMMA
    ensures Simulates(f, m, Step(f, m))
  {
    var c := Increment(Top(m.stack));
    var counted := Drop(m.stack, 1) + [c];
    CountDoesNotMatter(f, m.stack, c, Ok(m.state));
    var r := SkipSpace(f, m.state.Skip());
    assert Step(f, m) == Moved(Machine(ElementDelimiter, counted, m.state.Skip()));
    assert WellFormed(ElementDelimiter, counted);
    if r.Ok? {
      CountDoesNotMatter(f, m.stack, c, ElementAfterComma(f, c, r.state));
    }
  }

  lemma NameSimulates(f: Flags, m: Machine)
    requires CanMove(m) && m.phase in {ObjectInitial, MemberDelimiter} && Peek(m.state.rest) == QUOTE
    ensures Simulates(f, m, Step(f, m))
  {
    var r := ParseString(f, true, m.state);
    assert Resume(f, m.phase, m.stack, m.state) == Return(f, m.stack, NextMember(f, Top(m.stack), m.state));
    if r.Ok? {
      assert WellFormed(MemberKey, m.stack);
    }
  }

  lemma ColonSimulates(f: Flags, m: Machine)
    requires CanMove(m) && m.phase == MemberKey && Peek(m.state.rest) == COLON
    ensures Simulates(f, m, Step(f, m))
  {
    assert WellFormed(KeyValueDelimiter, m.stack);
  }

  // --- the phases ---

  /** A value, or something else, where a value is due. */
  lemma ValueDueSimulates(f: Flags, m: Machine)
    requires CanMove(m) && ValueDue(m.phase)
    requires m.phase == Start ==> !IsStray(Peek(m.state.rest))
    ensures Simulates(f, m, Step(f, m))
  {
    var c := Peek(m.state.rest);
    if c == LBRACE {
      EnterObjectSimulates(f, m);
    } else if c == LBRACKET {
      EnterArraySimulates(f, m);
    } else if !IsStray(c) {
      ScalarSimulates(f, m);
    } else if c == RBRACKET && m.phase != KeyValueDelimiter {
      ArrayEndSimulates(f, m);
    } else {
      StraySimulates(f, m);
    }
  }

  lemma ArrayEndSimulates(f: Flags, m: Machine)
    requires CanMove(m) && m.phase in {ArrayInitial, ElementDelimiter} && Peek(m.state.rest) == RBRACKET
    ensures Simulates(f, m, Step(f, m))
  {
    if m.phase == ArrayInitial || f.trailingCommas {
      PopSimulates(f, m, false, false);
    } else {
      StrayIsNoValue(f, m.state);
      assert NextElement(f, Top(m.stack), m.state) == Fail(ValueInvalid, m.state);
    }
  }

  lemma AfterValueSimulates(f: Flags, m: Machine)
    requires CanMove(m) && m.phase in {MemberHasValue, ElementHasValue}
    ensures Simulates(f, m, Step(f, m))
  {
    var c := Peek(m.state.rest);
    if c == COMMA && m.phase == MemberHasValue {
      MemberCommaSimulates(f, m);
    } else if c == COMMA {
      ElementCommaSimulates(f, m);
    } else if c == RBRACE && m.phase == MemberHasValue {
      PopSimulates(f, m, true, true);
    } else if c == RBRACKET && m.phase == ElementHasValue {
      PopSimulates(f, m, false, true);
    }
  }

  lemma NameDueSimulates(f: Flags, m: Machine)
    requires CanMove(m) && m.phase in {ObjectInitial, MemberDelimiter}
    ensures Simulates(f, m, Step(f, m))
  {
    var c := Peek(m.state.rest);
    if c == QUOTE {
      NameSimulates(f, m);
    } else if c == RBRACE && (m.phase == ObjectInitial || f.trailingCommas) {
      PopSimulates(f, m, true, false);
    } else {
      assert NextMember(f, Top(m.stack), m.state) == Fail(ObjectMissName, m.state);
    }
  }

  lemma StepSimulates(f: Flags, m: Machine)
    requires CanMove(m)
    requires m.phase == Start ==> !IsStray(Peek(m.state.rest))
    ensures Simulates(f, m, Step(f, m))
  {
    if ValueDue(m.phase) {
      ValueDueSimulates(f, m);
    } else if m.phase == MemberKey {
      if Peek(m.state.rest) == COLON {
        ColonSimulates(f, m);
      }
    } else if m.phase in {MemberHasValue, ElementHasValue} {
      AfterValueSimulates(f, m);
    } else if m.phase != Finish {
      NameDueSimulates(f, m);
    }
  }

  /** From a stray root the machine gets stuck at once. */
  lemma StrayRootIsStuck(f: Flags, m: Machine)
    requires CanMove(m) && m.phase == Start && IsStray(Peek(m.state.rest))
    ensures Step(f, m) == Stuck(None, m.state.log)
  {
  }

  lemma StepIsWellFormed(f: Flags, m: Machine)
    requires CanMove(m)
    ensures var move := Step(f, m);
            move.Moved? ==>
              && WellFormed(move.machine.phase, move.machine.stack)
              && |move.machine.state.rest| < |m.state.rest|
              && move.machine.phase != Start
  {
    if m.phase == Start && IsStray(Peek(m.state.rest)) {
      StrayRootIsStuck(f, m);
    } else {
      StepSimulates(f, m);
    }
  }

  /** The loop of `IterativeParse`, entered with the space before the next token skipped. */
  function Run(f: Flags, m: Machine): Outcome
    requires WellFormed(m.phase, m.stack)
    decreases |m.state.rest|
  {
    if Peek(m.state.rest) == NUL then
      if m.phase == Finish then Ok(m.state) else Fail(PhaseError(m.phase), m.state)
    else
      StepIsWellFormed(f, m);
      match Step(f, m)
      case Stuck(Some((code, at)), log) => Err(code, at, log)
      case Stuck(None, log) => Err(PhaseError(m.phase), |m.state.rest|, log)
      case Moved(m') =>
        if f.stopWhenDone && m'.phase == Finish then Ok(m'.state)
        else
          var st :- SkipSpace(f, m'.state);
          Run(f, m'.(state := st))
  }

  /** `IterativeParse` of a whole text. */
  function IterativeParse(f: Flags, text: Str): Outcome {
    var st :- SkipSpace(f, State(text, []));
    Run(f, Machine(Start, [], st))
  }

  /** At the end of the text the recursive parser fails as the phase says. */
  lemma EndSimulates(f: Flags, m: Machine)
    requires WellFormed(m.phase, m.stack) && Peek(m.state.rest) == NUL
    ensures Resume(f, m.phase, m.stack, m.state)
         == if m.phase == Finish then Ok(m.state) else Fail(PhaseError(m.phase), m.state)
  {
    StrayIsNoValue(f, m.state);
    if m.phase != Finish && m.phase != Start {
      var inner := Fail(PhaseError(m.phase), m.state);
      var top := Top(m.stack);
      assert m.phase == KeyValueDelimiter ==> MemberValue(f, top, m.state) == inner;
      assert m.phase in {ArrayInitial, ElementDelimiter} ==> NextElement(f, top, m.state) == inner;
      assert m.phase in {ObjectInitial, MemberDelimiter} ==> NextMember(f, top, m.state) == inner;
      assert Return(f, m.stack, inner) == inner;
      assert Resume(f, m.phase, m.stack, m.state) == Return(f, m.stack, inner);
    }
  }

  /** The loop does what the recursive parser would do with the calls that the stack stands for. */
  lemma {:induction false} RunIsResume(f: Flags, m: Machine)
    requires WellFormed(m.phase, m.stack)
    requires m.phase == Start ==> !IsStray(Peek(m.state.rest))
    ensures Run(f, m) == Resume(f, m.phase, m.stack, m.state)
    decreases |m.state.rest|
  {
    if Peek(m.state.rest) == NUL {
      EndSimulates(f, m);
    } else {
      StepSimulates(f, m);
      var move := Step(f, m);
      if move.Moved? && !(f.stopWhenDone && move.machine.phase == Finish) {
        var r := SkipSpace(f, move.machine.state);
        if r.Ok? {
          RunIsResume(f, move.machine.(state := r.state));
        }
      }
    }
  }

  /** The text starts, after space and comments, with a character no value starts with. */
  predicate HasStrayRoot(f: Flags, text: Str) {
    var r := SkipSpace(f, State(text, []));
    r.Ok? && IsStray(Peek(r.state.rest))
  }

  /**
   * The table-driven parser refines the recursive one: the same verdict, unread text, events with
   * their counts, error code and error offset, for all flags and all texts. The one exception is a
   * text whose root is a stray bracket, comma or colon: both reject it at the same place and without
   * events, the one as an invalid value, the other as an empty document.
   */
  lemma IterativeRefinesRecursive(f: Flags, text: Str)
    ensures !HasStrayRoot(f, text) ==> IterativeParse(f, text) == ParseText(f, text)
    ensures HasStrayRoot(f, text) ==>
              && ParseText(f, text).Err? && ParseText(f, text) == Err(ValueInvalid, ParseText(f, text).at, [])
              && IterativeParse(f, text) == Err(DocumentEmpty, ParseText(f, text).at, [])
  {
    var r := SkipSpace(f, State(text, []));
    if r.Ok? {
      if IsStray(Peek(r.state.rest)) {
        StrayIsNoValue(f, r.state);
        StrayRootIsStuck(f, Machine(Start, [], r.state));
      } else {
        RunIsResume(f, Machine(Start, [], r.state));
      }
    }
  }

  /** The two parsers return the same thing exactly when the root is not stray. */
  lemma SameResultIff(f: Flags, text: Str)
    ensures IterativeParse(f, text) == ParseText(f, text) <==> !HasStrayRoot(f, text)
  {
    IterativeRefinesRecursive(f, text);
  }
}
