/**
 * The DOM of include/rapidjson/document.h: number values with their type flags, walking a value
 * with Accept, and building one from events on the handler stack of GenericDocument.
 */
module Document {
  import opened Text
  import opened ParseTypes
  import opened Values
  import opened Number

  // ---------------------------------------------------------------------------------------------
  // Integers
  // ---------------------------------------------------------------------------------------------

  const TWO64: int := UINT64_MAX + 1

  /** The word holding `i`, two's complement when negative. */
  function ToWord(i: int): Word
    requires Fits64(i)
  {
    if i < 0 then i + TWO64 else i
  }

  function GetInt(w: Word): int {
    Signed(w % (UINT32_MAX + 1), UINT32_MAX + 1)
  }

  function GetUint(w: Word): int {
    w % (UINT32_MAX + 1)
  }

  function GetInt64(w: Word): int {
    Signed(w, TWO64)
  }

  function GetUint64(w: Word): int {
    w
  }

  predicate InInt(i: int) {
    -INT32_MAX - 1 <= i <= INT32_MAX
  }

  predicate InUint(i: int) {
    0 <= i <= UINT32_MAX
  }

  predicate InInt64(i: int) {
    -INT64_MAX - 1 <= i <= INT64_MAX
  }

  predicate InUint64(i: int) {
    0 <= i <= UINT64_MAX
  }

  /** The four integer constructors; the source's bit tests are written as the comparisons they make. */
  function FromInt(i: int): Value
    requires InInt(i)
  {
    Int(ToWord(i), if i >= 0 then {IntFlag, Int64Flag, UintFlag, Uint64Flag} else {IntFlag, Int64Flag})
  }

  function FromUint(u: int): Value
    requires InUint(u)
  {
    Int(u, if u >= 0x8000_0000 then {UintFlag, Uint64Flag, Int64Flag} else {UintFlag, Uint64Flag, Int64Flag, IntFlag})
  }

  function FromInt64(i: int): Value
    requires InInt64(i)
  {
    var extra :=
      if i >= 0 then
        {Uint64Flag} + (if i < 0x1_0000_0000 then {UintFlag} else {}) + (if i < 0x8000_0000 then {IntFlag} else {})
      else if i >= Signed(0xFFFF_FFFF_8000_0000, TWO64) then {IntFlag}
      else {};
    Int(ToWord(i), {Int64Flag} + extra)
  }

  function FromUint64(u: int): Value
    requires InUint64(u)
  {
    Int(u, {Uint64Flag}
             + (if u < 0x8000_0000_0000_0000 then {Int64Flag} else {})
             + (if u < 0x1_0000_0000 then {UintFlag} else {})
             + (if u < 0x8000_0000 then {IntFlag} else {}))
  }

  /** The integer types that can hold `i`. */
  function TypesOf(i: int): set<TypeFlag> {
    (if InInt(i) then {IntFlag} else {}) + (if InUint(i) then {UintFlag} else {})
    + (if InInt64(i) then {Int64Flag} else {}) + (if InUint64(i) then {Uint64Flag} else {})
  }

  /** The value of an integer, whichever constructor made it. */
  function OfInt(i: int): Value
    requires Fits64(i)
  {
    Int(ToWord(i), TypesOf(i))
  }

  /** Each constructor sets exactly the flags of the integer types that can hold the value. */
  lemma ConstructorsAgree(i: int)
    ensures InInt(i) ==> FromInt(i) == OfInt(i)
    ensures InUint(i) ==> FromUint(i) == OfInt(i)
    ensures InInt64(i) ==> FromInt64(i) == OfInt(i)
    ensures InUint64(i) ==> FromUint64(i) == OfInt(i)
  {
  }

  /** Each getter gives the value back when its flag is set. */
  lemma GettersAgree(i: int)
    requires Fits64(i)
    ensures InInt(i) ==> GetInt(ToWord(i)) == i
    ensures InUint(i) ==> GetUint(ToWord(i)) == i
    ensures InInt64(i) ==> GetInt64(ToWord(i)) == i
    ensures InUint64(i) ==> GetUint64(ToWord(i)) == i
  {
    if i < 0 && InInt(i) {
      assert (i + TWO64) % (UINT32_MAX + 1) == i + UINT32_MAX + 1;
    }
  }

  /** The event of `Accept` for an integer value, by the order in which it tests the flags. */
  function IntegerEventOf(word: Word, flags: set<TypeFlag>): Event {
    if IntFlag in flags then IntEvent(GetInt(word))
    else if UintFlag in flags then UintEvent(GetUint(word))
    else if Int64Flag in flags then Int64Event(GetInt64(word))
    else Uint64Event(GetUint64(word))
  }

  // ---------------------------------------------------------------------------------------------
  // Accept
  // ---------------------------------------------------------------------------------------------

  /** Every integer was made by a constructor, and every count fits `SizeType`. */
  predicate IsValid(v: Value) {
    match v
    case Int(word, _) => v == OfInt(GetInt64(word)) || v == OfInt(GetUint64(word))
    case Array(elements) => |elements| < 0x1_0000_0000 && forall e :: e in elements ==> IsValid(e)
    case Object(members) => |members| < 0x1_0000_0000 && forall m :: m in members ==> IsValid(m.value)
    case _ => true
  }

  /** `Accept`. */
  function Accept(v: Value): seq<Event>
    requires IsValid(v)
    decreases v
  {
    match v
    case Null => [NullEvent]
    case Bool(b) => [BoolEvent(b)]
    case Int(word, flags) => [IntegerEventOf(word, flags)]
    case Double(bits) => [DoubleEvent(bits)]
    case String(str) => [StringEvent(str)]
    case Array(elements) => [StartArrayEvent] + AcceptElements(v, 0) + [EndArrayEvent(|elements|)]
    case Object(members) => [StartObjectEvent] + AcceptMembers(v, 0) + [EndObjectEvent(|members|)]
  }

  /** The events of the elements of an array from index `k` on. */
  function AcceptElements(v: Value, k: nat): seq<Event>
    requires v.Array? && IsValid(v) && k <= |v.elements|
    decreases v, |v.elements| - k
  {
    if k == |v.elements| then [] else Accept(v.elements[k]) + AcceptElements(v, k + 1)
  }

  function AcceptMembers(v: Value, k: nat): seq<Event>
    requires v.Object? && IsValid(v) && k <= |v.members|
    decreases v, |v.members| - k
  {
    if k == |v.members| then []
    else [KeyEvent(v.members[k].name)] + Accept(v.members[k].value) + AcceptMembers(v, k + 1)
  }

  // ---------------------------------------------------------------------------------------------
  // The handler
  // ---------------------------------------------------------------------------------------------

  /** `count` name-value pairs lying on the stack as adjacent values, names being strings. */
  predicate ArePairs(pairs: seq<Value>) {
    |pairs| % 2 == 0 && forall k :: 0 <= k < |pairs| / 2 ==> pairs[2 * k].String?
  }

  function ToMembers(pairs: seq<Value>): seq<Member>
    requires ArePairs(pairs)
  {
    seq(|pairs| / 2, k requires 0 <= k < |pairs| / 2 => Member(pairs[2 * k].str, pairs[2 * k + 1]))
  }

  /** An event's values are in range for its constructor. */
  predicate InEventRange(e: Event) {
    match e
    case IntEvent(i) => InInt(i)
    case UintEvent(u) => InUint(u)
    case Int64Event(i) => InInt64(i)
    case Uint64Event(u) => InUint64(u)
    case _ => true
  }

  /**
   * One handler call. None stands for a failed assertion of the stack: too few values for the count,
   * or a member whose name is not a string.
   */
  function Handle(stack: seq<Value>, e: Event): Option<seq<Value>>
    requires InEventRange(e)
  {
    match e
    case NullEvent => Some(stack + [Null])
    case BoolEvent(b) => Some(stack + [Bool(b)])
    case IntEvent(i) => Some(stack + [FromInt(i)])
    case UintEvent(u) => Some(stack + [FromUint(u)])
    case Int64Event(i) => Some(stack + [FromInt64(i)])
    case Uint64Event(u) => Some(stack + [FromUint64(u)])
    case DoubleEvent(bits) => Some(stack + [Double(bits)])
    case StringEvent(str) => Some(stack + [String(str)])
    case KeyEvent(str) => Some(stack + [String(str)])
    case StartObjectEvent => Some(stack + [Object([])])
    case StartArrayEvent => Some(stack + [Array([])])
    case EndObjectEvent(count) =>
      if |stack| < 2 * count + 1 then None
      else
        var base := |stack| - 2 * count;
        if !ArePairs(stack[base..]) then None
        else Some(stack[..base - 1] + [Object(ToMembers(stack[base..]))])
    case EndArrayEvent(count) =>
      if |stack| < count + 1 then None
      else
        var base := |stack| - count;
        Some(stack[..base - 1] + [Array(stack[base..])])
  }

  predicate AllInRange(events: seq<Event>) {
    forall e :: e in events ==> InEventRange(e)
  }

  function Build(stack: seq<Value>, events: seq<Event>): Option<seq<Value>>
    requires AllInRange(events)
    decreases |events|
  {
    if events == [] then Some(stack)
    else
      match Handle(stack, events[0])
      case None => None
      case Some(next) => Build(next, events[1..])
  }

  lemma {:induction false} BuildAppend(stack: seq<Value>, a: seq<Event>, b: seq<Event>)
    requires AllInRange(a) && AllInRange(b)
    ensures AllInRange(a + b)
    ensures Build(stack, a + b) == if Build(stack, a).None? then None else Build(Build(stack, a).value, b)
    decreases |a|
  {
    if a == [] {
      assert a + b == b;
    } else {
      assert (a + b)[0] == a[0] && (a + b)[1..] == a[1..] + b;
      assert a[0] in a;
      match Handle(stack, a[0])
      case None =>
      case Some(next) => BuildAppend(next, a[1..], b);
    }
  }

  lemma BuildOne(stack: seq<Value>, e: Event)
    requires InEventRange(e)
    ensures Build(stack, [e]) == Handle(stack, e)
  {
  }

  /** A value in pieces: events that leave on any stack what they find plus `pushed`. */
  ghost predicate Pushes(events: seq<Event>, pushed: seq<Value>) {
    AllInRange(events) && forall stack :: Build(stack, events) == Some(stack + pushed)
  }

  lemma PushesNothing()
    ensures Pushes([], [])
  {
    forall stack ensures Build(stack, []) == Some(stack + []) {
      assert stack + [] == stack;
    }
  }

  lemma PushesOne(e: Event, v: Value)
    requires InEventRange(e) && forall stack :: Handle(stack, e) == Some(stack + [v])
    ensures Pushes([e], [v])
  {
    forall stack ensures Build(stack, [e]) == Some(stack + [v]) {
      BuildOne(stack, e);
    }
  }

  lemma PushesBoth(a: seq<Event>, va: seq<Value>, b: seq<Event>, vb: seq<Value>)
    requires Pushes(a, va) && Pushes(b, vb)
    ensures Pushes(a + b, va + vb)
  {
    forall stack ensures Build(stack, a + b) == Some(stack + (va + vb)) {
      BuildAppend(stack, a, b);
      assert (stack + va) + vb == stack + (va + vb);
    }
  }

  lemma PushesArray(inner: seq<Event>, elements: seq<Value>)
    requires Pushes(inner, elements) && |elements| < 0x1_0000_0000
    ensures Pushes([StartArrayEvent] + inner + [EndArrayEvent(|elements|)], [Array(elements)])
  {
    var close := EndArrayEvent(|elements|);
    forall stack ensures Build(stack, [StartArrayEvent] + inner + [close]) == Some(stack + [Array(elements)]) {
      BuildOne(stack, StartArrayEvent);
      BuildAppend(stack, [StartArrayEvent], inner);
      BuildAppend(stack, [StartArrayEvent] + inner, [close]);
      var full := stack + [Array([])] + elements;
      BuildOne(full, close);
      assert full[|stack| + 1..] == elements && full[..|stack|] == stack;
    }
    BuildAppend([], [StartArrayEvent], inner);
    BuildAppend([], [StartArrayEvent] + inner, [close]);
  }

  /** The stack image of an object's members. */
  function Flat(members: seq<Member>): seq<Value> {
    seq(2 * |members|, k requires 0 <= k < 2 * |members| =>
      if k % 2 == 0 then String(members[k / 2].name) else members[k / 2].value)
  }

  lemma FlatToMembers(members: seq<Member>)
    ensures ArePairs(Flat(members)) && ToMembers(Flat(members)) == members
  {
  }

  lemma PushesObject(inner: seq<Event>, members: seq<Member>)
    requires Pushes(inner, Flat(members)) && |members| < 0x1_0000_0000
    ensures Pushes([StartObjectEvent] + inner + [EndObjectEvent(|members|)], [Object(members)])
  {
    var close := EndObjectEvent(|members|);
    FlatToMembers(members);
    forall stack ensures Build(stack, [StartObjectEvent] + inner + [close]) == Some(stack + [Object(members)]) {
      BuildOne(stack, StartObjectEvent);
      BuildAppend(stack, [StartObjectEvent], inner);
      BuildAppend(stack, [StartObjectEvent] + inner, [close]);
      var full := stack + [Object([])] + Flat(members);
      BuildOne(full, close);
      assert full[|stack| + 1..] == Flat(members) && full[..|stack|] == stack;
    }
    BuildAppend([], [StartObjectEvent], inner);
    BuildAppend([], [StartObjectEvent] + inner, [close]);
  }

  // ---------------------------------------------------------------------------------------------
  // Well-nested event sequences
  // ---------------------------------------------------------------------------------------------

  /**
   * A well-nested sequence of events with one root, as a tree. The count that closes a compound
   * value is whatever its sender claims.
   */
  datatype Tree =
    | Leaf(event: Event)
    | ArrayTree(items: seq<Tree>, count: SizeType)
    | ObjectTree(fields: seq<Field>, count: SizeType)

  datatype Field = Field(name: Str, value: Tree)

  function Events(t: Tree): seq<Event>
    decreases t
  {
    match t
    case Leaf(event) => [event]
    case ArrayTree(items, count) => [StartArrayEvent] + ItemEvents(t, 0) + [EndArrayEvent(count)]
    case ObjectTree(fields, count) => [StartObjectEvent] + FieldEvents(t, 0) + [EndObjectEvent(count)]
  }

  /** The events of the items of an array from index `k` on. */
  function ItemEvents(t: Tree, k: nat): seq<Event>
    requires t.ArrayTree? && k <= |t.items|
    decreases t, |t.items| - k
  {
    if k == |t.items| then [] else Events(t.items[k]) + ItemEvents(t, k + 1)
  }

  function FieldEvents(t: Tree, k: nat): seq<Event>
    requires t.ObjectTree? && k <= |t.fields|
    decreases t, |t.fields| - k
  {
    if k == |t.fields| then [] else [KeyEvent(t.fields[k].name)] + Events(t.fields[k].value) + FieldEvents(t, k + 1)
  }

  /** Leaves are scalar events in range, and the counts are true. */
  predicate IsCounted(t: Tree) {
    match t
    case Leaf(event) => IsScalar(event) && InEventRange(event)
    case ArrayTree(items, count) => count == |items| && forall i :: i in items ==> IsCounted(i)
    case ObjectTree(fields, count) => count == |fields| && forall d :: d in fields ==> IsCounted(d.value)
  }

  predicate IsScalar(e: Event) {
    !e.KeyEvent? && !e.StartObjectEvent? && !e.EndObjectEvent? && !e.StartArrayEvent? && !e.EndArrayEvent?
  }

  /** The value a scalar event makes. */
  function ScalarValue(e: Event): Value
    requires IsScalar(e) && InEventRange(e)
  {
    match e
    case NullEvent => Null
    case BoolEvent(b) => Bool(b)
    case IntEvent(i) => OfInt(i)
    case UintEvent(u) => OfInt(u)
    case Int64Event(i) => OfInt(i)
    case Uint64Event(u) => OfInt(u)
    case DoubleEvent(bits) => Double(bits)
    case StringEvent(str) => String(str)
  }

  /** The value that a tree of events denotes. */
  function ValueOf(t: Tree): Value
    requires IsCounted(t)
  {
    match t
    case Leaf(event) => ScalarValue(event)
    case ArrayTree(items, _) => Array(seq(|items|, k requires 0 <= k < |items| => ValueOf(items[k])))
    case ObjectTree(fields, _) =>
      Object(seq(|fields|, k requires 0 <= k < |fields| => Member(fields[k].name, ValueOf(fields[k].value))))
  }

  lemma ScalarPushes(e: Event)
    requires IsScalar(e) && InEventRange(e)
    ensures Pushes([e], [ScalarValue(e)])
  {
    match e
    case IntEvent(i) => ConstructorsAgree(i); PushesOne(e, OfInt(i));
    case UintEvent(i) => ConstructorsAgree(i); PushesOne(e, OfInt(i));
    case Int64Event(i) => ConstructorsAgree(i); PushesOne(e, OfInt(i));
    case Uint64Event(i) => ConstructorsAgree(i); PushesOne(e, OfInt(i));
    case _ => PushesOne(e, ScalarValue(e));
  }

  /**
   * A well-nested sequence leaves on any stack what it finds plus exactly one value: the one it
   * denotes.
   */
  lemma {:induction false} TreeBuilds(t: Tree)
    requires IsCounted(t)
    ensures Pushes(Events(t), [ValueOf(t)])
    decreases t
  {
    match t
    case Leaf(event) => ScalarPushes(event);
    case ArrayTree(items, _) =>
      ItemsBuild(t, 0);
      var elements := ValueOf(t).elements;
      assert elements[0..] == elements;
      PushesArray(ItemEvents(t, 0), elements);
    case ObjectTree(fields, _) =>
      FieldsBuild(t, 0);
      var members := ValueOf(t).members;
      assert members[0..] == members;
      PushesObject(FieldEvents(t, 0), members);
  }

  lemma {:induction false} ItemsBuild(t: Tree, k: nat)
    requires t.ArrayTree? && IsCounted(t) && k <= |t.items|
    ensures Pushes(ItemEvents(t, k), ValueOf(t).elements[k..])
    decreases t, |t.items| - k
  {
    var elements := ValueOf(t).elements;
    if k < |t.items| {
      TreeBuilds(t.items[k]);
      ItemsBuild(t, k + 1);
      PushesBoth(Events(t.items[k]), [elements[k]], ItemEvents(t, k + 1), elements[k + 1..]);
      assert [elements[k]] + elements[k + 1..] == elements[k..];
    } else {
      PushesNothing();
      assert elements[k..] == [];
    }
  }

  lemma {:induction false} FieldsBuild(t: Tree, k: nat)
    requires t.ObjectTree? && IsCounted(t) && k <= |t.fields|
    ensures Pushes(FieldEvents(t, k), Flat(ValueOf(t).members[k..]))
    decreases t, |t.fields| - k
  {
    var members := ValueOf(t).members;
    if k < |t.fields| {
      TreeBuilds(t.fields[k].value);
      FieldsBuild(t, k + 1);
      PushesMember(members[k].name, Events(t.fields[k].value), members[k].value, FieldEvents(t, k + 1), members[k + 1..]);
      assert [members[k]] + members[k + 1..] == members[k..];
      assert Member(members[k].name, members[k].value) == members[k];
    } else {
      PushesNothing();
      assert Flat(members[k..]) == [];
    }
  }

  lemma PushesMember(name: Str, inner: seq<Event>, v: Value, more: seq<Event>, others: seq<Member>)
    requires Pushes(inner, [v]) && Pushes(more, Flat(others))
    ensures Pushes([KeyEvent(name)] + inner + more, Flat([Member(name, v)] + others))
  {
    PushesOne(KeyEvent(name), String(name));
    PushesBoth([KeyEvent(name)], [String(name)], inner, [v]);
    PushesBoth([KeyEvent(name)] + inner, [String(name)] + [v], more, Flat(others));
    assert [String(name)] + [v] + Flat(others) == Flat([Member(name, v)] + others);
  }

  // ---------------------------------------------------------------------------------------------
  // Building inverts walking
  // ---------------------------------------------------------------------------------------------

  /** The tree of the events that walking a value sends. */
  function TreeOf(v: Value): (t: Tree)
    requires IsValid(v)
  {
    match v
    case Null => Leaf(NullEvent)
    case Bool(b) => Leaf(BoolEvent(b))
    case Int(word, flags) => Leaf(IntegerEventOf(word, flags))
    case Double(bits) => Leaf(DoubleEvent(bits))
    case String(str) => Leaf(StringEvent(str))
    case Array(elements) => ArrayTree(seq(|elements|, k requires 0 <= k < |elements| => TreeOf(elements[k])), |elements|)
    case Object(members) =>
      ObjectTree(seq(|members|, k requires 0 <= k < |members| => Field(members[k].name, TreeOf(members[k].value))), |members|)
  }

  /** The integer that a valid integer value holds. */
  function Held(word: Word, flags: set<TypeFlag>): (i: int)
    requires IsValid(Int(word, flags))
    ensures Fits64(i) && Int(word, flags) == OfInt(i)
  {
    if Int(word, flags) == OfInt(GetInt64(word)) then GetInt64(word) else GetUint64(word)
  }

  /** An integer is walked as the first of int, unsigned, 64-bit int and 64-bit unsigned that can hold it. */
  lemma IntegerEventIs(i: int)
    requires Fits64(i)
    ensures IntegerEventOf(ToWord(i), TypesOf(i))
         == if InInt(i) then IntEvent(i)
            else if InUint(i) then UintEvent(i)
            else if InInt64(i) then Int64Event(i)
            else Uint64Event(i)
  {
    GettersAgree(i);
  }

  lemma IntegerEventHolds(word: Word, flags: set<TypeFlag>)
    requires IsValid(Int(word, flags))
    ensures var e := IntegerEventOf(word, flags);
            IsScalar(e) && InEventRange(e) && ScalarValue(e) == Int(word, flags)
  {
    GettersAgree(Held(word, flags));
  }

  lemma {:induction false} TreeOfDenotes(v: Value)
    requires IsValid(v)
    ensures IsCounted(TreeOf(v)) && ValueOf(TreeOf(v)) == v
    ensures Events(TreeOf(v)) == Accept(v)
    decreases v
  {
    match v
    case Int(word, flags) => IntegerEventHolds(word, flags);
    case Array(elements) =>
      forall k | 0 <= k < |elements|
        ensures IsCounted(TreeOf(elements[k])) && ValueOf(TreeOf(elements[k])) == elements[k]
      {
        TreeOfDenotes(elements[k]);
      }
      SameElementEvents(v, 0);
    case Object(members) =>
      forall k | 0 <= k < |members|
        ensures IsCounted(TreeOf(members[k].value)) && ValueOf(TreeOf(members[k].value)) == members[k].value
      {
        TreeOfDenotes(members[k].value);
      }
      SameMemberEvents(v, 0);
    case _ =>
  }

  lemma {:induction false} SameElementEvents(v: Value, k: nat)
    requires v.Array? && IsValid(v) && k <= |v.elements|
    ensures ItemEvents(TreeOf(v), k) == AcceptElements(v, k)
    decreases v, |v.elements| - k
  {
    if k < |v.elements| {
      TreeOfDenotes(v.elements[k]);
      SameElementEvents(v, k + 1);
    }
  }

  lemma {:induction false} SameMemberEvents(v: Value, k: nat)
    requires v.Object? && IsValid(v) && k <= |v.members|
    ensures FieldEvents(TreeOf(v), k) == AcceptMembers(v, k)
    decreases v, |v.members| - k
  {
    if k < |v.members| {
      TreeOfDenotes(v.members[k].value);
      SameMemberEvents(v, k + 1);
    }
  }

  /** Feeding a value's events to the handler leaves the stack as it was plus exactly that value. */
  lemma BuildUndoesAccept(v: Value)
    requires IsValid(v)
    ensures Pushes(Accept(v), [v])
  {
    TreeOfDenotes(v);
    TreeBuilds(TreeOf(v));
  }

  // ---------------------------------------------------------------------------------------------
  // The handler object
  // ---------------------------------------------------------------------------------------------

  /** The handler side of `GenericDocument`: a stack of values and the root taken from it. */
  class GenericDocument {
    var stack: seq<Value>
    var root: Value

    constructor ()
      ensures stack == [] && root == Null
    {
      stack, root := [], Null;
    }

    method Push(v: Value)
      modifies `stack
      ensures stack == old(stack) + [v]
    {
      stack := stack + [v];
    }

    method EndObject(memberCount: SizeType)
      requires Handle(stack, EndObjectEvent(memberCount)).Some?
      modifies `stack
      ensures Some(stack) == Handle(old(stack), EndObjectEvent(memberCount))
    {
      var base := |stack| - 2 * memberCount;
      var members := ToMembers(stack[base..]);
      stack := stack[..base];
      stack := stack[base - 1 := Object(members)];
      assert stack == old(stack)[..base - 1] + [Object(members)];
    }

    method EndArray(elementCount: SizeType)
      requires Handle(stack, EndArrayEvent(elementCount)).Some?
      modifies `stack
      ensures Some(stack) == Handle(old(stack), EndArrayEvent(elementCount))
    {
      var base := |stack| - elementCount;
      var elements := stack[base..];
      stack := stack[..base];
      stack := stack[base - 1 := Array(elements)];
      assert stack == old(stack)[..base - 1] + [Array(elements)];
    }

    /** The handler call an event stands for. */
    method Receive(e: Event)
      requires InEventRange(e) && Handle(stack, e).Some?
      modifies `stack
      ensures Some(stack) == Handle(old(stack), e)
    {
      match e
      case NullEvent => Push(Null);
      case BoolEvent(b) => Push(Bool(b));
      case IntEvent(i) => Push(FromInt(i));
      case UintEvent(u) => Push(FromUint(u));
      case Int64Event(i) => Push(FromInt64(i));
      case Uint64Event(u) => Push(FromUint64(u));
      case DoubleEvent(bits) => Push(Double(bits));
      case StringEvent(str) => Push(String(str));
      case KeyEvent(str) => Push(String(str));
      case StartObjectEvent => Push(Object([]));
      case StartArrayEvent => Push(Array([]));
      case EndObjectEvent(count) => EndObject(count);
      case EndArrayEvent(count) => EndArray(count);
    }

    /** `Populate` with the generator `v.Accept`: one root is left, and it is a copy of `v`. */
    method Populate(v: Value)
      requires IsValid(v)
      modifies this
      ensures root == v && stack == []
    {
      stack := [];
      var events := Accept(v);
      BuildUndoesAccept(v);
      for k := 0 to |events|
        invariant AllInRange(events[k..])
        invariant Build(stack, events[k..]) == Some([] + [v])
      {
        assert events[k..][0] == events[k] && events[k..][1..] == events[k + 1..];
        Receive(events[k]);
      }
      assert stack == [v];
      root := stack[0];
      stack := [];
    }
  }
}
