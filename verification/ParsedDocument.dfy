/**
 * Parsing into a DOM: the reader driving the handler of GenericDocument (ParseStream of
 * include/rapidjson/document.h). Whatever text is accepted, exactly one root is left on the stack, unless
 * a count of members or elements has wrapped.
 */
module ParsedDocument {
  import opened Text
  import opened ParseTypes
  import opened StringCodec
  import Number
  import opened NumberText
  import opened NumberGrammar
  import opened NumberMeaning
  import opened StringGrammar
  import opened SpaceGrammar
  import opened Grammar
  import opened Syntax
  import opened Values
  import opened Document
  import Iterative
  import Reader

  const COUNTS := 0x1_0000_0000

  /** A number as a count holds it. */
  function InCount(n: nat): SizeType {
    n % COUNTS
  }

  // ---------------------------------------------------------------------------------------------
  // What is parsed is a tree
  // ---------------------------------------------------------------------------------------------

  /** A scalar event as the reader raises it. */
  predicate IsReadEvent(f: Flags, e: Event) {
    && IsScalar(e) && InEventRange(e)
    && (e.DoubleEvent? ==> IsFinite(e.bits))
    && (e.StringEvent? ==> IsReadableString(f, e.str))
  }

  /** A tree of events as the reader raises them: the count of each container is the true one in 32 bits. */
  predicate IsRead(f: Flags, t: Tree) {
    match t
    case Leaf(e) => IsReadEvent(f, e)
    case ArrayTree(items, count) => count == InCount(|items|) && forall i :: i in items ==> IsRead(f, i)
    case ObjectTree(fields, count) =>
      count == InCount(|fields|) && forall d :: d in fields ==> IsReadableString(f, d.name) && IsRead(f, d.value)
  }

  /** No count wraps. */
  predicate Fits(t: Tree) {
    match t
    case Leaf(_) => true
    case ArrayTree(items, _) => |items| < COUNTS && forall i :: i in items ==> Fits(i)
    case ObjectTree(fields, _) => |fields| < COUNTS && forall d :: d in fields ==> Fits(d.value)
  }

  lemma NumberEventIsRead(f: Flags, s: Str)
    requires Number.ParseNumber(f, s).NumberOk?
    ensures IsReadEvent(f, Number.ParseNumber(f, s).event)
  {
    hide Number.ScanInteger, Number.ScanFraction, Ended, Number.ParseNumber;
    NumberInParts(f, s);
    MinusMagnitude(s);
    if Number.ParseNumber(f, s).event.DoubleEvent? {
      ReadDoubleIsFinite(f, s);
    }
  }

  /** The accumulators stop where the signed types end. */
  lemma MinusMagnitude(s: Str)
    requires Number.ScanInteger(s).Integer?
    ensures var n := Number.ScanInteger(s);
            && n.value <= Number.MaxMagnitude64(n.minus)
            && (!n.use64bit ==> n.value <= Number.MaxMagnitude32(n.minus))
  {
  }

  /** The events of the items of an array, whatever its count. */
  function ItemsEvents(items: seq<Tree>): seq<Event> {
    ItemEvents(ArrayTree(items, 0), 0)
  }

  function FieldsEvents(fields: seq<Field>): seq<Event> {
    FieldEvents(ObjectTree(fields, 0), 0)
  }

  lemma {:induction false} SameItemEvents(t: Tree, j: nat, u: Tree, k: nat)
    requires t.ArrayTree? && u.ArrayTree? && j <= |t.items| && k <= |u.items| && t.items[j..] == u.items[k..]
    ensures ItemEvents(t, j) == ItemEvents(u, k)
    decreases |t.items| - j
  {
    if j < |t.items| {
      assert t.items[j] == t.items[j..][0] == u.items[k..][0] == u.items[k];
      assert t.items[j + 1..] == t.items[j..][1..] && u.items[k + 1..] == u.items[k..][1..];
      SameItemEvents(t, j + 1, u, k + 1);
    } else {
      assert u.items[k..] == [];
    }
  }

  lemma {:induction false} SameFieldEvents(t: Tree, j: nat, u: Tree, k: nat)
    requires t.ObjectTree? && u.ObjectTree? && j <= |t.fields| && k <= |u.fields| && t.fields[j..] == u.fields[k..]
    ensures FieldEvents(t, j) == FieldEvents(u, k)
    decreases |t.fields| - j
  {
    if j < |t.fields| {
      assert t.fields[j] == t.fields[j..][0] == u.fields[k..][0] == u.fields[k];
      assert t.fields[j + 1..] == t.fields[j..][1..] && u.fields[k + 1..] == u.fields[k..][1..];
      SameFieldEvents(t, j + 1, u, k + 1);
    } else {
      assert u.fields[k..] == [];
    }
  }

  lemma ItemsCons(first: Tree, others: seq<Tree>)
    ensures ItemsEvents([]) == [] && ItemsEvents([first] + others) == Events(first) + ItemsEvents(others)
  {
    assert ([first] + others)[1..] == others[0..];
    SameItemEvents(ArrayTree([first] + others, 0), 1, ArrayTree(others, 0), 0);
  }

  lemma FieldsCons(first: Field, others: seq<Field>)
    ensures FieldsEvents([]) == []
    ensures FieldsEvents([first] + others) == [KeyEvent(first.name)] + Events(first.value) + FieldsEvents(others)
  {
    assert ([first] + others)[1..] == others[0..];
    SameFieldEvents(ObjectTree([first] + others, 0), 1, ObjectTree(others, 0), 0);
  }

  lemma ArrayEvents(items: seq<Tree>, count: SizeType)
    ensures Events(ArrayTree(items, count)) == [StartArrayEvent] + ItemsEvents(items) + [EndArrayEvent(count)]
  {
    SameItemEvents(ArrayTree(items, count), 0, ArrayTree(items, 0), 0);
  }

  lemma ObjectEvents(fields: seq<Field>, count: SizeType)
    ensures Events(ObjectTree(fields, count)) == [StartObjectEvent] + FieldsEvents(fields) + [EndObjectEvent(count)]
  {
    SameFieldEvents(ObjectTree(fields, count), 0, ObjectTree(fields, 0), 0);
  }

  /** The tree a value of the grammar spells. */
  function TreeOf(f: Flags, j: Json): Tree
    requires IsJson(f, j)
    decreases j
  {
    match j
    case Word(event) => Leaf(event)
    case Numeric(n) => Leaf(NumeralEvent(f, n))
    case Quoted(chars) => Leaf(StringEvent(Meanings(f, chars)))
    case EmptyArray(_) => ArrayTree([], 0)
    case Array(_, elements) => ArrayTree(Items(f, elements), InCount(|Items(f, elements)|))
    case EmptyObject(_) => ObjectTree([], 0)
    case Object(_, members) => ObjectTree(Fields(f, members), InCount(|Fields(f, members)|))
  }

  function Items(f: Flags, e: Elements): seq<Tree>
    requires IsElements(f, e)
    decreases e
  {
    [TreeOf(f, e.value)] + MoreItems(f, e.more)
  }

  function MoreItems(f: Flags, m: MoreElements): seq<Tree>
    requires AreMoreElements(f, m)
    decreases m
  {
    match m
    case NoElement(_) => []
    case NextElements(_, next) => Items(f, next)
  }

  function Fields(f: Flags, m: Members): seq<Field>
    requires IsMembers(f, m)
    decreases m
  {
    [Field(Meanings(f, m.name), TreeOf(f, m.value))] + MoreFields(f, m.more)
  }

  function MoreFields(f: Flags, m: MoreMembers): seq<Field>
    requires AreMoreMembers(f, m)
    decreases m
  {
    match m
    case NoMember(_) => []
    case NextMembers(_, next) => Fields(f, next)
  }

  lemma CountOn(count: SizeType, n: nat)
    ensures InCount(Increment(count) + n) == InCount(count + (1 + n)) && InCount(count) == count
  {
    if count + 1 == COUNTS {
      assert (count + (1 + n)) % COUNTS == (n + COUNTS) % COUNTS == n % COUNTS;
    }
  }

  lemma ReadableMeaning(f: Flags, cs: seq<Char>)
    requires IsString(f, cs) && IsPaired(f, cs)
    ensures IsReadableString(f, Meanings(f, cs))
  {
    CharsAreRead(f, cs, [], []);
    assert [] + Meanings(f, cs) == Meanings(f, cs);
    ReadStringIsReadable(f, SpellChars(cs) + ([QUOTE] + []));
  }

  /** The events a value of the grammar means are those of its tree, whose leaves are such as are read. */
  lemma {:induction false} JsonIsTree(f: Flags, j: Json)
    requires IsJson(f, j) && IsAcceptable(f, j)
    ensures IsRead(f, TreeOf(f, j)) && EventsOf(f, j) == Events(TreeOf(f, j))
    ensures |SpellJson(j)| < COUNTS ==> Fits(TreeOf(f, j))
    decreases j
  {
    hide Number.ParseNumber, IsString, IsElements, IsMembers, Items, Fields, SpellElements, SpellMembers, ElementEvents, MemberEvents,
      AllSpacing, SpellSpaces, Events, SpellNumeral, IsNumeral, InCount, IsTooBig, NumeralEvent, IsPaired;
    match j
    case Word(_) => LeafIsRead(f, j.event);
    case Numeric(n) => NumericIsTree(f, n);
    case Quoted(chars) =>
      ReadableMeaning(f, chars);
      LeafIsRead(f, StringEvent(Meanings(f, chars)));
    case EmptyArray(_) => ArrayIsTree(f, []);
    case Array(gap, elements) =>
      ElementsAreItems(f, 0, elements);
      ArrayIsTree(f, Items(f, elements));
    case EmptyObject(_) => ObjectIsTree(f, []);
    case Object(gap, members) =>
      MembersAreFields(f, 0, members);
      ObjectIsTree(f, Fields(f, members));
  }

  lemma LeafIsRead(f: Flags, e: Event)
    requires IsReadEvent(f, e)
    ensures IsRead(f, Leaf(e)) && Fits(Leaf(e)) && Events(Leaf(e)) == [e]
  {
  }

  lemma NumericIsTree(f: Flags, n: Numeral)
    requires IsNumeral(n) && !IsTooBig(f, n)
    ensures var e := NumeralEvent(f, n);
            IsRead(f, Leaf(e)) && Fits(Leaf(e)) && Events(Leaf(e)) == [e]
  {
    hide Number.ParseNumber, IsTooBig, NumeralEvent, IsNumeral;
    NumeralIsRead(f, n, []);
    NumberEventIsRead(f, SpellNumeral(n) + []);
    LeafIsRead(f, NumeralEvent(f, n));
  }

  lemma ArrayIsTree(f: Flags, items: seq<Tree>)
    requires forall i :: i in items ==> IsRead(f, i)
    ensures var t := ArrayTree(items, InCount(|items|));
            && IsRead(f, t) && (|items| < COUNTS && (forall i :: i in items ==> Fits(i)) ==> Fits(t))
            && Events(t) == [StartArrayEvent] + (ItemsEvents(items) + [EndArrayEvent(InCount(|items|))])
    ensures InCount(0) == 0 && COUNTS == 0x1_0000_0000 && ItemsEvents([]) == []
    ensures [StartArrayEvent] + ([] + [EndArrayEvent(0)]) == [StartArrayEvent, EndArrayEvent(0)]
  {
    ArrayEvents(items, InCount(|items|));
    Regroup3([StartArrayEvent], ItemsEvents(items), [EndArrayEvent(InCount(|items|))]);
  }

  lemma ObjectIsTree(f: Flags, fields: seq<Field>)
    requires forall d :: d in fields ==> IsReadableString(f, d.name) && IsRead(f, d.value)
    ensures var t := ObjectTree(fields, InCount(|fields|));
            && IsRead(f, t) && (|fields| < COUNTS && (forall d :: d in fields ==> Fits(d.value)) ==> Fits(t))
            && Events(t) == [StartObjectEvent] + (FieldsEvents(fields) + [EndObjectEvent(InCount(|fields|))])
    ensures InCount(0) == 0 && COUNTS == 0x1_0000_0000 && FieldsEvents([]) == []
    ensures [StartObjectEvent] + ([] + [EndObjectEvent(0)]) == [StartObjectEvent, EndObjectEvent(0)]
  {
    hide IsReadableString;
    ObjectEvents(fields, InCount(|fields|));
    Regroup3([StartObjectEvent], FieldsEvents(fields), [EndObjectEvent(InCount(|fields|))]);
  }

  /** An element and what comes after it, in its parts. */
  lemma ElementInParts(f: Flags, count: SizeType, e: Elements)
    requires IsElements(f, e)
    ensures IsJson(f, e.value) && AreMoreElements(f, e.more)
    ensures AcceptableElements(f, e) <==> IsAcceptable(f, e.value) && AcceptableMoreElements(f, e.more)
    ensures Items(f, e) == [TreeOf(f, e.value)] + MoreItems(f, e.more)
    ensures ElementEvents(f, count, e) == EventsOf(f, e.value) + MoreElementEvents(f, Increment(count), e.more)
    ensures |SpellJson(e.value)| + |SpellMoreElements(e.more)| <= |SpellElements(e)| && |SpellJson(e.value)| > 0
  {
    JsonStarts(f, e.value, []);
  }

  lemma {:induction false} ElementsAreItems(f: Flags, count: SizeType, e: Elements)
    requires IsElements(f, e) && AcceptableElements(f, e)
    ensures forall i :: i in Items(f, e) ==> IsRead(f, i)
    ensures ElementEvents(f, count, e) == ItemsEvents(Items(f, e)) + [EndArrayEvent(InCount(count + |Items(f, e)|))]
    ensures |Items(f, e)| <= |SpellElements(e)|
    ensures |SpellElements(e)| < COUNTS ==> forall i :: i in Items(f, e) ==> Fits(i)
    decreases e
  {
    hide *;
    ElementInParts(f, count, e);
    JsonIsTree(f, e.value);
    MoreAreItems(f, Increment(count), e.more);
    var first, others := TreeOf(f, e.value), MoreItems(f, e.more);
    CountOn(count, |others|);
    ItemsCons(first, others);
    Regroup3(Events(first), ItemsEvents(others), [EndArrayEvent(InCount(count + |Items(f, e)|))]);
  }

  lemma {:induction false} MoreAreItems(f: Flags, count: SizeType, m: MoreElements)
    requires AreMoreElements(f, m) && AcceptableMoreElements(f, m)
    ensures forall i :: i in MoreItems(f, m) ==> IsRead(f, i)
    ensures MoreElementEvents(f, count, m) == ItemsEvents(MoreItems(f, m)) + [EndArrayEvent(InCount(count + |MoreItems(f, m)|))]
    ensures |MoreItems(f, m)| <= |SpellMoreElements(m)|
    ensures |SpellMoreElements(m)| < COUNTS ==> forall i :: i in MoreItems(f, m) ==> Fits(i)
    decreases m
  {
    hide IsElements, Items, SpellElements, ElementEvents, AllSpacing, SpellSpaces, IsRead, Fits, InCount, AcceptableElements;
    match m
    case NoElement(_) =>
      CountOn(count, 0);
      ItemsCons(Leaf(NullEvent), []);
    case NextElements(_, next) => ElementsAreItems(f, count, next);
  }

  lemma MemberInParts(f: Flags, count: SizeType, m: Members)
    requires IsMembers(f, m)
    ensures IsString(f, m.name) && IsJson(f, m.value) && AreMoreMembers(f, m.more)
    ensures AcceptableMembers(f, m) <==> IsPaired(f, m.name) && IsAcceptable(f, m.value) && AcceptableMoreMembers(f, m.more)
    ensures Fields(f, m) == [Field(Meanings(f, m.name), TreeOf(f, m.value))] + MoreFields(f, m.more)
    ensures MemberEvents(f, count, m)
         == [KeyEvent(Meanings(f, m.name))] + (EventsOf(f, m.value) + MoreMemberEvents(f, Increment(count), m.more))
    ensures |SpellJson(m.value)| + |SpellMoreMembers(m.more)| < |SpellMembers(m)|
  {
    hide SpellString, Meanings, IsString, SpellSpaces, AllSpacing;
  }

  lemma {:induction false} MembersAreFields(f: Flags, count: SizeType, m: Members)
    requires IsMembers(f, m) && AcceptableMembers(f, m)
    ensures forall d :: d in Fields(f, m) ==> IsReadableString(f, d.name) && IsRead(f, d.value)
    ensures MemberEvents(f, count, m) == FieldsEvents(Fields(f, m)) + [EndObjectEvent(InCount(count + |Fields(f, m)|))]
    ensures |Fields(f, m)| <= |SpellMembers(m)|
    ensures |SpellMembers(m)| < COUNTS ==> forall d :: d in Fields(f, m) ==> Fits(d.value)
    decreases m
  {
    hide *;
    MemberInParts(f, count, m);
    JsonIsTree(f, m.value);
    ReadableMeaning(f, m.name);
    MoreAreFields(f, Increment(count), m.more);
    var first, others := Field(Meanings(f, m.name), TreeOf(f, m.value)), MoreFields(f, m.more);
    CountOn(count, |others|);
    FieldsCons(first, others);
    var close := [EndObjectEvent(InCount(count + |Fields(f, m)|))];
    Regroup4([KeyEvent(first.name)], Events(first.value), FieldsEvents(others), close);
  }

  lemma {:induction false} MoreAreFields(f: Flags, count: SizeType, m: MoreMembers)
    requires AreMoreMembers(f, m) && AcceptableMoreMembers(f, m)
    ensures forall d :: d in MoreFields(f, m) ==> IsReadableString(f, d.name) && IsRead(f, d.value)
    ensures MoreMemberEvents(f, count, m) == FieldsEvents(MoreFields(f, m)) + [EndObjectEvent(InCount(count + |MoreFields(f, m)|))]
    ensures |MoreFields(f, m)| <= |SpellMoreMembers(m)|
    ensures |SpellMoreMembers(m)| < COUNTS ==> forall d :: d in MoreFields(f, m) ==> Fits(d.value)
    decreases m
  {
    hide IsMembers, Fields, SpellMembers, MemberEvents, AllSpacing, SpellSpaces, IsRead, Fits, InCount, IsReadableString,
      AcceptableMembers;
    match m
    case NoMember(_) =>
      CountOn(count, 0);
      FieldsCons(Field([], Leaf(NullEvent)), []);
    case NextMembers(_, next) => MembersAreFields(f, count, next);
  }

  /** Every value the parser accepts raises the events of a tree; in a text of fewer than 2^32 units no count wraps. */
  lemma ValueIsTree(f: Flags, st: State) returns (t: Tree)
    requires ParseValue(f, st).Ok?
    ensures IsRead(f, t) && ParseValue(f, st).state.log == st.log + Events(t)
    ensures |st.rest| < COUNTS ==> Fits(t)
  {
    hide *;
    var j := ReadIsJson(f, st);
    var rest := ParseValue(f, st).state.rest;
    ReadAs(f, j, st.rest, rest);
    JsonIsRead(f, j, rest, st.log);
    OutcomeIs(ParseValue(f, st), true, rest, st.log + EventsOf(f, j));
    JsonIsTree(f, j);
    t := TreeOf(f, j);
  }

  lemma ReadAs(f: Flags, j: Json, s: Str, rest: Str)
    requires IsReadAs(f, j, s, rest)
    ensures IsJson(f, j) && IsAcceptable(f, j) && s == SpellJson(j) + rest && EndsJson(j, rest) && |SpellJson(j)| <= |s|
  {
  }

  // ---------------------------------------------------------------------------------------------
  // One root
  // ---------------------------------------------------------------------------------------------

  /** By how much a handler call makes the stack longer. */
  function Delta(e: Event): int {
    match e
    case EndObjectEvent(count) => 0 - 2 * count
    case EndArrayEvent(count) => 0 - count
    case _ => 1
  }

  function Net(events: seq<Event>): int {
    if events == [] then 0 else Delta(events[0]) + Net(events[1..])
  }

  lemma {:induction false} NetAppend(a: seq<Event>, b: seq<Event>)
    ensures Net(a + b) == Net(a) + Net(b)
    decreases |a|
  {
    if a == [] {
      assert a + b == b;
    } else {
      assert (a + b)[0] == a[0] && (a + b)[1..] == a[1..] + b;
      NetAppend(a[1..], b);
    }
  }

  lemma NetOne(e: Event)
    ensures Net([e]) == Delta(e)
  {
    assert [e][1..] == [];
  }

  lemma KeyAddsOne(name: Str)
    ensures AllInRange([KeyEvent(name)]) && Net([KeyEvent(name)]) == 1
  {
    NetOne(KeyEvent(name));
  }

  lemma HandleSize(stack: seq<Value>, e: Event)
    requires InEventRange(e) && Handle(stack, e).Some?
    ensures |Handle(stack, e).value| == |stack| + Delta(e)
  {
  }

  lemma {:induction false} BuildSize(stack: seq<Value>, events: seq<Event>)
    requires AllInRange(events) && Build(stack, events).Some?
    ensures |Build(stack, events).value| == |stack| + Net(events)
    decreases |events|
  {
    if events != [] {
      hide Handle;
      assert events[0] in events;
      HandleSize(stack, events[0]);
      BuildSize(Handle(stack, events[0]).value, events[1..]);
    }
  }

  lemma RangeAppend(a: seq<Event>, b: seq<Event>)
    requires AllInRange(a) && AllInRange(b)
    ensures AllInRange(a + b)
  {
  }

  /** A tree's events add one value, and more than one if a count has wrapped. */
  lemma {:induction false} NetOfTree(f: Flags, t: Tree)
    requires IsRead(f, t)
    ensures AllInRange(Events(t)) && Net(Events(t)) >= 1 && (Net(Events(t)) == 1 ==> Fits(t))
    decreases t
  {
    match t
    case Leaf(e) => NetOne(e);
    case ArrayTree(items, count) =>
      hide Net;
      NetOfItems(f, t, 0);
      NetCloses(StartArrayEvent, ItemEvents(t, 0), EndArrayEvent(count));
    case ObjectTree(fields, count) =>
      hide Net;
      NetOfFields(f, t, 0);
      NetCloses(StartObjectEvent, FieldEvents(t, 0), EndObjectEvent(count));
  }

  lemma NetCloses(start: Event, inner: seq<Event>, close: Event)
    requires AllInRange(inner) && InEventRange(start) && InEventRange(close)
    ensures AllInRange([start] + inner + [close]) && Net([start] + inner + [close]) == Delta(start) + Net(inner) + Delta(close)
  {
    hide Delta;
    NetOne(start);
    NetOne(close);
    NetAppend([start], inner);
    NetAppend([start] + inner, [close]);
  }

  lemma {:induction false} NetOfItems(f: Flags, t: Tree, k: nat)
    requires t.ArrayTree? && IsRead(f, t) && k <= |t.items|
    ensures AllInRange(ItemEvents(t, k)) && Net(ItemEvents(t, k)) >= |t.items| - k
    ensures Net(ItemEvents(t, k)) == |t.items| - k ==> forall i :: k <= i < |t.items| ==> Fits(t.items[i])
    decreases t, |t.items| - k
  {
    if k < |t.items| {
      NetOfTree(f, t.items[k]);
      NetOfItems(f, t, k + 1);
      NetAppend(Events(t.items[k]), ItemEvents(t, k + 1));
      RangeAppend(Events(t.items[k]), ItemEvents(t, k + 1));
    }
  }

  lemma {:induction false} NetOfFields(f: Flags, t: Tree, k: nat)
    requires t.ObjectTree? && IsRead(f, t) && k <= |t.fields|
    ensures AllInRange(FieldEvents(t, k)) && Net(FieldEvents(t, k)) >= 2 * (|t.fields| - k)
    ensures Net(FieldEvents(t, k)) == 2 * (|t.fields| - k) ==> forall i :: k <= i < |t.fields| ==> Fits(t.fields[i].value)
    decreases t, |t.fields| - k
  {
    if k < |t.fields| {
      hide Net, Delta, IsReadEvent;
      var key, inner, more := [KeyEvent(t.fields[k].name)], Events(t.fields[k].value), FieldEvents(t, k + 1);
      NetOfTree(f, t.fields[k].value);
      NetOfFields(f, t, k + 1);
      KeyAddsOne(t.fields[k].name);
      NetAppend(key, inner);
      NetAppend(key + inner, more);
      RangeAppend(key, inner);
      RangeAppend(key + inner, more);
    }
  }

  lemma {:induction false} FittingIsCounted(f: Flags, t: Tree)
    requires IsRead(f, t) && Fits(t)
    ensures IsCounted(t)
    decreases t
  {
    match t
    case Leaf(_) =>
    case ArrayTree(items, _) =>
      forall i | i in items ensures IsCounted(i) { FittingIsCounted(f, i); }
    case ObjectTree(fields, _) =>
      forall d | d in fields ensures IsCounted(d.value) { FittingIsCounted(f, d.value); }
  }

  /** A value as the parser makes it: valid, its doubles finite, its strings such as the reader can return. */
  predicate IsParsed(f: Flags, v: Value) {
    IsValid(v) && IsClean(f, v)
  }

  predicate IsClean(f: Flags, v: Value) {
    match v
    case Double(bits) => IsFinite(bits)
    case String(str) => IsReadableString(f, str)
    case Array(elements) => forall e :: e in elements ==> IsClean(f, e)
    case Object(members) => forall m :: m in members ==> IsReadableString(f, m.name) && IsClean(f, m.value)
    case _ => true
  }

  lemma ScalarIsParsed(f: Flags, e: Event)
    requires IsReadEvent(f, e)
    ensures IsParsed(f, ScalarValue(e))
  {
    match e
    case IntEvent(i) => GettersAgree(i);
    case UintEvent(i) => GettersAgree(i);
    case Int64Event(i) => GettersAgree(i);
    case Uint64Event(i) => GettersAgree(i);
    case _ =>
  }

  lemma {:induction false} TreeIsParsed(f: Flags, t: Tree)
    requires IsRead(f, t) && IsCounted(t)
    ensures IsParsed(f, ValueOf(t))
    decreases t
  {
    match t
    case Leaf(e) => ScalarIsParsed(f, e);
    case ArrayTree(items, _) =>
      forall k | 0 <= k < |items| ensures IsParsed(f, ValueOf(items[k])) { TreeIsParsed(f, items[k]); }
    case ObjectTree(fields, _) =>
      forall k | 0 <= k < |fields| ensures IsParsed(f, ValueOf(fields[k].value)) { TreeIsParsed(f, fields[k].value); }
  }

  /** The handler's assertions hold and exactly one value is left. */
  predicate BuildsOne(events: seq<Event>) {
    AllInRange(events) && Build([], events).Some? && |Build([], events).value| == 1
  }

  /** The events of a tree build exactly one value if and only if no count has wrapped, and then the one it denotes. */
  lemma BuildsOneIff(f: Flags, t: Tree)
    requires IsRead(f, t)
    ensures AllInRange(Events(t)) && (BuildsOne(Events(t)) <==> Fits(t))
    ensures Fits(t) ==> IsCounted(t) && IsParsed(f, ValueOf(t)) && Build([], Events(t)) == Some([ValueOf(t)])
  {
    NetOfTree(f, t);
    if Fits(t) {
      FittingIsCounted(f, t);
      TreeIsParsed(f, t);
      TreeBuilds(t);
      assert Build([], Events(t)) == Some([] + [ValueOf(t)]) && [] + [ValueOf(t)] == [ValueOf(t)];
    } else if Build([], Events(t)).Some? {
      BuildSize([], Events(t));
    }
  }

  /**
   * The events of an accepted text are those of a tree, and build exactly one value if and only if no
   * container has 2^32 members or elements; so always when the text has fewer units.
   */
  lemma AcceptedTextBuildsOneRoot(f: Flags, text: Str) returns (t: Tree)
    requires ParseText(f, text).Ok?
    ensures IsRead(f, t) && Events(t) == ParseText(f, text).state.log
    ensures BuildsOne(ParseText(f, text).state.log) <==> Fits(t)
    ensures Fits(t) ==> IsCounted(t) && IsParsed(f, ValueOf(t)) && Build([], ParseText(f, text).state.log) == Some([ValueOf(t)])
    ensures |text| < COUNTS ==> Fits(t)
  {
    var st := SkipSpace(f, State(text, [])).state;
    t := ValueIsTree(f, st);
    assert ParseText(f, text).state.log == [] + Events(t) == Events(t);
    BuildsOneIff(f, t);
  }

  /** The one value built from a log. */
  function BuiltFrom(log: seq<Event>): Value
    requires BuildsOne(log)
  {
    Build([], log).value[0]
  }

  lemma BuiltIsParsed(f: Flags, text: Str)
    requires ParseText(f, text).Ok? && BuildsOne(ParseText(f, text).state.log)
    ensures IsParsed(f, BuiltFrom(ParseText(f, text).state.log))
    ensures Build([], ParseText(f, text).state.log) == Some([BuiltFrom(ParseText(f, text).state.log)])
  {
    hide IsParsed, ParseText;
    var t := AcceptedTextBuildsOneRoot(f, text);
  }

  /**
   * `ParseStream`; `ok` says that no assertion failed on the way. With either parser the root becomes the one
   * value built, if and only if exactly one is built.
   */
  method ParseStream(d: GenericDocument, f: Flags, text: Str, iterative: bool) returns (r: Outcome, ok: bool)
    modifies d
    ensures r == if iterative then Iterative.IterativeParse(f, text) else ParseText(f, text)
    ensures r.Ok? ==> (ok <==> BuildsOne(r.state.log)) && (|text| < COUNTS ==> ok)
    ensures r.Ok? && ok ==> IsParsed(f, d.root) && d.root == BuiltFrom(r.state.log) && d.stack == []
    ensures r.Err? ==> ok && d.root == old(d.root)
  {
    var reader := new Reader.GenericReader(f, text);
    if iterative {
      reader.ParseIteratively();
    } else {
      reader.Parse();
    }
    r, ok := reader.Result(), true;
    if r.Err? {
      return;
    }
    Iterative.IterativeRefinesRecursive(f, text);
    ghost var t := AcceptedTextBuildsOneRoot(f, text);
    var events := r.state.log;
    assert AllInRange(events) by { BuildsOneIff(f, t); }
    ok := ReceiveAll(d, events);
    if ok && |d.stack| == 1 {
      d.root := d.stack[0];
      d.stack := [];
      BuiltIsParsed(f, text);
    } else {
      ok := false;
    }
  }

  /** The handler's calls, up to one that fails an assertion. */
  method ReceiveAll(d: GenericDocument, events: seq<Event>) returns (ok: bool)
    requires AllInRange(events)
    modifies d
    ensures ok <==> Build([], events).Some?
    ensures ok ==> Some(d.stack) == Build([], events)
    ensures d.root == old(d.root)
  {
    d.stack := [];
    for k := 0 to |events|
      invariant AllInRange(events[k..]) && Build(d.stack, events[k..]) == Build([], events)
      invariant d.root == old(d.root)
    {
      assert events[k..][0] == events[k] && events[k..][1..] == events[k + 1..];
      if Handle(d.stack, events[k]).None? {
        return false;
      }
      d.Receive(events[k]);
    }
    return true;
  }
}
