/**
 * Parsing undoes printing: whatever the writer's format, the parser reads the text of a well-nested
 * sequence back as the same events, with integers reported in the reader's types and with true
 * counts. On DOM values it is the identity.
 */
module RoundTrip {
  import opened Text
  import opened ParseTypes
  import opened StringCodec
  import Number
  import opened NumberText
  import opened NumberGrammar
  import opened NumberMeaning
  import opened StringGrammar
  import opened SpaceGrammar
  import opened DoubleText
  import opened Grammar
  import opened Syntax
  import opened Values
  import opened Document
  import opened Writer
  import ParsedDocument

  // ---------------------------------------------------------------------------------------------
  // What is read back
  // ---------------------------------------------------------------------------------------------

  /** The event the reader raises for the text of a scalar event. */
  function ReadBack(e: Event): Event {
    match e
    case IntEvent(i) => Number.ReadAs(i)
    case UintEvent(u) => Number.ReadAs(u)
    case Int64Event(i) => Number.ReadAs(i)
    case Uint64Event(u) => Number.ReadAs(u)
    case _ => e
  }

  /** The tree the reader makes of the text of a tree. */
  function Reread(t: Tree): Tree
    requires IsReadable(t)
  {
    match t
    case Leaf(event) => Leaf(ReadBack(event))
    case ArrayTree(items, _) => ArrayTree(seq(|items|, k requires 0 <= k < |items| => Reread(items[k])), |items|)
    case ObjectTree(fields, _) =>
      ObjectTree(seq(|fields|, k requires 0 <= k < |fields| => Field(fields[k].name, Reread(fields[k].value))), |fields|)
  }

  predicate IsReadable(t: Tree) {
    match t
    case Leaf(event) => IsScalar(event) && InEventRange(event)
    case ArrayTree(items, _) => |items| < 0x1_0000_0000 && forall i :: i in items ==> IsReadable(i)
    case ObjectTree(fields, _) => |fields| < 0x1_0000_0000 && forall d :: d in fields ==> IsReadable(d.value)
  }

  /** The leaves of a tree, printed in this format, can be read with these flags. */
  predicate CanRead(f: Flags, fmt: Format, t: Tree) {
    match t
    case Leaf(event) =>
      && (event.DoubleEvent? ==> ReadsBack(f, fmt.printer, event.bits))
      && (event.StringEvent? ==> IsReadableString(f, event.str))
    case ArrayTree(items, _) => forall i :: i in items ==> CanRead(f, fmt, i)
    case ObjectTree(fields, _) => forall d :: d in fields ==> IsReadableString(f, d.name) && CanRead(f, fmt, d.value)
  }

  lemma {:induction false} ReadableIsTree(t: Tree)
    requires IsReadable(t)
    ensures IsTree(t)
    decreases t
  {
    match t
    case Leaf(_) =>
    case ArrayTree(items, _) =>
      forall i | i in items ensures IsTree(i) { ReadableIsTree(i); }
    case ObjectTree(fields, _) =>
      forall d | d in fields ensures IsTree(d.value) { ReadableIsTree(d.value); }
  }

  // ---------------------------------------------------------------------------------------------
  // What is written is JSON
  // ---------------------------------------------------------------------------------------------

  predicate IsBlank(s: Str) {
    forall k :: 0 <= k < |s| ==> IsSpace(s[k])
  }

  lemma {:induction false} BlankIsSpelled(f: Flags, blank: Str) returns (g: seq<Space>)
    requires IsBlank(blank)
    ensures AllSpacing(f, g) && SpellSpaces(g) == blank
  {
    if blank == [] {
      g := [];
    } else {
      var more := BlankIsSpelled(f, blank[1..]);
      g := [Blank(blank[0])] + more;
      assert g[1..] == more && blank == [blank[0]] + blank[1..];
    }
  }

  lemma GapsAreBlank(fmt: Format, k: nat, depth: nat, empty: bool)
    requires IsLegal(fmt)
    ensures IsBlank(ItemGap(fmt, k, depth)) && IsBlank(NameGap(fmt, depth)) && IsBlank(ColonGap(fmt))
    ensures IsBlank(ArrayEndGap(fmt, empty, depth)) && IsBlank(ObjectEndGap(fmt, empty, depth))
  {
  }

  lemma StringIsSpelled(f: Flags, str: Str) returns (cs: seq<Char>)
    requires IsReadableString(f, str)
    ensures IsString(f, cs) && IsPaired(f, cs) && SpellString(cs) == WriteString(str) && Meanings(f, cs) == str
  {
    DecodeUndoesWrite(f, [], str, []);
    var s := EscapeAll(str) + ([QUOTE] + []);
    assert [] + str == str && [QUOTE] + [] == [QUOTE];
    cs := ReadIsChars(f, [], s);
    assert [] + Meanings(f, cs) == Meanings(f, cs);
    Regroup3([QUOTE], EscapeAll(str), [QUOTE]);
  }

  /** An acceptable value of the grammar with this text and meaning. */
  predicate Spells(f: Flags, j: Json, text: Str, events: seq<Event>) {
    IsJson(f, j) && IsAcceptable(f, j) && SpellJson(j) == text && EventsOf(f, j) == events
  }

  lemma SpelledIs(f: Flags, j: Json, text: Str, events: seq<Event>)
    requires Spells(f, j, text, events)
    ensures IsJson(f, j) && IsAcceptable(f, j) && SpellJson(j) == text && EventsOf(f, j) == events
  {
  }

  /** A text that is read as a number, and whole, is a numeral. */
  lemma NumberIsSpelled(f: Flags, text: Str, e: Event) returns (j: Json)
    requires Number.ParseNumber(f, text) == Number.NumberOk(e, [])
    ensures Spells(f, j, text, [e]) && Bare(j) == j
  {
    var n := ReadIsNumeral(f, text);
    hide Number.ParseNumber, SpellNumeral, IsNumeral, IsTooBig, NumeralEvent;
    assert SpellNumeral(n) + [] == SpellNumeral(n);
    j := Numeric(n);
  }

  lemma IntegerIsSpelled(f: Flags, i: int) returns (j: Json)
    requires Number.Fits64(i)
    ensures Spells(f, j, Number.Print(i), [Number.ReadAs(i)]) && Bare(j) == j
  {
    Number.ReadUndoesPrint(f, i, []);
    assert Number.Print(i) + [] == Number.Print(i);
    j := NumberIsSpelled(f, Number.Print(i), Number.ReadAs(i));
  }

  lemma DoubleIsSpelled(f: Flags, p: Printer, bits: Bits) returns (j: Json)
    requires ReadsBack(f, p, bits)
    ensures Spells(f, j, DoubleText.WriteDouble(p, bits), [DoubleEvent(bits)]) && Bare(j) == j
  {
    hide Number.ParseNumber, DoubleText.WriteDouble;
    PrintedDoubleIsReadIff(f, p, bits);
    j := NumberIsSpelled(f, DoubleText.WriteDouble(p, bits), DoubleEvent(bits));
  }

  lemma ScalarIsSpelled(f: Flags, fmt: Format, e: Event) returns (j: Json)
    requires IsScalar(e) && InEventRange(e) && CanRead(f, fmt, Leaf(e))
    ensures Spells(f, j, ScalarText(fmt, e), [ReadBack(e)]) && Bare(j) == j
  {
    hide Spells, Bare;
    match e
    case NullEvent => j := WordIsSpelled(f, fmt, e);
    case BoolEvent(_) => j := WordIsSpelled(f, fmt, e);
    case IntEvent(i) => j := IntegerIsSpelled(f, i);
    case UintEvent(i) => j := IntegerIsSpelled(f, i);
    case Int64Event(i) => j := IntegerIsSpelled(f, i);
    case Uint64Event(i) => j := IntegerIsSpelled(f, i);
    case DoubleEvent(bits) => j := DoubleIsSpelled(f, fmt.printer, bits);
    case StringEvent(str) =>
      var cs := StringIsSpelled(f, str);
      QuotedMeans(f, cs);
      j := Quoted(cs);
  }

  lemma WordIsSpelled(f: Flags, fmt: Format, e: Event) returns (j: Json)
    requires e.NullEvent? || e.BoolEvent?
    ensures Spells(f, j, ScalarText(fmt, e), [e]) && Bare(j) == j
  {
    j := Word(e);
  }

  lemma QuotedMeans(f: Flags, cs: seq<Char>)
    requires IsString(f, cs) && IsPaired(f, cs)
    ensures Spells(f, Quoted(cs), SpellString(cs), [StringEvent(Meanings(f, cs))]) && Bare(Quoted(cs)) == Quoted(cs)
  {
  }

  /** The compact format, doubles printed alike. */
  function Tight(fmt: Format): Format {
    Compact(fmt.printer)
  }

  /**
   * In any format, the text of a tree is a text of the JSON grammar, and means the tree's events: integers in the
   * reader's types, counts true. Without the white space between its tokens it is the compact writer's text.
   */
  lemma {:induction false} TreeIsJson(f: Flags, fmt: Format, t: Tree, depth: nat) returns (j: Json)
    requires IsLegal(fmt) && IsReadable(t) && IsTree(t) && CanRead(f, fmt, t)
    ensures Spells(f, j, TextOf(fmt, t, depth), Events(Reread(t))) && SpellJson(Bare(j)) == TextOf(Tight(fmt), t, depth)
    decreases t
  {
    hide Spells, SpellJson, ScalarText, Bare;
    match t
    case Leaf(event) =>
      j := ScalarIsSpelled(f, fmt, event);
      LeafText(f, fmt, event, j);
    case ArrayTree(items, _) =>
      if items == [] {
        j := EmptyArrayIsJson(f, fmt, t, depth);
      } else {
        GapsAreBlank(fmt, 0, depth, false);
        GapsAreBlank(fmt, 0, depth + 1, false);
        var gap := BlankIsSpelled(f, ItemGap(fmt, 0, depth + 1));
        var e := ItemsAreElements(f, fmt, t, 0, depth + 1, ArrayEndGap(fmt, false, depth));
        j := Json.Array(gap, e);
        ArrayText(fmt, t, depth, gap, e);
        ArrayMeans(f, t, gap, e, TextOf(fmt, t, depth));
        BareArrayText(fmt, t, depth, gap, e);
      }
    case ObjectTree(fields, _) =>
      if fields == [] {
        j := EmptyObjectIsJson(f, fmt, t, depth);
      } else {
        GapsAreBlank(fmt, 0, depth, false);
        GapsAreBlank(fmt, 0, depth + 1, false);
        var gap := BlankIsSpelled(f, NameGap(fmt, depth + 1));
        var m := FieldsAreMembers(f, fmt, t, 0, depth + 1, ObjectEndGap(fmt, false, depth));
        j := Json.Object(gap, m);
        ObjectText(fmt, t, depth, gap, m);
        ObjectMeans(f, t, gap, m, TextOf(fmt, t, depth));
        BareObjectText(fmt, t, depth, gap, m);
      }
  }

  lemma LeafText(f: Flags, fmt: Format, e: Event, j: Json)
    requires IsScalar(e) && Spells(f, j, ScalarText(fmt, e), [ReadBack(e)])
    ensures SpellJson(j) == TextOf(fmt, Leaf(e), 0) == TextOf(Tight(fmt), Leaf(e), 0)
  {
  }

  // --- arrays ---

  lemma EmptyArrayIsJson(f: Flags, fmt: Format, t: Tree, depth: nat) returns (j: Json)
    requires IsReadable(t) && IsTree(t) && t.ArrayTree? && t.items == []
    ensures Spells(f, j, TextOf(fmt, t, depth), Events(Reread(t))) && SpellJson(Bare(j)) == TextOf(Tight(fmt), t, depth)
  {
    j := EmptyArray([]);
    assert ItemEvents(Reread(t), 0) == [];
  }

  lemma ArrayText(fmt: Format, t: Tree, depth: nat, gap: seq<Space>, e: Elements)
    requires IsTree(t) && t.ArrayTree? && t.items != [] && SpellSpaces(gap) == ItemGap(fmt, 0, depth + 1)
    requires SpellElements(e) == ItemText(fmt, t, 0, depth + 1) + (ArrayEndGap(fmt, false, depth) + [RBRACKET])
    ensures SpellJson(Json.Array(gap, e)) == TextOf(fmt, t, depth)
  {
    hide SpellElements, SpellSpaces;
    var first := ItemText(fmt, t, 0, depth + 1);
    assert ItemsText(fmt, t, 0, depth + 1) == SpellSpaces(gap) + first by {
      assert ItemPrefix(fmt, 0, depth + 1) == [] + ItemGap(fmt, 0, depth + 1) == ItemGap(fmt, 0, depth + 1);
    }
    Regroup3(SpellSpaces(gap), first, ArrayEnd(fmt, false, depth));
  }

  lemma BareArrayText(fmt: Format, t: Tree, depth: nat, gap: seq<Space>, e: Elements)
    requires IsTree(t) && t.ArrayTree? && t.items != []
    requires SpellElements(BareElements(e)) == ItemText(Tight(fmt), t, 0, depth + 1) + ([] + [RBRACKET])
    ensures SpellJson(Bare(Json.Array(gap, e))) == TextOf(Tight(fmt), t, depth)
  {
    hide SpellElements, ItemText, TextOf;
    ArrayText(Tight(fmt), t, depth, [], BareElements(e));
  }

  lemma ArrayMeans(f: Flags, t: Tree, gap: seq<Space>, e: Elements, text: Str)
    requires IsReadable(t) && t.ArrayTree? && t.items != [] && AllSpacing(f, gap) && SpellJson(Json.Array(gap, e)) == text
    requires MeansItems(f, t, 0, e)
    ensures Spells(f, Json.Array(gap, e), text, Events(Reread(t)))
  {
    hide IsElements, SpellJson, ElementEvents, AllSpacing, AcceptableElements;
    Regroup3([StartArrayEvent], ItemEvents(Reread(t), 0), [EndArrayEvent(|t.items|)]);
  }

  /** The elements mean the items from `k` on and the end of the array. */
  predicate MeansItems(f: Flags, t: Tree, k: nat, e: Elements)
    requires IsReadable(t) && t.ArrayTree? && k < |t.items|
  {
    && IsElements(f, e) && AcceptableElements(f, e)
    && ElementEvents(f, k, e) == ItemEvents(Reread(t), k) + [EndArrayEvent(|t.items|)]
  }

  /** Item `k` without its prefix, and the items after it. */
  function ItemText(fmt: Format, t: Tree, k: nat, depth: nat): Str
    requires t.ArrayTree? && IsTree(t) && k < |t.items|
  {
    TextOf(fmt, t.items[k], depth) + ItemsText(fmt, t, k + 1, depth)
  }

  /** The items from `k` on, up to the end of the array. */
  lemma {:induction false} ItemsAreElements(f: Flags, fmt: Format, t: Tree, k: nat, depth: nat, endGap: Str) returns (e: Elements)
    requires t.ArrayTree? && IsLegal(fmt) && IsReadable(t) && IsTree(t) && CanRead(f, fmt, t) && k < |t.items| && IsBlank(endGap)
    ensures MeansItems(f, t, k, e) && SpellElements(e) == ItemText(fmt, t, k, depth) + (endGap + [RBRACKET])
    ensures SpellElements(BareElements(e)) == ItemText(Tight(fmt), t, k, depth) + ([] + [RBRACKET])
    decreases t, |t.items| - k
  {
    hide *;
    ItemFacts(f, fmt, t, k);
    var value := TreeIsJson(f, fmt, t.items[k], depth);
    SpelledIs(f, value, TextOf(fmt, t.items[k], depth), Events(Reread(t.items[k])));
    BareItem(fmt, value, k, depth);
    if k + 1 < |t.items| {
      var next := ItemsAreElements(f, fmt, t, k + 1, depth, endGap);
      GapsAreBlank(fmt, k + 1, depth, false);
      var gap := BlankIsSpelled(f, ItemGap(fmt, k + 1, depth));
      e := Elements(value, [], NextElements(gap, next));
      ItemThenMore(f, t, k, value, TextOf(fmt, t.items[k], depth), gap, next);
      ItemThenMoreText(fmt, t, k, depth, endGap, value, gap, next);
      ItemThenMoreText(Tight(fmt), t, k, depth, [], Bare(value), [], BareElements(next));
      BareGoesOn(value, gap, next);
    } else {
      var gap := BlankIsSpelled(f, endGap);
      e := Elements(value, gap, NoElement(None));
      LastItem(f, t, k, value, TextOf(fmt, t.items[k], depth), gap);
      LastItemText(fmt, t, k, depth, endGap, value, gap);
      LastItemText(Tight(fmt), t, k, depth, [], Bare(value), []);
      BareEnds(value, gap);
    }
  }

  /** What is known of item `k`. */
  lemma ItemFacts(f: Flags, fmt: Format, t: Tree, k: nat)
    requires t.ArrayTree? && IsReadable(t) && IsTree(t) && CanRead(f, fmt, t) && k < |t.items|
    ensures IsReadable(t.items[k]) && IsTree(t.items[k]) && CanRead(f, fmt, t.items[k]) && |t.items| < 0x1_0000_0000
    ensures IsReadable(t) && Reread(t).ArrayTree? && |Reread(t).items| == |t.items|
  {
    assert t.items[k] in t.items;
  }

  lemma BareItem(fmt: Format, value: Json, k: nat, depth: nat)
    ensures SpellSpaces([]) == [] && ItemGap(Tight(fmt), k + 1, depth) == [] && NameGap(Tight(fmt), depth) == [] && ColonGap(Tight(fmt)) == []
  {
  }

  lemma BareGoesOn(value: Json, gap: seq<Space>, next: Elements)
    ensures BareElements(Elements(value, [], NextElements(gap, next))) == Elements(Bare(value), [], NextElements([], BareElements(next)))
  {
  }

  lemma BareEnds(value: Json, gap: seq<Space>)
    ensures BareElements(Elements(value, gap, NoElement(None))) == Elements(Bare(value), [], NoElement(None))
  {
  }

  lemma ItemThenMore(f: Flags, t: Tree, k: nat, value: Json, text: Str, gap: seq<Space>, next: Elements)
    requires t.ArrayTree? && IsReadable(t) && k + 1 < |t.items| && IsReadable(t.items[k])
    requires Spells(f, value, text, Events(Reread(t.items[k]))) && AllSpacing(f, gap) && MeansItems(f, t, k + 1, next)
    ensures MeansItems(f, t, k, Elements(value, [], NextElements(gap, next)))
  {
    hide SpellJson, IsJson, EventsOf, AllSpacing, IsElements, ElementEvents, IsAcceptable, AcceptableElements;
    ElementsGoOn(f, k, value, gap, next);
    ItemEventsGoOn(t, k);
    Regroup3(Events(Reread(t.items[k])), ItemEvents(Reread(t), k + 1), [EndArrayEvent(|t.items|)]);
  }

  /** A comma, a gap and further elements, on the side of the grammar. */
  lemma ElementsGoOn(f: Flags, count: SizeType, value: Json, gap: seq<Space>, next: Elements)
    requires count + 1 < 0x1_0000_0000
    requires IsJson(f, value) && IsAcceptable(f, value) && AllSpacing(f, gap) && IsElements(f, next) && AcceptableElements(f, next)
    ensures var e := Elements(value, [], NextElements(gap, next));
            && IsElements(f, e) && AcceptableElements(f, e)
            && ElementEvents(f, count, e) == EventsOf(f, value) + ElementEvents(f, count + 1, next)
  {
    var e := Elements(value, [], NextElements(gap, next));
    assert AreMoreElements(f, e.more) && AcceptableMoreElements(f, e.more);
    assert MoreElementEvents(f, Increment(count), e.more) == ElementEvents(f, count + 1, next);
  }

  lemma ItemEventsGoOn(t: Tree, k: nat)
    requires t.ArrayTree? && IsReadable(t) && k < |t.items| && IsReadable(t.items[k])
    ensures |t.items| < 0x1_0000_0000 && Reread(t).ArrayTree? && |Reread(t).items| == |t.items|
    ensures ItemEvents(Reread(t), k) == Events(Reread(t.items[k])) + ItemEvents(Reread(t), k + 1)
    ensures k + 1 == |t.items| ==> ItemEvents(Reread(t), k) == Events(Reread(t.items[k]))
  {
    if k + 1 == |t.items| {
      assert Events(Reread(t.items[k])) + [] == Events(Reread(t.items[k]));
    }
  }

  lemma ItemThenMoreText(fmt: Format, t: Tree, k: nat, depth: nat, endGap: Str, value: Json, gap: seq<Space>, next: Elements)
    requires t.ArrayTree? && IsTree(t) && k + 1 < |t.items| && IsTree(t.items[k])
    requires SpellJson(value) == TextOf(fmt, t.items[k], depth) && SpellSpaces(gap) == ItemGap(fmt, k + 1, depth)
    requires SpellElements(next) == ItemText(fmt, t, k + 1, depth) + (endGap + [RBRACKET])
    ensures SpellElements(Elements(value, [], NextElements(gap, next))) == ItemText(fmt, t, k, depth) + (endGap + [RBRACKET])
  {
    SpelledGoesOn(value, gap, next);
    ItemsGoOn(fmt, t, k, depth);
    hide *;
    var close := endGap + [RBRACKET];
    var text, more := TextOf(fmt, t.items[k], depth), ItemText(fmt, t, k + 1, depth);
    Regroup4([COMMA], ItemGap(fmt, k + 1, depth), more, close);
    Regroup3([COMMA], ItemGap(fmt, k + 1, depth), more);
    Regroup3(text, [COMMA] + (ItemGap(fmt, k + 1, depth) + more), close);
    Regroup3([COMMA], ItemGap(fmt, k + 1, depth) + more, close);
    Regroup3(ItemGap(fmt, k + 1, depth), more, close);
  }

  lemma SpelledGoesOn(value: Json, gap: seq<Space>, next: Elements)
    ensures SpellElements(Elements(value, [], NextElements(gap, next)))
         == SpellJson(value) + ([COMMA] + (SpellSpaces(gap) + SpellElements(next)))
  {
    var e := Elements(value, [], NextElements(gap, next));
    var more := SpellMoreElements(e.more);
    hide SpellJson;
    assert [] + more == more;
  }

  lemma ItemsGoOn(fmt: Format, t: Tree, k: nat, depth: nat)
    requires t.ArrayTree? && IsTree(t) && k + 1 < |t.items|
    ensures ItemText(fmt, t, k, depth)
         == TextOf(fmt, t.items[k], depth) + ([COMMA] + (ItemGap(fmt, k + 1, depth) + ItemText(fmt, t, k + 1, depth)))
  {
    Regroup3([COMMA], ItemGap(fmt, k + 1, depth), ItemText(fmt, t, k + 1, depth));
  }

  lemma LastItem(f: Flags, t: Tree, k: nat, value: Json, text: Str, gap: seq<Space>)
    requires t.ArrayTree? && IsReadable(t) && k + 1 == |t.items| && IsReadable(t.items[k])
    requires Spells(f, value, text, Events(Reread(t.items[k]))) && AllSpacing(f, gap)
    ensures MeansItems(f, t, k, Elements(value, gap, NoElement(None)))
  {
    hide SpellJson, IsJson, EventsOf, AllSpacing, IsAcceptable;
    ItemEventsGoOn(t, k);
    var more := NoElement(None);
    assert AreMoreElements(f, more) && AcceptableMoreElements(f, more);
    assert Increment(k) == k + 1 && MoreElementEvents(f, k + 1, more) == [EndArrayEvent(k + 1)];
  }

  lemma LastItemText(fmt: Format, t: Tree, k: nat, depth: nat, endGap: Str, value: Json, gap: seq<Space>)
    requires t.ArrayTree? && IsTree(t) && k + 1 == |t.items| && IsTree(t.items[k])
    requires SpellJson(value) == TextOf(fmt, t.items[k], depth) && SpellSpaces(gap) == endGap
    ensures SpellElements(Elements(value, gap, NoElement(None))) == ItemText(fmt, t, k, depth) + (endGap + [RBRACKET])
  {
    hide SpellJson, SpellSpaces, TextOf;
    assert SpellMoreElements(NoElement(None)) == [RBRACKET];
    assert ItemText(fmt, t, k, depth) == TextOf(fmt, t.items[k], depth) + [] == TextOf(fmt, t.items[k], depth);
  }

  // --- objects ---

  lemma EmptyObjectIsJson(f: Flags, fmt: Format, t: Tree, depth: nat) returns (j: Json)
    requires IsReadable(t) && IsTree(t) && t.ObjectTree? && t.fields == []
    ensures Spells(f, j, TextOf(fmt, t, depth), Events(Reread(t))) && SpellJson(Bare(j)) == TextOf(Tight(fmt), t, depth)
  {
    j := EmptyObject([]);
    assert FieldEvents(Reread(t), 0) == [];
  }

  lemma ObjectText(fmt: Format, t: Tree, depth: nat, gap: seq<Space>, m: Members)
    requires IsTree(t) && t.ObjectTree? && t.fields != [] && SpellSpaces(gap) == NameGap(fmt, depth + 1)
    requires SpellMembers(m) == FieldText(fmt, t, 0, depth + 1) + (ObjectEndGap(fmt, false, depth) + [RBRACE])
    ensures SpellJson(Json.Object(gap, m)) == TextOf(fmt, t, depth)
  {
    hide SpellMembers, SpellSpaces;
    var first := FieldText(fmt, t, 0, depth + 1);
    assert FieldsText(fmt, t, 0, depth + 1) == SpellSpaces(gap) + first by {
      assert NamePrefix(fmt, 0, depth + 1) == [] + NameGap(fmt, depth + 1) == NameGap(fmt, depth + 1);
    }
    Regroup3(SpellSpaces(gap), first, ObjectEnd(fmt, false, depth));
  }

  lemma BareObjectText(fmt: Format, t: Tree, depth: nat, gap: seq<Space>, m: Members)
    requires IsTree(t) && t.ObjectTree? && t.fields != []
    requires SpellMembers(BareMembers(m)) == FieldText(Tight(fmt), t, 0, depth + 1) + ([] + [RBRACE])
    ensures SpellJson(Bare(Json.Object(gap, m))) == TextOf(Tight(fmt), t, depth)
  {
    hide SpellMembers, FieldText, TextOf;
    ObjectText(Tight(fmt), t, depth, [], BareMembers(m));
  }

  lemma ObjectMeans(f: Flags, t: Tree, gap: seq<Space>, m: Members, text: Str)
    requires IsReadable(t) && t.ObjectTree? && t.fields != [] && AllSpacing(f, gap) && SpellJson(Json.Object(gap, m)) == text
    requires MeansFields(f, t, 0, m)
    ensures Spells(f, Json.Object(gap, m), text, Events(Reread(t)))
  {
    hide IsMembers, SpellJson, MemberEvents, AllSpacing, AcceptableMembers;
    Regroup3([StartObjectEvent], FieldEvents(Reread(t), 0), [EndObjectEvent(|t.fields|)]);
  }

  /** The members mean the fields from `k` on and the end of the object. */
  predicate MeansFields(f: Flags, t: Tree, k: nat, m: Members)
    requires IsReadable(t) && t.ObjectTree? && k < |t.fields|
  {
    && IsMembers(f, m) && AcceptableMembers(f, m)
    && MemberEvents(f, k, m) == FieldEvents(Reread(t), k) + [EndObjectEvent(|t.fields|)]
  }

  /** The fields from `k` on, up to the end of the object. */
  lemma {:induction false} FieldsAreMembers(f: Flags, fmt: Format, t: Tree, k: nat, depth: nat, endGap: Str) returns (m: Members)
    requires t.ObjectTree? && IsLegal(fmt) && IsReadable(t) && IsTree(t) && CanRead(f, fmt, t) && k < |t.fields| && IsBlank(endGap)
    ensures MeansFields(f, t, k, m) && SpellMembers(m) == FieldText(fmt, t, k, depth) + (endGap + [RBRACE])
    ensures SpellMembers(BareMembers(m)) == FieldText(Tight(fmt), t, k, depth) + ([] + [RBRACE])
    decreases t, |t.fields| - k
  {
    hide *;
    FieldFacts(f, fmt, t, k);
    var name := StringIsSpelled(f, t.fields[k].name);
    GapsAreBlank(fmt, k + 1, depth, false);
    var colonGap := BlankIsSpelled(f, ColonGap(fmt));
    var value := TreeIsJson(f, fmt, t.fields[k].value, depth);
    SpelledIs(f, value, TextOf(fmt, t.fields[k].value, depth), Events(Reread(t.fields[k].value)));
    BareItem(fmt, value, k, depth);
    var after: seq<Space>, more := [], NoMember(None);
    if k + 1 < |t.fields| {
      var next := FieldsAreMembers(f, fmt, t, k + 1, depth, endGap);
      var gap := BlankIsSpelled(f, NameGap(fmt, depth));
      more := NextMembers(gap, next);
      FieldsGoOn(f, t, k, gap, next);
      FieldsGoOnText(fmt, t, k, depth, endGap, gap, next);
      FieldsGoOnText(Tight(fmt), t, k, depth, [], [], BareMembers(next));
    } else {
      after := BlankIsSpelled(f, endGap);
      FieldsEnd(f, t, k, after);
      FieldsEndText(fmt, t, k, depth, endGap, after);
      FieldsEndText(Tight(fmt), t, k, depth, [], []);
    }
    m := Members(name, [], colonGap, value, after, more);
    MemberMeans(f, t, k, m, TextOf(fmt, t.fields[k].value, depth));
    MemberText(fmt, t, k, depth, endGap, m);
    BareMemberIs(m);
    MemberText(Tight(fmt), t, k, depth, [], BareMembers(m));
  }

  lemma BareMemberIs(m: Members)
    ensures BareMembers(m) == Members(m.name, [], [], Bare(m.value), [], BareMoreMembers(m.more))
    ensures BareMoreMembers(NoMember(None)) == NoMember(None)
    ensures m.more.NextMembers? ==> BareMoreMembers(m.more) == NextMembers([], BareMembers(m.more.next))
  {
  }

  /** What is known of field `k`. */
  lemma FieldFacts(f: Flags, fmt: Format, t: Tree, k: nat)
    requires t.ObjectTree? && IsReadable(t) && IsTree(t) && CanRead(f, fmt, t) && k < |t.fields|
    ensures var d := t.fields[k];
            IsReadable(d.value) && IsTree(d.value) && CanRead(f, fmt, d.value) && IsReadableString(f, d.name)
    ensures IsReadable(t) && Reread(t).ObjectTree? && |Reread(t).fields| == |t.fields| < 0x1_0000_0000
  {
    assert t.fields[k] in t.fields;
  }

  lemma NothingIsSpelled(f: Flags)
    ensures AllSpacing(f, []) && SpellSpaces([]) == []
  {
  }

  /** The white space and the members after field `k` are what the writer writes after it. */
  predicate TextEndsAs(fmt: Format, t: Tree, k: nat, depth: nat, endGap: Str, after: seq<Space>, more: MoreMembers)
    requires t.ObjectTree? && IsTree(t) && k < |t.fields|
  {
    SpellSpaces(after) + SpellMoreMembers(more) == FieldsText(fmt, t, k + 1, depth) + (endGap + [RBRACE])
  }

  /** The members after field `k` mean the fields after it and the end of the object. */
  predicate MeaningEndsAs(f: Flags, t: Tree, k: nat, after: seq<Space>, more: MoreMembers)
    requires t.ObjectTree? && IsReadable(t) && k < |t.fields| < 0x1_0000_0000
  {
    && AllSpacing(f, after) && AreMoreMembers(f, more) && AcceptableMoreMembers(f, more)
    && MoreMemberEvents(f, k + 1, more) == FieldEvents(Reread(t), k + 1) + [EndObjectEvent(|t.fields|)]
  }

  lemma FieldsGoOn(f: Flags, t: Tree, k: nat, gap: seq<Space>, next: Members)
    requires t.ObjectTree? && IsReadable(t) && k + 1 < |t.fields| && |t.fields| < 0x1_0000_0000
    requires AllSpacing(f, gap) && MeansFields(f, t, k + 1, next)
    ensures MeaningEndsAs(f, t, k, [], NextMembers(gap, next))
  {
    hide AllSpacing, IsMembers, MemberEvents, FieldEvents, AcceptableMembers;
    NothingIsSpelled(f);
  }

  lemma FieldsGoOnText(fmt: Format, t: Tree, k: nat, depth: nat, endGap: Str, gap: seq<Space>, next: Members)
    requires t.ObjectTree? && IsTree(t) && k + 1 < |t.fields| && SpellSpaces(gap) == NameGap(fmt, depth)
    requires SpellMembers(next) == FieldText(fmt, t, k + 1, depth) + (endGap + [RBRACE])
    ensures TextEndsAs(fmt, t, k, depth, endGap, [], NextMembers(gap, next))
  {
    hide SpellMembers, FieldText;
    var m := NextMembers(gap, next);
    Regroup4([COMMA], NameGap(fmt, depth), FieldText(fmt, t, k + 1, depth), endGap + [RBRACE]);
    assert [] + SpellMoreMembers(m) == SpellMoreMembers(m);
  }

  lemma FieldsEnd(f: Flags, t: Tree, k: nat, after: seq<Space>)
    requires t.ObjectTree? && IsReadable(t) && k + 1 == |t.fields| && |t.fields| < 0x1_0000_0000 && AllSpacing(f, after)
    ensures MeaningEndsAs(f, t, k, after, NoMember(None))
  {
    hide AllSpacing;
    assert FieldEvents(Reread(t), k + 1) == [];
    assert [] + [EndObjectEvent(|t.fields|)] == [EndObjectEvent(|t.fields|)];
  }

  lemma FieldsEndText(fmt: Format, t: Tree, k: nat, depth: nat, endGap: Str, after: seq<Space>)
    requires t.ObjectTree? && IsTree(t) && k + 1 == |t.fields| && SpellSpaces(after) == endGap
    ensures TextEndsAs(fmt, t, k, depth, endGap, after, NoMember(None))
  {
    hide SpellSpaces;
    assert FieldsText(fmt, t, k + 1, depth) == [];
    assert [] + (endGap + [RBRACE]) == endGap + [RBRACE];
    assert SpellMoreMembers(NoMember(None)) == [RBRACE];
  }

  lemma MemberText(fmt: Format, t: Tree, k: nat, depth: nat, endGap: Str, m: Members)
    requires t.ObjectTree? && IsTree(t) && k < |t.fields|
    requires SpellString(m.name) == WriteString(t.fields[k].name)
    requires m.beforeColon == [] && SpellSpaces(m.afterColon) == ColonGap(fmt)
    requires IsTree(t.fields[k].value) && SpellJson(m.value) == TextOf(fmt, t.fields[k].value, depth)
    requires TextEndsAs(fmt, t, k, depth, endGap, m.after, m.more)
    ensures SpellMembers(m) == FieldText(fmt, t, k, depth) + (endGap + [RBRACE])
  {
    MembersSplit(m, []);
    assert SpellSpaces([]) == [];
    assert TextEndsAs(fmt, t, k, depth, endGap, m.after, m.more);
    hide SpellString, SpellSpaces, SpellJson, SpellMoreMembers, FieldsText, TextOf, WriteString, ColonGap, SpellMembers;
    var close := endGap + [RBRACE];
    var name, text, more := WriteString(t.fields[k].name), TextOf(fmt, t.fields[k].value, depth), FieldsText(fmt, t, k + 1, depth);
    assert SpellMembers(m) + [] == SpellMembers(m) && SpellFromValue(m) + [] == SpellFromValue(m);
    var colon := [COLON] + (ColonGap(fmt) + SpellFromValue(m));
    assert [] + colon == colon;
    Regroup3(text, more, close);
    assert SpellFromValue(m) == (text + more) + close;
    Regroup3(ColonGap(fmt), text + more, close);
    Regroup3([COLON], ColonGap(fmt), text + more);
    Regroup3([COLON], ColonGap(fmt) + (text + more), close);
    Regroup3(name, ColonText(fmt) + (text + more), close);
  }

  lemma MemberMeans(f: Flags, t: Tree, k: nat, m: Members, text: Str)
    requires t.ObjectTree? && IsReadable(t) && k < |t.fields| < 0x1_0000_0000
    requires IsString(f, m.name) && IsPaired(f, m.name) && Meanings(f, m.name) == t.fields[k].name
    requires m.beforeColon == [] && AllSpacing(f, m.afterColon)
    requires IsReadable(t.fields[k].value) && Spells(f, m.value, text, Events(Reread(t.fields[k].value)))
    requires MeaningEndsAs(f, t, k, m.after, m.more)
    ensures MeansFields(f, t, k, m)
  {
    MemberIsOne(f, t, k, m, text);
    FieldEventsAre(t, k);
    hide SpellSpaces, SpellMoreMembers, IsMembers, FieldEvents, Events, FieldsText, AcceptableMembers, SpellJson, IsReadable, IsJson, IsAcceptable,
      IsString, IsPaired, Meanings, AllSpacing, Spells;
    var key, inner, more := [KeyEvent(t.fields[k].name)], Events(Reread(t.fields[k].value)), FieldEvents(Reread(t), k + 1);
    assert Increment(k) == k + 1;
    Regroup4(key, inner, more, [EndObjectEvent(|t.fields|)]);
  }

  lemma MemberIsOne(f: Flags, t: Tree, k: nat, m: Members, text: Str)
    requires t.ObjectTree? && IsReadable(t) && k < |t.fields| < 0x1_0000_0000
    requires IsString(f, m.name) && IsPaired(f, m.name) && m.beforeColon == [] && AllSpacing(f, m.afterColon)
    requires IsReadable(t.fields[k].value) && Spells(f, m.value, text, Events(Reread(t.fields[k].value)))
    requires MeaningEndsAs(f, t, k, m.after, m.more)
    ensures IsMembers(f, m) && AcceptableMembers(f, m)
    ensures EventsOf(f, m.value) == Events(Reread(t.fields[k].value))
  {
    hide IsJson, IsAcceptable, SpellJson, IsReadable, Events, FieldEvents, EventsOf, IsString, IsPaired;
  }

  lemma FieldEventsAre(t: Tree, k: nat)
    requires t.ObjectTree? && IsReadable(t) && k < |t.fields|
    ensures IsReadable(t.fields[k].value)
    ensures FieldEvents(Reread(t), k) == [KeyEvent(t.fields[k].name)] + Events(Reread(t.fields[k].value)) + FieldEvents(Reread(t), k + 1)
  {
    hide Events;
    assert t.fields[k] in t.fields;
  }

  // ---------------------------------------------------------------------------------------------
  // The text of a tree is read back
  // ---------------------------------------------------------------------------------------------

  /** What may follow a value: a comma, a bracket, white space, or nothing. */
  predicate FollowsValue(s: Str) {
    s == [] || s[0] in {COMMA, RBRACE, RBRACKET} || IsSpace(s[0])
  }

  lemma FollowsEnds(j: Json, s: Str)
    requires FollowsValue(s)
    ensures EndsJson(j, s)
  {
  }

  /** The text of a value is read back as its tree, whatever follows it and whatever the log holds. */
  lemma TreeIsRead(f: Flags, fmt: Format, t: Tree, depth: nat, post: Str, log: seq<Event>)
    requires IsLegal(fmt) && IsReadable(t) && IsTree(t) && CanRead(f, fmt, t) && FollowsValue(post)
    ensures ParseValue(f, State(TextOf(fmt, t, depth) + post, log)) == Ok(State(post, log + Events(Reread(t))))
  {
    hide *;
    var j := TreeIsJson(f, fmt, t, depth);
    SpelledIs(f, j, TextOf(fmt, t, depth), Events(Reread(t)));
    FollowsEnds(j, post);
    JsonIsRead(f, j, post, log);
    OutcomeIs(ParseValue(f, State(TextOf(fmt, t, depth) + post, log)), true, post, log + EventsOf(f, j));
  }

  // ---------------------------------------------------------------------------------------------
  // The round trips
  // ---------------------------------------------------------------------------------------------

  /** A value alone is a JSON text. */
  lemma WholeText(f: Flags, j: Json) returns (text: JsonText)
    requires IsJson(f, j)
    ensures IsJsonText(f, text, []) && SpellJsonText(text) == SpellJson(j) && text.root == j
  {
    hide SpellJson, IsJson;
    text := JsonText([], j, [], []);
    assert SpellJson(j) + ([] + []) == SpellJson(j);
    assert [] + SpellJson(j) == SpellJson(j);
  }

  /** Whatever a well-nested sequence makes the writer write, in any format, is a JSON text with that meaning. */
  lemma WrittenIsJson(f: Flags, fmt: Format, t: Tree) returns (text: JsonText)
    requires IsLegal(fmt) && IsReadable(t) && CanRead(f, fmt, t)
    ensures var w := WriteAll(fmt, Fresh, Events(t));
            && w.Some? && IsComplete(w.value) && IsJsonText(f, text, []) && SpellJsonText(text) == w.value.os
    ensures IsJson(f, text.root) && IsAcceptable(f, text.root) && EventsOf(f, text.root) == Events(Reread(t))
    ensures IsTree(t) && SpellJson(Bare(text.root)) == TextOf(Tight(fmt), t, 0)
  {
    hide CanRead, IsJsonText, SpellJsonText, EventsOf, IsJson, IsAcceptable, Spells, SpellJson;
    ReadableIsTree(t);
    SequenceIsWritten(fmt, t);
    var j := TreeIsJson(f, fmt, t, 0);
    SpelledIs(f, j, TextOf(fmt, t, 0), Events(Reread(t)));
    text := WholeText(f, j);
  }

  /**
   * Printing a well-nested sequence, in any format, and parsing the text, with any flags, raises the
   * same sequence: integers in the reader's types, counts true, everything else unchanged.
   */
  lemma ParseUndoesWrite(f: Flags, fmt: Format, t: Tree)
    requires IsLegal(fmt) && IsReadable(t) && CanRead(f, fmt, t)
    ensures var w := WriteAll(fmt, Fresh, Events(t));
            && w.Some? && IsComplete(w.value)
            && ParseText(f, w.value.os) == Ok(State([], Events(Reread(t))))
  {
    hide CanRead, IsJsonText, SpellJsonText, EventsOf, IsJson, IsAcceptable, ParseText, SpellJson;
    var text := WrittenIsJson(f, fmt, t);
    JsonTextIsRead(f, text, []);
    assert SpellJsonText(text) + [] == SpellJsonText(text);
  }

  /** Two formats of one sequence are read as the same events. */
  lemma FormatDoesNotMatter(f: Flags, fmt1: Format, fmt2: Format, t: Tree)
    requires IsLegal(fmt1) && IsLegal(fmt2) && IsReadable(t) && CanRead(f, fmt1, t) && CanRead(f, fmt2, t)
    ensures WriteAll(fmt1, Fresh, Events(t)).Some? && WriteAll(fmt2, Fresh, Events(t)).Some?
    ensures ParseText(f, WriteAll(fmt1, Fresh, Events(t)).value.os) == ParseText(f, WriteAll(fmt2, Fresh, Events(t)).value.os)
  {
    hide ParseText;
    ParseUndoesWrite(f, fmt1, t);
    ParseUndoesWrite(f, fmt2, t);
  }

  /** What is written of a tree in this format, as a text of the grammar. */
  predicate IsWrittenAs(f: Flags, fmt: Format, t: Tree, text: JsonText) {
    var w := WriteAll(fmt, Fresh, Events(t));
    w.Some? && IsJsonText(f, text, []) && SpellJsonText(text) == w.value.os
  }

  /** Two formats that print doubles alike differ in the white space between tokens and in nothing else. */
  lemma FormatsDifferInSpace(f: Flags, fmt1: Format, fmt2: Format, t: Tree) returns (text1: JsonText, text2: JsonText)
    requires IsLegal(fmt1) && IsLegal(fmt2) && fmt1.printer == fmt2.printer && IsReadable(t) && CanRead(f, fmt1, t) && CanRead(f, fmt2, t)
    ensures IsWrittenAs(f, fmt1, t, text1) && IsWrittenAs(f, fmt2, t, text2)
    ensures SpellJson(Bare(text1.root)) == SpellJson(Bare(text2.root))
  {
    hide CanRead, IsJsonText, SpellJsonText, SpellJson, Bare;
    text1 := WrittenIsJson(f, fmt1, t);
    text2 := WrittenIsJson(f, fmt2, t);
  }

  lemma {:induction false} CountedIsReadable(t: Tree)
    requires IsCounted(t)
    ensures IsReadable(t)
    decreases t
  {
    match t
    case Leaf(_) =>
    case ArrayTree(items, _) =>
      forall i | i in items ensures IsReadable(i) { CountedIsReadable(i); }
    case ObjectTree(fields, _) =>
      forall d | d in fields ensures IsReadable(d.value) { CountedIsReadable(d.value); }
  }

  /** What is read back denotes the same value. */
  lemma {:induction false} RereadDenotesSame(t: Tree)
    requires IsCounted(t) && IsReadable(t)
    ensures IsCounted(Reread(t)) && ValueOf(Reread(t)) == ValueOf(t)
    decreases t
  {
    match t
    case Leaf(_) =>
    case ArrayTree(items, _) =>
      forall k | 0 <= k < |items| ensures IsCounted(Reread(items[k])) && ValueOf(Reread(items[k])) == ValueOf(items[k]) {
        RereadDenotesSame(items[k]);
      }
    case ObjectTree(fields, _) =>
      forall k | 0 <= k < |fields|
        ensures IsCounted(Reread(fields[k].value)) && ValueOf(Reread(fields[k].value)) == ValueOf(fields[k].value)
      {
        RereadDenotesSame(fields[k].value);
      }
  }

  /**
   * Printing a DOM value in any format, parsing the text and building from the events gives the value
   * back, type flags of its numbers included.
   */
  lemma PrintParseBuildIsIdentity(f: Flags, fmt: Format, v: Value)
    requires IsLegal(fmt) && IsValid(v)
    requires CanRead(f, fmt, TreeOf(v))
    ensures IsReparsed(f, fmt, v)
  {
    var t := TreeOf(v);
    TreeOfDenotes(v);
    CountedIsReadable(t);
    ParseUndoesWrite(f, fmt, t);
    RereadDenotesSame(t);
    TreeBuilds(Reread(t));
    assert Build([], Events(Reread(t))) == Some([] + [v]);
    assert [] + [v] == [v];
  }

  /** The doubles of a value convert back from what is printed for them. */
  predicate RoundTrips(f: Flags, p: Printer, v: Value) {
    match v
    case Double(bits) => ReadsBack(f, p, bits)
    case Array(elements) => forall e :: e in elements ==> RoundTrips(f, p, e)
    case Object(members) => forall m :: m in members ==> RoundTrips(f, p, m.value)
    case _ => true
  }

  /** A value as the parser makes it can be read again. */
  lemma {:induction false} ParsedCanBeRead(f: Flags, fmt: Format, v: Value)
    requires ParsedDocument.IsParsed(f, v) && RoundTrips(f, fmt.printer, v)
    ensures CanRead(f, fmt, TreeOf(v))
    decreases v
  {
    match v
    case Array(elements) =>
      forall e | e in elements ensures CanRead(f, fmt, TreeOf(e)) { ParsedCanBeRead(f, fmt, e); }
    case Object(members) =>
      forall m | m in members ensures CanRead(f, fmt, TreeOf(m.value)) { ParsedCanBeRead(f, fmt, m.value); }
    case _ =>
  }

  /**
   * Any document that a text was parsed into survives: printing it in any format and parsing that text builds
   * the very same document, when reading the doubles in it undoes printing them.
   */
  lemma ParsePrintParse(f: Flags, fmt: Format, text: Str)
    requires IsLegal(fmt) && ParseText(f, text).Ok? && ParsedDocument.BuildsOne(ParseText(f, text).state.log)
    requires RoundTrips(f, fmt.printer, ParsedDocument.BuiltFrom(ParseText(f, text).state.log))
    ensures var v := ParsedDocument.BuiltFrom(ParseText(f, text).state.log);
            IsValid(v) && IsReparsed(f, fmt, v)
  {
    hide ParseText, RoundTrips, ParsedDocument.BuildsOne, IsReparsed;
    var v := ParsedDocument.BuiltFrom(ParseText(f, text).state.log);
    ParsedDocument.BuiltIsParsed(f, text);
    ParsedCanBeRead(f, fmt, v);
    PrintParseBuildIsIdentity(f, fmt, v);
  }

  /** Printed, parsed and built, a value is itself. */
  ghost predicate IsReparsed(f: Flags, fmt: Format, v: Value)
    requires IsValid(v)
  {
    var w := WriteAll(fmt, Fresh, Accept(v));
    && w.Some?
    && var r := ParseText(f, w.value.os);
       && r.Ok? && r.state.rest == []
       && AllInRange(r.state.log) && Build([], r.state.log) == Some([v])
  }
}
