/**
 * Which event sequences the writer takes without a failed assertion: the well-nested ones with one root,
 * in which a name and a string are the same event.
 */
module WriterAccepts {
  import opened Text
  import opened ParseTypes
  import opened Document
  import opened Writer
  import StringCodec

  /** `Key` is `String` to the writer. */
  function Loose(e: Event): Event {
    if e.KeyEvent? then StringEvent(e.str) else e
  }

  function LooseAll(events: seq<Event>): (r: seq<Event>)
    ensures |r| == |events|
  {
    seq(|events|, k requires 0 <= k < |events| => Loose(events[k]))
  }

  lemma LooseAppend(a: seq<Event>, b: seq<Event>)
    ensures LooseAll(a + b) == LooseAll(a) + LooseAll(b)
  {
  }

  lemma LooseFirst(events: seq<Event>)
    requires events != []
    ensures LooseAll(events) == [Loose(events[0])] + LooseAll(events[1..])
  {
  }

  lemma WritesLoosely(fmt: Format, w: Writing, e: Event)
    ensures Write(fmt, w, Loose(e)) == Write(fmt, w, e)
  {
  }

  lemma {:induction false} WritesAllLoosely(fmt: Format, w: Writing, events: seq<Event>)
    ensures WriteAll(fmt, w, LooseAll(events)) == WriteAll(fmt, w, events)
    decreases |events|
  {
    if events != [] {
      WritesLoosely(fmt, w, events[0]);
      LooseFirst(events);
      assert LooseAll(events)[1..] == LooseAll(events[1..]);
      match Write(fmt, w, events[0])
      case None =>
      case Some(next) => WritesAllLoosely(fmt, next, events[1..]);
    }
  }

  predicate IsClose(e: Event) {
    e.EndObjectEvent? || e.EndArrayEvent?
  }

  // ---------------------------------------------------------------------------------------------
  // Reading a tree off the events
  // ---------------------------------------------------------------------------------------------

  function AllItemEvents(items: seq<Tree>): seq<Event> {
    if items == [] then [] else Events(items[0]) + AllItemEvents(items[1..])
  }

  function AllFieldEvents(fields: seq<Field>): seq<Event> {
    if fields == [] then [] else [KeyEvent(fields[0].name)] + Events(fields[0].value) + AllFieldEvents(fields[1..])
  }

  lemma {:induction false} ItemEventsAre(t: Tree, k: nat)
    requires t.ArrayTree? && k <= |t.items|
    ensures ItemEvents(t, k) == AllItemEvents(t.items[k..])
    decreases |t.items| - k
  {
    if k < |t.items| {
      assert t.items[k..][0] == t.items[k] && t.items[k..][1..] == t.items[k + 1..];
      ItemEventsAre(t, k + 1);
    }
  }

  lemma {:induction false} FieldEventsAre(t: Tree, k: nat)
    requires t.ObjectTree? && k <= |t.fields|
    ensures FieldEvents(t, k) == AllFieldEvents(t.fields[k..])
    decreases |t.fields| - k
  {
    if k < |t.fields| {
      assert t.fields[k..][0] == t.fields[k] && t.fields[k..][1..] == t.fields[k + 1..];
      FieldEventsAre(t, k + 1);
    }
  }

  /** The rest of a run: where the writer goes on from, and with which events. */
  datatype Rest = Rest(w: Writing, events: seq<Event>)

  predicate Continues(fmt: Format, r: Rest, end: Writing, levels: seq<Level>, longer: seq<Event>) {
    WriteAll(fmt, r.w, r.events) == Some(end) && r.w.levels == levels && r.w.hasRoot && |r.events| < |longer|
  }

  /** A value is due, and the run ends no deeper than here: the events start with those of a tree. */
  lemma {:induction false} TakeTree(fmt: Format, w: Writing, events: seq<Event>, end: Writing) returns (t: Tree, r: Rest)
    requires WriteAll(fmt, w, events) == Some(end) && |end.levels| <= |w.levels|
    requires HasRoot(w) && MayPrefix(w, false) && events != [] && !IsClose(events[0])
    ensures IsTree(t) && LooseAll(events) == LooseAll(Events(t)) + LooseAll(r.events)
    ensures Continues(fmt, r, end, Counted(w.levels), events)
    decreases |events|, 0
  {
    FirstWritten(fmt, w, events, end);
    var e, more, next := events[0], events[1..], Write(fmt, w, events[0]).value;
    LooseFirst(events);
    hide *;
    if e.StartArrayEvent? {
      var items, count;
      items, count, r := TakeItems(fmt, Counted(w.levels), 0, next, more, end);
      t := ArrayTree(items, count);
      TreesOf(items, [], count);
      ArrayEventsAre(items, count);
      Regroup3([e], LooseAll(AllItemEvents(items)) + [EndArrayEvent(count)], LooseAll(r.events));
      ContinuesFurther(fmt, r, end, Counted(w.levels), more, events);
    } else if e.StartObjectEvent? {
      var fields, count;
      fields, count, r := TakeFields(fmt, Counted(w.levels), 0, next, more, end);
      t := ObjectTree(fields, count);
      TreesOf([], fields, count);
      ObjectEventsAre(fields, count);
      Regroup3([e], LooseAll(AllFieldEvents(fields)) + [EndObjectEvent(count)], LooseAll(r.events));
      ContinuesFurther(fmt, r, end, Counted(w.levels), more, events);
    } else {
      t, r := Leaf(Loose(e)), Rest(next, more);
      LeafIsTaken(fmt, e, next, more, end, Counted(w.levels), events);
    }
  }

  /** What the first event of a value does to the levels. */
  lemma FirstWritten(fmt: Format, w: Writing, events: seq<Event>, end: Writing)
    requires WriteAll(fmt, w, events) == Some(end)
    requires HasRoot(w) && MayPrefix(w, false) && events != [] && !IsClose(events[0])
    ensures Write(fmt, w, events[0]).Some?
    ensures var e, next := events[0], Write(fmt, w, events[0]).value;
            && WriteAll(fmt, next, events[1..]) == Some(end) && next.hasRoot
            && |Counted(w.levels)| == |w.levels| && |events[1..]| < |events|
            && (e.StartArrayEvent? ==> next.levels == With(Counted(w.levels), true, 0) && Loose(e) == e)
            && (e.StartObjectEvent? ==> next.levels == With(Counted(w.levels), false, 2 * 0) && Loose(e) == e)
            && (!e.StartArrayEvent? && !e.StartObjectEvent? ==> next.levels == Counted(w.levels))
  {
  }

  lemma LeafIsTaken(fmt: Format, e: Event, next: Writing, more: seq<Event>, end: Writing, levels: seq<Level>, events: seq<Event>)
    requires !IsClose(e) && !e.StartArrayEvent? && !e.StartObjectEvent?
    requires WriteAll(fmt, next, more) == Some(end) && next.levels == levels && next.hasRoot && |more| < |events|
    ensures Continues(fmt, Rest(next, more), end, levels, events)
    ensures IsTree(Leaf(Loose(e))) && LooseAll(Events(Leaf(Loose(e)))) == [Loose(e)]
  {
  }

  lemma TreesOf(items: seq<Tree>, fields: seq<Field>, count: SizeType)
    requires forall i :: i in items ==> IsTree(i)
    requires forall d :: d in fields ==> IsTree(d.value)
    ensures IsTree(ArrayTree(items, count)) && IsTree(ObjectTree(fields, count))
  {
  }

  lemma ArrayEventsAre(items: seq<Tree>, count: SizeType)
    ensures LooseAll(Events(ArrayTree(items, count)))
         == [StartArrayEvent] + (LooseAll(AllItemEvents(items)) + [EndArrayEvent(count)])
  {
    ItemEventsAre(ArrayTree(items, count), 0);
    assert items[0..] == items;
  }

  lemma ObjectEventsAre(fields: seq<Field>, count: SizeType)
    ensures LooseAll(Events(ObjectTree(fields, count)))
         == [StartObjectEvent] + (LooseAll(AllFieldEvents(fields)) + [EndObjectEvent(count)])
  {
    FieldEventsAre(ObjectTree(fields, count), 0);
    assert fields[0..] == fields;
  }

  /** Inside an array with `k` items written: more items, then the end. */
  lemma {:induction false} TakeItems(fmt: Format, levels: seq<Level>, k: nat, w: Writing, events: seq<Event>, end: Writing)
    returns (items: seq<Tree>, count: SizeType, r: Rest)
    requires WriteAll(fmt, w, events) == Some(end) && |end.levels| <= |levels|
    requires w.levels == With(levels, true, k) && w.hasRoot
    ensures forall i :: i in items ==> IsTree(i)
    ensures LooseAll(events) == LooseAll(AllItemEvents(items)) + [EndArrayEvent(count)] + LooseAll(r.events)
    ensures Continues(fmt, r, end, levels, events)
    decreases |events|, 1
  {
    ItemDue(fmt, levels, k, w, events, end);
    hide *;
    if IsClose(events[0]) {
      count, r := ArrayEnds(fmt, levels, k, w, events, end);
      items := [];
    } else {
      var t, next := TakeTree(fmt, w, events, end);
      var others;
      ContinuesAre(fmt, next, end, With(levels, true, k + 1), events);
      others, count, r := TakeItems(fmt, levels, k + 1, next.w, next.events, end);
      items := [t] + others;
      ContinuesFurther(fmt, r, end, levels, next.events, events);
      ItemsJoin(t, others, [EndArrayEvent(count)], LooseAll(r.events));
    }
  }

  lemma ItemDue(fmt: Format, levels: seq<Level>, k: nat, w: Writing, events: seq<Event>, end: Writing)
    requires WriteAll(fmt, w, events) == Some(end) && |end.levels| <= |levels|
    requires w.levels == With(levels, true, k) && w.hasRoot
    ensures events != [] && HasRoot(w) && MayPrefix(w, false) && Counted(w.levels) == With(levels, true, k + 1)
    ensures |w.levels| == |levels| + 1
  {
    WithCounted(fmt, levels, true, k);
  }

  lemma ArrayEnds(fmt: Format, levels: seq<Level>, k: nat, w: Writing, events: seq<Event>, end: Writing) returns (count: SizeType, r: Rest)
    requires WriteAll(fmt, w, events) == Some(end) && events != [] && IsClose(events[0])
    requires w.levels == With(levels, true, k) && w.hasRoot
    ensures LooseAll(events) == LooseAll(AllItemEvents([])) + [EndArrayEvent(count)] + LooseAll(r.events)
    ensures Continues(fmt, r, end, levels, events)
  {
    WithCounted(fmt, levels, true, k);
    LooseFirst(events);
    count, r := events[0].count, Rest(Write(fmt, w, events[0]).value, events[1..]);
  }

  lemma ContinuesAre(fmt: Format, r: Rest, end: Writing, levels: seq<Level>, longer: seq<Event>)
    requires Continues(fmt, r, end, levels, longer)
    ensures WriteAll(fmt, r.w, r.events) == Some(end) && r.w.levels == levels && r.w.hasRoot && |r.events| < |longer|
  {
  }

  lemma ContinuesFurther(fmt: Format, r: Rest, end: Writing, levels: seq<Level>, longer: seq<Event>, longest: seq<Event>)
    requires Continues(fmt, r, end, levels, longer) && |longer| < |longest|
    ensures Continues(fmt, r, end, levels, longest)
  {
  }

  lemma ItemsJoin(t: Tree, others: seq<Tree>, close: seq<Event>, rest: seq<Event>)
    ensures LooseAll(Events(t)) + (LooseAll(AllItemEvents(others)) + close + rest)
         == LooseAll(AllItemEvents([t] + others)) + close + rest
  {
    assert ([t] + others)[1..] == others;
    LooseAppend(Events(t), AllItemEvents(others));
    Regroup4(LooseAll(Events(t)), LooseAll(AllItemEvents(others)), close, rest);
    Regroup3(LooseAll(AllItemEvents(others)), close, rest);
  }

  /** Inside an object with `k` members written: more names and values, then the end. */
  lemma {:induction false} TakeFields(fmt: Format, levels: seq<Level>, k: nat, w: Writing, events: seq<Event>, end: Writing)
    returns (fields: seq<Field>, count: SizeType, r: Rest)
    requires WriteAll(fmt, w, events) == Some(end) && |end.levels| <= |levels|
    requires w.levels == With(levels, false, 2 * k) && w.hasRoot
    ensures forall d :: d in fields ==> IsTree(d.value)
    ensures LooseAll(events) == LooseAll(AllFieldEvents(fields)) + [EndObjectEvent(count)] + LooseAll(r.events)
    ensures Continues(fmt, r, end, levels, events)
    decreases |events|, 1
  {
    NameDue(fmt, levels, k, w, events, end);
    hide *;
    if IsClose(events[0]) {
      count, r := ObjectEnds(fmt, levels, k, w, events, end);
      fields := [];
    } else {
      var named, name := NameTaken(fmt, levels, k, w, events, end);
      NameNeedsValue(fmt, levels, k, named, events[1..], end);
      var t, next := TakeTree(fmt, named, events[1..], end);
      ContinuesAre(fmt, next, end, With(levels, false, 2 * (k + 1)), events[1..]);
      var others;
      others, count, r := TakeFields(fmt, levels, k + 1, next.w, next.events, end);
      fields := [Field(name, t)] + others;
      ContinuesFurther(fmt, r, end, levels, next.events, events);
      LooseFirst(events);
      FieldsJoin(name, t, others, [EndObjectEvent(count)], LooseAll(r.events));
    }
  }

  lemma NameDue(fmt: Format, levels: seq<Level>, k: nat, w: Writing, events: seq<Event>, end: Writing)
    requires WriteAll(fmt, w, events) == Some(end) && |end.levels| <= |levels|
    requires w.levels == With(levels, false, 2 * k) && w.hasRoot
    ensures events != []
  {
    WithCounted(fmt, levels, false, 2 * k);
  }

  /** What comes first in an object, if not its end, is a name. */
  lemma NameTaken(fmt: Format, levels: seq<Level>, k: nat, w: Writing, events: seq<Event>, end: Writing) returns (named: Writing, name: Str)
    requires WriteAll(fmt, w, events) == Some(end) && events != [] && !IsClose(events[0])
    requires w.levels == With(levels, false, 2 * k) && w.hasRoot
    ensures WriteAll(fmt, named, events[1..]) == Some(end) && named.levels == With(levels, false, 2 * k + 1) && named.hasRoot
    ensures Loose(events[0]) == StringEvent(name)
  {
    hide PrefixText, ScalarText, StringCodec.WriteString;
    WithCounted(fmt, levels, false, 2 * k);
    named, name := Write(fmt, w, events[0]).value, events[0].str;
  }

  lemma ObjectEnds(fmt: Format, levels: seq<Level>, k: nat, w: Writing, events: seq<Event>, end: Writing) returns (count: SizeType, r: Rest)
    requires WriteAll(fmt, w, events) == Some(end) && events != [] && IsClose(events[0])
    requires w.levels == With(levels, false, 2 * k) && w.hasRoot
    ensures LooseAll(events) == LooseAll(AllFieldEvents([])) + [EndObjectEvent(count)] + LooseAll(r.events)
    ensures Continues(fmt, r, end, levels, events)
  {
    WithCounted(fmt, levels, false, 2 * k);
    LooseFirst(events);
    count, r := events[0].count, Rest(Write(fmt, w, events[0]).value, events[1..]);
  }

  /** After a name the object cannot end. */
  lemma NameNeedsValue(fmt: Format, levels: seq<Level>, k: nat, w: Writing, events: seq<Event>, end: Writing)
    requires WriteAll(fmt, w, events) == Some(end) && |end.levels| <= |levels|
    requires w.levels == With(levels, false, 2 * k + 1) && w.hasRoot
    ensures events != [] && !IsClose(events[0]) && HasRoot(w) && MayPrefix(w, false) && Counted(w.levels) == With(levels, false, 2 * (k + 1))
    ensures |w.levels| == |levels| + 1
  {
    WithCounted(fmt, levels, false, 2 * k + 1);
  }

  lemma FieldsJoin(name: Str, t: Tree, others: seq<Field>, close: seq<Event>, rest: seq<Event>)
    ensures [StringEvent(name)] + (LooseAll(Events(t)) + (LooseAll(AllFieldEvents(others)) + close + rest))
         == LooseAll(AllFieldEvents([Field(name, t)] + others)) + close + rest
  {
    var key, value, more := [KeyEvent(name)], Events(t), AllFieldEvents(others);
    assert ([Field(name, t)] + others)[1..] == others;
    LooseAppend(key + value, more);
    LooseAppend(key, value);
    assert LooseAll(key) == [StringEvent(name)];
    Regroup5(LooseAll(key), LooseAll(value), LooseAll(more), close, rest);
    Regroup3(LooseAll(more), close, rest);
  }

  // ---------------------------------------------------------------------------------------------
  // The sequences accepted
  // ---------------------------------------------------------------------------------------------

  /** One root, well nested, names where the tree has names or strings. */
  ghost predicate IsWellNested(events: seq<Event>) {
    exists t :: IsTree(t) && LooseAll(events) == LooseAll(Events(t))
  }

  /**
   * The writer takes a sequence without a failed assertion and is complete if and only if the sequence is
   * well nested with a single root.
   */
  lemma CompleteIffWellNested(fmt: Format, events: seq<Event>)
    ensures IsWellNested(events) <==> WriteAll(fmt, Fresh, events).Some? && IsComplete(WriteAll(fmt, Fresh, events).value)
  {
    var w := WriteAll(fmt, Fresh, events);
    if w.Some? && IsComplete(w.value) {
      assert events != [] && !IsClose(events[0]);
      var t, r := TakeTree(fmt, Fresh, events, w.value);
      OnlyOneRoot(fmt, r.w, r.events, w.value);
      assert LooseAll(Events(t)) + LooseAll([]) == LooseAll(Events(t));
    }
    if IsWellNested(events) {
      var t :| IsTree(t) && LooseAll(events) == LooseAll(Events(t));
      SequenceIsWritten(fmt, t);
      WritesAllLoosely(fmt, Fresh, events);
      WritesAllLoosely(fmt, Fresh, Events(t));
    }
  }

  /** Once the root is complete nothing more is taken. */
  lemma OnlyOneRoot(fmt: Format, w: Writing, events: seq<Event>, end: Writing)
    requires WriteAll(fmt, w, events) == Some(end) && w.levels == [] && w.hasRoot
    ensures events == []
  {
  }
}
