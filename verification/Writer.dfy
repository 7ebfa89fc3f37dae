/**
 * Writing JSON: Writer and PrettyWriter of include/rapidjson/writer.h and prettywriter.h. The
 * writer is a machine driven by events with a stack of levels; what it writes for a well-nested
 * sequence is described by the text of the sequence's tree.
 */
module Writer {
  import opened Text
  import opened ParseTypes
  import StringCodec
  import Number
  import DoubleText
  import opened Values
  import opened Document

  /** `Writer`, or `PrettyWriter` with its indentation and array format; and how doubles are printed. */
  datatype Format =
    | Compact(printer: DoubleText.Printer)
    | Pretty(printer: DoubleText.Printer, indentChar: Ch, indentCount: nat, singleLineArray: bool)

  /** `SetIndent` asserts that the indentation is white space. */
  predicate IsLegal(fmt: Format) {
    fmt.Pretty? ==> IsSpace(fmt.indentChar)
  }

  datatype Level = Level(inArray: bool, valueCount: nat)

  datatype Writing = Writing(os: Str, levels: seq<Level>, hasRoot: bool) {
    function Put(s: Str): Writing {
      Writing(os + s, levels, hasRoot)
    }
  }

  /** Once something is open, the root is under way. */
  predicate HasRoot(w: Writing) {
    w.levels != [] ==> w.hasRoot
  }

  const Fresh: Writing := Writing([], [], false)

  /** A value has been written and nothing is open. */
  predicate IsComplete(w: Writing) {
    w.hasRoot && w.levels == []
  }

  function Indent(fmt: Format, depth: nat): (s: Str)
    requires fmt.Pretty?
    ensures |s| == depth * fmt.indentCount && forall k :: 0 <= k < |s| ==> s[k] == fmt.indentChar
  {
    assert depth * fmt.indentCount >= 0;
    seq(depth * fmt.indentCount, _ => fmt.indentChar)
  }

  /** What comes before item `k` of an array nested `depth` deep, its comma aside. */
  function ItemGap(fmt: Format, k: nat, depth: nat): Str {
    if fmt.Compact? then []
    else if fmt.singleLineArray then if k > 0 then [SPACE] else []
    else [LF] + Indent(fmt, depth)
  }

  function NameGap(fmt: Format, depth: nat): Str {
    if fmt.Compact? then [] else [LF] + Indent(fmt, depth)
  }

  function ColonGap(fmt: Format): Str {
    if fmt.Compact? then [] else [SPACE]
  }

  function ArrayEndGap(fmt: Format, empty: bool, depth: nat): Str {
    if fmt.Compact? || empty || fmt.singleLineArray then [] else [LF] + Indent(fmt, depth)
  }

  function ObjectEndGap(fmt: Format, empty: bool, depth: nat): Str {
    if fmt.Compact? || empty then [] else [LF] + Indent(fmt, depth)
  }

  function Comma(k: nat): Str {
    if k > 0 then [COMMA] else []
  }

  /** What comes before item `k` of an array. */
  function ItemPrefix(fmt: Format, k: nat, depth: nat): Str {
    Comma(k) + ItemGap(fmt, k, depth)
  }

  /** What comes before name `k` of an object. */
  function NamePrefix(fmt: Format, k: nat, depth: nat): Str {
    Comma(k) + NameGap(fmt, depth)
  }

  function ColonText(fmt: Format): Str {
    [COLON] + ColonGap(fmt)
  }

  function ArrayEnd(fmt: Format, empty: bool, depth: nat): Str {
    ArrayEndGap(fmt, empty, depth) + [RBRACKET]
  }

  function ObjectEnd(fmt: Format, empty: bool, depth: nat): Str {
    ObjectEndGap(fmt, empty, depth) + [RBRACE]
  }

  /** What `Prefix` or `PrettyPrefix` writes before a value. */
  function PrefixText(fmt: Format, levels: seq<Level>): Str {
    if levels == [] then []
    else
      var top := levels[|levels| - 1];
      if top.inArray then ItemPrefix(fmt, top.valueCount, |levels|)
      else if top.valueCount % 2 == 0 then NamePrefix(fmt, top.valueCount / 2, |levels|)
      else ColonText(fmt)
  }

  /** The prefix's assertions: one root only, and a name wherever an object is due one. */
  predicate MayPrefix(w: Writing, isString: bool) {
    if w.levels == [] then !w.hasRoot
    else
      var top := w.levels[|w.levels| - 1];
      top.inArray || top.valueCount % 2 == 1 || isString
  }

  function Counted(levels: seq<Level>): seq<Level> {
    if levels == [] then []
    else
      var last := |levels| - 1;
      levels[last := levels[last].(valueCount := levels[last].valueCount + 1)]
  }

  function Prefix(fmt: Format, w: Writing): Writing {
    Writing(w.os + PrefixText(fmt, w.levels), Counted(w.levels), w.hasRoot || w.levels == [])
  }

  /** The text of a scalar event. */
  function ScalarText(fmt: Format, e: Event): Str
    requires IsScalar(e)
  {
    match e
    case NullEvent => [0x6E, 0x75, 0x6C, 0x6C]
    case BoolEvent(b) => if b then [0x74, 0x72, 0x75, 0x65] else [0x66, 0x61, 0x6C, 0x73, 0x65]
    case IntEvent(i) => Number.Print(i)
    case UintEvent(u) => Number.Print(u)
    case Int64Event(i) => Number.Print(i)
    case Uint64Event(u) => Number.Print(u)
    case DoubleEvent(bits) => DoubleText.WriteDouble(fmt.printer, bits)
    case StringEvent(str) => StringCodec.WriteString(str)
  }

  /** One handler call; None stands for a failed assertion. */
  function Write(fmt: Format, w: Writing, e: Event): Option<Writing> {
    match e
    case KeyEvent(name) =>
      if MayPrefix(w, true) then Some(Prefix(fmt, w).Put(StringCodec.WriteString(name))) else None
    case StartObjectEvent => Open(fmt, w, false)
    case StartArrayEvent => Open(fmt, w, true)
    case EndObjectEvent(_) => Close(fmt, w, false)
    case EndArrayEvent(_) => Close(fmt, w, true)
    case _ =>
      if MayPrefix(w, e.StringEvent?) then Some(Prefix(fmt, w).Put(ScalarText(fmt, e))) else None
  }

  function Open(fmt: Format, w: Writing, inArray: bool): Option<Writing> {
    if !MayPrefix(w, false) then None
    else
      var p := Prefix(fmt, w);
      Some(Writing(p.os + [if inArray then LBRACKET else LBRACE], p.levels + [Level(inArray, 0)], p.hasRoot))
  }

  function Close(fmt: Format, w: Writing, inArray: bool): Option<Writing> {
    if w.levels == [] then None
    else
      var top, rest := w.levels[|w.levels| - 1], w.levels[..|w.levels| - 1];
      if top.inArray != inArray || (!inArray && top.valueCount % 2 != 0) then None
      else if inArray then
        Some(Writing(w.os + ArrayEnd(fmt, top.valueCount == 0, |rest|), rest, w.hasRoot))
      else
        Some(Writing(w.os + ObjectEnd(fmt, top.valueCount == 0, |rest|), rest, w.hasRoot))
  }

  function WriteAll(fmt: Format, w: Writing, events: seq<Event>): Option<Writing>
    decreases |events|
  {
    if events == [] then Some(w)
    else
      match Write(fmt, w, events[0])
      case None => None
      case Some(next) => WriteAll(fmt, next, events[1..])
  }

  lemma {:induction false} WriteAppend(fmt: Format, w: Writing, a: seq<Event>, b: seq<Event>)
    ensures WriteAll(fmt, w, a + b)
         == if WriteAll(fmt, w, a).None? then None else WriteAll(fmt, WriteAll(fmt, w, a).value, b)
    decreases |a|
  {
    if a == [] {
      assert a + b == b;
    } else {
      assert (a + b)[0] == a[0] && (a + b)[1..] == a[1..] + b;
      match Write(fmt, w, a[0])
      case None =>
      case Some(next) => WriteAppend(fmt, next, a[1..], b);
    }
  }

  lemma WriteOne(fmt: Format, w: Writing, e: Event)
    ensures WriteAll(fmt, w, [e]) == Write(fmt, w, e)
  {
  }

  // ---------------------------------------------------------------------------------------------
  // The text of a tree
  // ---------------------------------------------------------------------------------------------

  /** Leaves are scalars. */
  predicate IsTree(t: Tree) {
    match t
    case Leaf(event) => IsScalar(event)
    case ArrayTree(items, _) => forall i :: i in items ==> IsTree(i)
    case ObjectTree(fields, _) => forall d :: d in fields ==> IsTree(d.value)
  }

  /** The text of a value with `depth` levels around it. */
  function TextOf(fmt: Format, t: Tree, depth: nat): Str
    requires IsTree(t)
    decreases t
  {
    match t
    case Leaf(event) => ScalarText(fmt, event)
    case ArrayTree(items, _) => [LBRACKET] + (ItemsText(fmt, t, 0, depth + 1) + ArrayEnd(fmt, items == [], depth))
    case ObjectTree(fields, _) => [LBRACE] + (FieldsText(fmt, t, 0, depth + 1) + ObjectEnd(fmt, fields == [], depth))
  }

  /** The items of an array from index `k` on, each with its prefix. */
  function ItemsText(fmt: Format, t: Tree, k: nat, depth: nat): Str
    requires t.ArrayTree? && IsTree(t) && k <= |t.items|
    decreases t, |t.items| - k
  {
    if k == |t.items| then []
    else ItemPrefix(fmt, k, depth) + (TextOf(fmt, t.items[k], depth) + ItemsText(fmt, t, k + 1, depth))
  }

  function FieldsText(fmt: Format, t: Tree, k: nat, depth: nat): Str
    requires t.ObjectTree? && IsTree(t) && k <= |t.fields|
    decreases t, |t.fields| - k
  {
    if k == |t.fields| then []
    else NamePrefix(fmt, k, depth) + FieldText(fmt, t, k, depth)
  }

  /** Field `k` from its name on, and the fields after it. */
  function FieldText(fmt: Format, t: Tree, k: nat, depth: nat): Str
    requires t.ObjectTree? && IsTree(t) && k < |t.fields|
    decreases t, |t.fields| - k, 0
  {
    StringCodec.WriteString(t.fields[k].name)
    + (ColonText(fmt) + (TextOf(fmt, t.fields[k].value, depth) + FieldsText(fmt, t, k + 1, depth)))
  }

  // ---------------------------------------------------------------------------------------------
  // The machine writes the text
  // ---------------------------------------------------------------------------------------------

  /** The levels with one open value whose count is `count`. */
  function With(levels: seq<Level>, inArray: bool, count: nat): seq<Level> {
    levels + [Level(inArray, count)]
  }

  lemma WithCounted(fmt: Format, levels: seq<Level>, inArray: bool, count: nat)
    ensures var open := With(levels, inArray, count);
            && Counted(open) == With(levels, inArray, count + 1)
            && open[|open| - 1] == Level(inArray, count) && open[..|open| - 1] == levels && |open| == |levels| + 1
  {
  }

  /**
   * Where a value may be written, the events of a tree write its prefix and its text and none of the
   * writer's assertions fails.
   */
  lemma {:induction false} TreeIsWritten(fmt: Format, t: Tree, w: Writing)
    requires IsTree(t) && MayPrefix(w, false) && HasRoot(w)
    ensures WriteAll(fmt, w, Events(t)) == Some(Prefix(fmt, w).Put(TextOf(fmt, t, |w.levels|)))
    decreases t, 3
  {
    hide *;
    match t
    case Leaf(_) => LeafIsWritten(fmt, t, w);
    case ArrayTree(_, _) => ArrayIsWritten(fmt, t, w);
    case ObjectTree(_, _) => ObjectIsWritten(fmt, t, w);
  }

  lemma LeafIsWritten(fmt: Format, t: Tree, w: Writing)
    requires IsTree(t) && MayPrefix(w, false) && t.Leaf?
    ensures WriteAll(fmt, w, Events(t)) == Some(Prefix(fmt, w).Put(TextOf(fmt, t, |w.levels|)))
  {
    WriteOne(fmt, w, t.event);
  }

  lemma ArrayIsClosed(fmt: Format, os: Str, levels: seq<Level>, n: nat, count: SizeType)
    ensures Write(fmt, Writing(os, With(levels, true, n), true), EndArrayEvent(count))
         == Some(Writing(os + ArrayEnd(fmt, n == 0, |levels|), levels, true))
  {
    WithCounted(fmt, levels, true, n);
  }

  lemma ObjectIsClosed(fmt: Format, os: Str, levels: seq<Level>, n: nat, count: SizeType)
    ensures Write(fmt, Writing(os, With(levels, false, 2 * n), true), EndObjectEvent(count))
         == Some(Writing(os + ObjectEnd(fmt, n == 0, |levels|), levels, true))
  {
    WithCounted(fmt, levels, false, 2 * n);
  }

  lemma ArrayIsOpened(fmt: Format, w: Writing)
    requires MayPrefix(w, false) && HasRoot(w)
    ensures var p := Prefix(fmt, w);
            && Write(fmt, w, StartArrayEvent) == Some(Writing(p.os + [LBRACKET], With(p.levels, true, 0), true))
            && |p.levels| == |w.levels| && p.hasRoot
  {
  }

  /** The bracket, the inside and the end, one after the other. */
  lemma {:induction false} ArrayInParts(fmt: Format, t: Tree, w: Writing, levels: seq<Level>, os: Str)
    requires IsTree(t) && t.ArrayTree? && Write(fmt, w, StartArrayEvent) == Some(Writing(os, With(levels, true, 0), true))
    ensures WriteAll(fmt, w, [StartArrayEvent] + ItemEvents(t, 0) + [EndArrayEvent(t.count)])
         == Some(Writing(os + ItemsText(fmt, t, 0, |levels| + 1) + ArrayEnd(fmt, |t.items| == 0, |levels|), levels, true))
    decreases t, 1
  {
    hide *;
    var inside := Writing(os, With(levels, true, 0), true);
    var full := Writing(os + ItemsText(fmt, t, 0, |levels| + 1), With(levels, true, |t.items|), true);
    ItemsAreWritten(fmt, t, 0, levels, os);
    ArrayIsClosed(fmt, full.os, levels, |t.items|, t.count);
    WriteThree(fmt, w, StartArrayEvent, inside, ItemEvents(t, 0), full, EndArrayEvent(t.count));
  }

  lemma {:induction false} ArrayIsWritten(fmt: Format, t: Tree, w: Writing)
    requires IsTree(t) && MayPrefix(w, false) && HasRoot(w) && t.ArrayTree?
    ensures WriteAll(fmt, w, Events(t)) == Some(Prefix(fmt, w).Put(TextOf(fmt, t, |w.levels|)))
    decreases t, 2
  {
    hide *;
    var p := Prefix(fmt, w);
    ArrayIsOpened(fmt, w);
    ArrayInParts(fmt, t, w, p.levels, p.os + [LBRACKET]);
    ArrayJoins(fmt, t, p);
  }

  lemma ArrayJoins(fmt: Format, t: Tree, p: Writing)
    requires IsTree(t) && t.ArrayTree? && p.hasRoot
    ensures Events(t) == [StartArrayEvent] + ItemEvents(t, 0) + [EndArrayEvent(t.count)]
    ensures Writing(p.os + [LBRACKET] + ItemsText(fmt, t, 0, |p.levels| + 1) + ArrayEnd(fmt, |t.items| == 0, |p.levels|), p.levels, true)
         == p.Put(TextOf(fmt, t, |p.levels|))
  {
    Regroup4(p.os, [LBRACKET], ItemsText(fmt, t, 0, |p.levels| + 1), ArrayEnd(fmt, |t.items| == 0, |p.levels|));
  }

  lemma ObjectIsOpened(fmt: Format, w: Writing)
    requires MayPrefix(w, false) && HasRoot(w)
    ensures var p := Prefix(fmt, w);
            && Write(fmt, w, StartObjectEvent) == Some(Writing(p.os + [LBRACE], With(p.levels, false, 0), true))
            && |p.levels| == |w.levels| && p.hasRoot
  {
  }

  /** The bracket, the inside and the end, one after the other. */
  lemma {:induction false} ObjectInParts(fmt: Format, t: Tree, w: Writing, levels: seq<Level>, os: Str)
    requires IsTree(t) && t.ObjectTree? && Write(fmt, w, StartObjectEvent) == Some(Writing(os, With(levels, false, 0), true))
    ensures WriteAll(fmt, w, [StartObjectEvent] + FieldEvents(t, 0) + [EndObjectEvent(t.count)])
         == Some(Writing(os + FieldsText(fmt, t, 0, |levels| + 1) + ObjectEnd(fmt, |t.fields| == 0, |levels|), levels, true))
    decreases t, 1
  {
    hide *;
    var inside := Writing(os, With(levels, false, 0), true);
    var full := Writing(os + FieldsText(fmt, t, 0, |levels| + 1), With(levels, false, 2 * |t.fields|), true);
    FieldsAreWritten(fmt, t, 0, levels, os);
    ObjectIsClosed(fmt, full.os, levels, |t.fields|, t.count);
    WriteThree(fmt, w, StartObjectEvent, inside, FieldEvents(t, 0), full, EndObjectEvent(t.count));
  }

  lemma {:induction false} ObjectIsWritten(fmt: Format, t: Tree, w: Writing)
    requires IsTree(t) && MayPrefix(w, false) && HasRoot(w) && t.ObjectTree?
    ensures WriteAll(fmt, w, Events(t)) == Some(Prefix(fmt, w).Put(TextOf(fmt, t, |w.levels|)))
    decreases t, 2
  {
    hide *;
    var p := Prefix(fmt, w);
    ObjectIsOpened(fmt, w);
    ObjectInParts(fmt, t, w, p.levels, p.os + [LBRACE]);
    ObjectJoins(fmt, t, p);
  }

  lemma ObjectJoins(fmt: Format, t: Tree, p: Writing)
    requires IsTree(t) && t.ObjectTree? && p.hasRoot
    ensures Events(t) == [StartObjectEvent] + FieldEvents(t, 0) + [EndObjectEvent(t.count)]
    ensures Writing(p.os + [LBRACE] + FieldsText(fmt, t, 0, |p.levels| + 1) + ObjectEnd(fmt, |t.fields| == 0, |p.levels|), p.levels, true)
         == p.Put(TextOf(fmt, t, |p.levels|))
  {
    Regroup4(p.os, [LBRACE], FieldsText(fmt, t, 0, |p.levels| + 1), ObjectEnd(fmt, |t.fields| == 0, |p.levels|));
  }

  lemma WriteThree(fmt: Format, w: Writing, start: Event, inside: Writing, inner: seq<Event>, full: Writing, close: Event)
    requires Write(fmt, w, start) == Some(inside)
    requires WriteAll(fmt, inside, inner) == Some(full)
    ensures WriteAll(fmt, w, [start] + inner + [close]) == Write(fmt, full, close)
  {
    WriteOne(fmt, w, start);
    WriteAppend(fmt, w, [start], inner);
    WriteAppend(fmt, w, [start] + inner, [close]);
    WriteOne(fmt, full, close);
  }

  lemma {:induction false} ItemsAreWritten(fmt: Format, t: Tree, k: nat, levels: seq<Level>, os: Str)
    requires t.ArrayTree? && IsTree(t) && k <= |t.items|
    ensures WriteAll(fmt, Writing(os, With(levels, true, k), true), ItemEvents(t, k))
         == Some(Writing(os + ItemsText(fmt, t, k, |levels| + 1), With(levels, true, |t.items|), true))
    decreases t, 0, |t.items| - k
  {
    var w := Writing(os, With(levels, true, k), true);
    var depth := |levels| + 1;
    WithCounted(fmt, levels, true, k);
    if k == |t.items| {
      assert os + ItemsText(fmt, t, k, depth) == os;
    } else {
      var prefix, text, more := ItemPrefix(fmt, k, depth), TextOf(fmt, t.items[k], depth), ItemsText(fmt, t, k + 1, depth);
      TreeIsWritten(fmt, t.items[k], w);
      ItemsAreWritten(fmt, t, k + 1, levels, os + prefix + text);
      WriteAppend(fmt, w, Events(t.items[k]), ItemEvents(t, k + 1));
      Regroup4(os, prefix, text, more);
    }
  }

  lemma {:induction false} FieldsAreWritten(fmt: Format, t: Tree, k: nat, levels: seq<Level>, os: Str)
    requires t.ObjectTree? && IsTree(t) && k <= |t.fields|
    ensures WriteAll(fmt, Writing(os, With(levels, false, 2 * k), true), FieldEvents(t, k))
         == Some(Writing(os + FieldsText(fmt, t, k, |levels| + 1), With(levels, false, 2 * |t.fields|), true))
    decreases t, 0, |t.fields| - k
  {
    var w := Writing(os, With(levels, false, 2 * k), true);
    var depth := |levels| + 1;
    if k == |t.fields| {
      assert os + FieldsText(fmt, t, k, depth) == os;
    } else {
      var d := t.fields[k];
      var name := StringCodec.WriteString(d.name);
      var prefix, colon := NamePrefix(fmt, k, depth), ColonText(fmt);
      var text, more := TextOf(fmt, d.value, depth), FieldsText(fmt, t, k + 1, depth);
      var named := Writing(os + prefix + name, With(levels, false, 2 * k + 1), true);
      var next := Writing(named.os + colon + text, With(levels, false, 2 * (k + 1)), true);
      NameIsWritten(fmt, os, levels, k, d.name);
      ColonIsWritten(fmt, named.os, levels, k);
      TreeIsWritten(fmt, d.value, named);
      FieldsAreWritten(fmt, t, k + 1, levels, next.os);
      WriteField(fmt, w, KeyEvent(d.name), named, Events(d.value), next, FieldEvents(t, k + 1));
      Regroup4(named.os, colon, text, more);
      Regroup4(os, prefix, name, colon + (text + more));
      assert FieldsText(fmt, t, k, depth) == prefix + (name + (colon + (text + more)));
    }
  }

  /** A name, a value and the fields after them. */
  lemma WriteField(fmt: Format, w: Writing, key: Event, named: Writing, inner: seq<Event>, next: Writing, more: seq<Event>)
    requires Write(fmt, w, key) == Some(named)
    requires WriteAll(fmt, named, inner) == Some(next)
    ensures WriteAll(fmt, w, [key] + inner + more) == WriteAll(fmt, next, more)
  {
    WriteOne(fmt, w, key);
    WriteAppend(fmt, w, [key], inner);
    WriteAppend(fmt, w, [key] + inner, more);
  }

  lemma ColonIsWritten(fmt: Format, os: Str, levels: seq<Level>, k: nat)
    ensures var named := Writing(os, With(levels, false, 2 * k + 1), true);
            && MayPrefix(named, false)
            && Prefix(fmt, named) == Writing(os + ColonText(fmt), With(levels, false, 2 * (k + 1)), true)
  {
    WithCounted(fmt, levels, false, 2 * k + 1);
  }

  lemma NameIsWritten(fmt: Format, os: Str, levels: seq<Level>, k: nat, name: Str)
    ensures Write(fmt, Writing(os, With(levels, false, 2 * k), true), KeyEvent(name))
         == Some(Writing(os + NamePrefix(fmt, k, |levels| + 1) + StringCodec.WriteString(name),
                         With(levels, false, 2 * k + 1), true))
  {
    WithCounted(fmt, levels, false, 2 * k);
  }

  /** A whole well-nested sequence: the fresh writer ends complete, having written the tree's text. */
  lemma SequenceIsWritten(fmt: Format, t: Tree)
    requires IsTree(t)
    ensures WriteAll(fmt, Fresh, Events(t)) == Some(Writing(TextOf(fmt, t, 0), [], true))
    ensures IsComplete(WriteAll(fmt, Fresh, Events(t)).value)
  {
    TreeIsWritten(fmt, t, Fresh);
    assert [] + [] + TextOf(fmt, t, 0) == TextOf(fmt, t, 0);
  }

  // ---------------------------------------------------------------------------------------------
  // The writer
  // ---------------------------------------------------------------------------------------------

  /**
   * `Writer` and `PrettyWriter`. A caller must not make a call whose assertion would fail; the output
   * and the level stack then change as the machine says.
   */
  class PrettyWriter {
    const format: Format
    var os: Str
    var levelStack: seq<Level>
    var hasRoot: bool

    constructor (format: Format)
      ensures this.format == format && Now() == Fresh
    {
      this.format := format;
      os, levelStack, hasRoot := [], [], false;
    }

    function Now(): Writing
      reads this
    {
      Writing(os, levelStack, hasRoot)
    }

    method Put(c: Ch)
      modifies this`os
      ensures os == old(os) + [c]
    {
      os := os + [c];
    }

    method PutAll(s: Str)
      modifies this`os
      ensures os == old(os) + s
    {
      for k := 0 to |s|
        invariant os == old(os) + s[..k]
      {
        Put(s[k]);
        assert s[..k + 1] == s[..k] + [s[k]];
      }
      assert s[..|s|] == s;
    }

    /** `WriteIndent`, by way of `PutN`. */
    method WriteIndent()
      requires format.Pretty?
      modifies this`os
      ensures os == old(os) + Indent(format, |levelStack|)
    {
      var indent := Indent(format, |levelStack|);
      for k := 0 to |levelStack| * format.indentCount
        invariant os == old(os) + indent[..k]
      {
        Put(format.indentChar);
        assert indent[..k + 1] == indent[..k] + [format.indentChar];
      }
      assert indent[..|indent|] == indent;
    }

    method NewLine()
      requires format.Pretty?
      modifies this`os
      ensures os == old(os) + ([LF] + Indent(format, |levelStack|))
    {
      Put(LF);
      WriteIndent();
      Regroup3(old(os), [LF], Indent(format, |levelStack|));
    }

    /** `PrettyPrefix`, and `Prefix` when the format is compact. */
    method WritePrefix(isString: bool)
      requires MayPrefix(Now(), isString)
      modifies this
      ensures Now() == Prefix(format, old(Now()))
    {
      if levelStack == [] {
        hasRoot := true;
        return;
      }
      var last := |levelStack| - 1;
      var level := levelStack[last];
      ghost var before := os;
      if level.inArray {
        if level.valueCount > 0 {
          Put(COMMA);
        }
        assert os == before + Comma(level.valueCount);
        if format.Pretty? {
          if format.singleLineArray {
            if level.valueCount > 0 {
              Put(SPACE);
            }
          } else {
            NewLine();
          }
        }
        Regroup3(before, Comma(level.valueCount), ItemGap(format, level.valueCount, |levelStack|));
      } else if level.valueCount % 2 == 0 {
        if level.valueCount > 0 {
          Put(COMMA);
        }
        assert os == before + Comma(level.valueCount / 2);
        if format.Pretty? {
          NewLine();
        }
        Regroup3(before, Comma(level.valueCount / 2), NameGap(format, |levelStack|));
      } else {
        Put(COLON);
        if format.Pretty? {
          Put(SPACE);
        }
        Regroup3(before, [COLON], ColonGap(format));
      }
      levelStack := levelStack[last := level.(valueCount := level.valueCount + 1)];
    }

    method WriteString(str: Str)
      modifies this`os
      ensures os == old(os) + StringCodec.WriteString(str)
    {
      Put(QUOTE);
      ghost var quoted := os;
      for k := 0 to |str|
        invariant os + StringCodec.EscapeAll(str[k..]) == quoted + StringCodec.EscapeAll(str)
      {
        ghost var more := StringCodec.EscapeAll(str[k + 1..]);
        assert str[k..][0] == str[k] && str[k..][1..] == str[k + 1..];
        Regroup3(os, StringCodec.EscapeUnit(str[k]), more);
        PutAll(StringCodec.EscapeUnit(str[k]));
      }
      assert str[|str|..] == [];
      Put(QUOTE);
      Regroup4(old(os), [QUOTE], StringCodec.EscapeAll(str), [QUOTE]);
      Regroup3([QUOTE], StringCodec.EscapeAll(str), [QUOTE]);
    }

    method Key(name: Str)
      requires MayPrefix(Now(), true)
      modifies this
      ensures Some(Now()) == Write(format, old(Now()), KeyEvent(name))
    {
      WritePrefix(true);
      WriteString(name);
    }

    /** `WriteDouble`, by way of a buffer. */
    method PutDouble(bits: Bits)
      modifies this`os
      ensures os == old(os) + DoubleText.WriteDouble(format.printer, bits)
    {
      if IsFinite(bits) {
        var buffer := new Ch[DoubleText.BUFFER];
        var end := DoubleText.DtoaInPlace(format.printer, bits, buffer);
        PutAll(buffer[..end]);
      }
    }

    /** The handler calls of scalars. */
    method Scalar(e: Event)
      requires IsScalar(e) && MayPrefix(Now(), e.StringEvent?)
      modifies this
      ensures Some(Now()) == Write(format, old(Now()), e)
    {
      WritePrefix(e.StringEvent?);
      if e.StringEvent? {
        WriteString(e.str);
      } else if e.DoubleEvent? {
        PutDouble(e.bits);
      } else {
        PutAll(ScalarText(format, e));
      }
    }

    method Start(inArray: bool)
      requires MayPrefix(Now(), false)
      modifies this
      ensures Some(Now()) == Open(format, old(Now()), inArray)
    {
      WritePrefix(false);
      levelStack := levelStack + [Level(inArray, 0)];
      Put(if inArray then LBRACKET else LBRACE);
    }

    /** `EndObject` and `EndArray`, whose count is ignored. */
    method End(inArray: bool)
      requires Close(format, Now(), inArray).Some?
      modifies this
      ensures Some(Now()) == Close(format, old(Now()), inArray)
    {
      var last := |levelStack| - 1;
      var empty := levelStack[last].valueCount == 0;
      levelStack := levelStack[..last];
      if format.Pretty? && !empty && !(inArray && format.singleLineArray) {
        NewLine();
      }
      ghost var gap := if inArray then ArrayEndGap(format, empty, last) else ObjectEndGap(format, empty, last);
      assert os == old(os) + gap;
      Put(if inArray then RBRACKET else RBRACE);
      Regroup3(old(os), gap, [if inArray then RBRACKET else RBRACE]);
    }

    /** Writing a whole sequence. */
    method WriteEvents(events: seq<Event>)
      requires WriteAll(format, Now(), events).Some?
      modifies this
      ensures Some(Now()) == WriteAll(format, old(Now()), events)
    {
      for k := 0 to |events|
        invariant WriteAll(format, Now(), events[k..]) == WriteAll(format, old(Now()), events)
      {
        var e := events[k];
        assert events[k..][0] == e && events[k..][1..] == events[k + 1..];
        if e.KeyEvent? {
          Key(e.str);
        } else if e.StartObjectEvent? || e.StartArrayEvent? {
          Start(e.StartArrayEvent?);
        } else if e.EndObjectEvent? || e.EndArrayEvent? {
          End(e.EndArrayEvent?);
        } else {
          Scalar(e);
        }
      }
    }
  }
}
