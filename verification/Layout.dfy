/**
 * The layout PrettyWriter of include/rapidjson/prettywriter.h promises, as a property of the text alone: a scanner that
 * knows nothing of events or trees but keeps track of the brackets open and accepts white space in these places only.
 */
module Layout {
  import opened Text
  import opened ParseTypes
  import StringCodec
  import Number
  import DoubleText
  import opened Document
  import opened Writer

  // ---------------------------------------------------------------------------------------------
  // Texts that are laid out
  // ---------------------------------------------------------------------------------------------

  /** A new line with as many levels of indentation as brackets are open. */
  function Line(fmt: Format, open: nat): Str
    requires fmt.Pretty?
  {
    assert open * fmt.indentCount >= 0;
    [LF] + seq(open * fmt.indentCount, _ => fmt.indentChar)
  }

  /** What stands between a bracket and what it encloses: in an array written on one line nothing. */
  function Inside(fmt: Format, bracket: Ch, open: nat): Str {
    if fmt.Compact? || (bracket == LBRACKET && fmt.singleLineArray) then [] else Line(fmt, open)
  }

  /** What stands after a comma: in an array written on one line a space. */
  function AfterComma(fmt: Format, bracket: Ch, open: nat): Str {
    if fmt.Pretty? && bracket == LBRACKET && fmt.singleLineArray then [SPACE] else Inside(fmt, bracket, open)
  }

  function AfterColon(fmt: Format): Str {
    if fmt.Compact? then [] else [SPACE]
  }

  function Closing(bracket: Ch): Ch {
    if bracket == LBRACKET then RBRACKET else RBRACE
  }

  /** The text goes on with this gap, and then with no more white space. */
  predicate GapThen(gap: Str, s: Str) {
    gap <= s && |gap| < |s| && !IsSpace(s[|gap|])
  }

  /** What comes after a string, from after its opening quote; an escaped quote does not end it. */
  function AfterString(s: Str): (rest: Str)
    ensures |rest| <= |s|
    decreases |s|
  {
    if s == [] then []
    else if s[0] == QUOTE then s[1..]
    else if s[0] == BACKSLASH then AfterString(if |s| > 1 then s[2..] else [])
    else AfterString(s[1..])
  }

  predicate IsOpening(c: Ch) {
    c == LBRACE || c == LBRACKET
  }

  predicate IsClosing(c: Ch) {
    c == RBRACE || c == RBRACKET
  }

  /**
   * From outside of strings, with these brackets open: a line feed follows an opening bracket, unless it is closed at
   * once, and every comma, and stands before the closing bracket; it is followed by the indentation of the brackets that
   * are then open. A colon has one space after it. There is no other white space outside of strings and no line feed in them.
   */
  predicate IsLaidOut(fmt: Format, s: Str, open: seq<Ch>)
    decreases |s|
  {
    if s == [] then open == []
    else
      var c, rest := s[0], s[1..];
      if c == QUOTE then
        var after := AfterString(rest);
        LF !in rest[..|rest| - |after|] && IsLaidOut(fmt, after, open)
      else if IsOpening(c) then
        if Peek(rest) == Closing(c) then IsLaidOut(fmt, rest[1..], open)
        else
          var gap := Inside(fmt, c, |open| + 1);
          GapThen(gap, rest) && IsLaidOut(fmt, rest[|gap|..], open + [c])
      else if c == COMMA then
        open != []
        && var gap := AfterComma(fmt, open[|open| - 1], |open|);
           GapThen(gap, rest) && IsLaidOut(fmt, rest[|gap|..], open)
      else if c == COLON then
        var gap := AfterColon(fmt);
        GapThen(gap, rest) && IsLaidOut(fmt, rest[|gap|..], open)
      else if IsSpace(c) || IsClosing(c) then
        open != []
        && var bracket := open[|open| - 1];
           var end := Inside(fmt, bracket, |open| - 1) + [Closing(bracket)];
           end <= s && IsLaidOut(fmt, s[|end|..], open[..|open| - 1])
      else IsLaidOut(fmt, rest, open)
  }

  // ---------------------------------------------------------------------------------------------
  // Steps of the scanner
  // ---------------------------------------------------------------------------------------------

  /** Neither a quote nor structure nor white space. */
  predicate IsPlain(s: Str) {
    forall k :: 0 <= k < |s| ==>
      s[k] != QUOTE && !IsOpening(s[k]) && !IsClosing(s[k]) && s[k] != COMMA && s[k] != COLON && !IsSpace(s[k])
  }

  lemma {:induction false} PlainIsPassed(fmt: Format, s: Str, post: Str, open: seq<Ch>)
    requires IsPlain(s)
    ensures IsLaidOut(fmt, s + post, open) == IsLaidOut(fmt, post, open)
    decreases |s|
  {
    if s == [] {
      assert s + post == post;
    } else {
      assert (s + post)[0] == s[0] && (s + post)[1..] == s[1..] + post;
      PlainIsPassed(fmt, s[1..], post, open);
    }
  }

  lemma UnitIsPassed(c: Ch, post: Str)
    ensures AfterString(StringCodec.EscapeUnit(c) + post) == AfterString(post)
  {
    var unit := StringCodec.EscapeUnit(c);
    var s := unit + post;
    if unit[0] == BACKSLASH {
      assert s[2..] == unit[2..] + post;
      if |unit| > 2 {
        PlainInString(unit[2..], post);
      } else {
        assert unit[2..] + post == post;
      }
    } else {
      assert s[1..] == post;
    }
  }

  lemma {:induction false} PlainInString(s: Str, post: Str)
    requires QUOTE !in s && BACKSLASH !in s
    ensures AfterString(s + post) == AfterString(post)
    decreases |s|
  {
    if s == [] {
      assert s + post == post;
    } else {
      assert (s + post)[0] == s[0] && (s + post)[1..] == s[1..] + post;
      PlainInString(s[1..], post);
    }
  }

  lemma {:induction false} EscapedIsPassed(str: Str, post: Str)
    ensures AfterString(StringCodec.EscapeAll(str) + ([QUOTE] + post)) == post
    decreases |str|
  {
    var tail := [QUOTE] + post;
    if str == [] {
      assert [] + tail == tail && tail[1..] == post;
    } else {
      Regroup3(StringCodec.EscapeUnit(str[0]), StringCodec.EscapeAll(str[1..]), tail);
      UnitIsPassed(str[0], StringCodec.EscapeAll(str[1..]) + tail);
      EscapedIsPassed(str[1..], post);
    }
  }

  lemma {:induction false} EscapedHasNoLine(str: Str)
    ensures LF !in StringCodec.EscapeAll(str)
    decreases |str|
  {
    if str != [] {
      assert LF !in StringCodec.EscapeUnit(str[0]);
      EscapedHasNoLine(str[1..]);
    }
  }

  /** A written string is passed, whatever is in it. */
  lemma StringIsPassed(fmt: Format, str: Str, post: Str, open: seq<Ch>)
    ensures IsLaidOut(fmt, StringCodec.WriteString(str) + post, open) == IsLaidOut(fmt, post, open)
  {
    var inside := StringCodec.EscapeAll(str);
    Regroup4([QUOTE], inside, [QUOTE], post);
    var s := [QUOTE] + (inside + ([QUOTE] + post));
    assert s[0] == QUOTE && s[1..] == inside + ([QUOTE] + post);
    EscapedIsPassed(str, post);
    EscapedHasNoLine(str);
    assert s[1..][..|s| - 1 - |post|] == inside + [QUOTE];
  }

  /** A value starts with something that is neither white space nor a closing bracket. */
  predicate StartsText(s: Str) {
    s != [] && !IsSpace(s[0]) && !IsClosing(s[0])
  }

  lemma GapIsPassed(gap: Str, s: Str)
    requires StartsText(s)
    ensures GapThen(gap, gap + s) && (gap + s)[|gap|..] == s
  {
  }

  lemma OpeningIsPassed(fmt: Format, bracket: Ch, s: Str, open: seq<Ch>)
    requires IsOpening(bracket) && StartsText(s)
    ensures IsLaidOut(fmt, [bracket] + (Inside(fmt, bracket, |open| + 1) + s), open) == IsLaidOut(fmt, s, open + [bracket])
  {
    var gap := Inside(fmt, bracket, |open| + 1);
    var text := [bracket] + (gap + s);
    assert text[0] == bracket && text[1..] == gap + s;
    GapIsPassed(gap, s);
    assert (gap + s)[0] == if gap == [] then s[0] else LF;
  }

  lemma CommaIsPassed(fmt: Format, s: Str, open: seq<Ch>)
    requires open != [] && StartsText(s)
    ensures IsLaidOut(fmt, [COMMA] + (AfterComma(fmt, open[|open| - 1], |open|) + s), open) == IsLaidOut(fmt, s, open)
  {
    var gap := AfterComma(fmt, open[|open| - 1], |open|);
    assert ([COMMA] + (gap + s))[1..] == gap + s;
    GapIsPassed(gap, s);
  }

  lemma ColonIsPassed(fmt: Format, s: Str, open: seq<Ch>)
    requires StartsText(s)
    ensures IsLaidOut(fmt, [COLON] + (AfterColon(fmt) + s), open) == IsLaidOut(fmt, s, open)
  {
    assert ([COLON] + (AfterColon(fmt) + s))[1..] == AfterColon(fmt) + s;
    GapIsPassed(AfterColon(fmt), s);
  }

  lemma ClosingIsPassed(fmt: Format, s: Str, open: seq<Ch>, bracket: Ch)
    requires IsOpening(bracket)
    ensures IsLaidOut(fmt, Inside(fmt, bracket, |open|) + [Closing(bracket)] + s, open + [bracket]) == IsLaidOut(fmt, s, open)
  {
    var end := Inside(fmt, bracket, |open|) + [Closing(bracket)];
    var all := open + [bracket];
    assert all[|all| - 1] == bracket && all[..|all| - 1] == open;
    assert (end + s)[0] == end[0] && (end + s)[|end|..] == s;
  }

  lemma EmptyIsPassed(fmt: Format, bracket: Ch, s: Str, open: seq<Ch>)
    requires IsOpening(bracket)
    ensures IsLaidOut(fmt, [bracket, Closing(bracket)] + s, open) == IsLaidOut(fmt, s, open)
  {
    var text := [bracket, Closing(bracket)] + s;
    assert text[0] == bracket && text[1..][0] == Closing(bracket) && text[1..][1..] == s;
  }

  // ---------------------------------------------------------------------------------------------
  // What is written is laid out
  // ---------------------------------------------------------------------------------------------

  /** Its doubles are finite; others have no text. */
  predicate IsFiniteTree(t: Tree) {
    match t
    case Leaf(event) => event.DoubleEvent? ==> IsFinite(event.bits)
    case ArrayTree(items, _) => forall i :: i in items ==> IsFiniteTree(i)
    case ObjectTree(fields, _) => forall d :: d in fields ==> IsFiniteTree(d.value)
  }

  lemma DigitsArePlain(minus: bool, ds: Str)
    requires Number.AllDigits(ds) && ds != []
    ensures IsPlain(Number.Literal(minus, ds)) && StartsText(Number.Literal(minus, ds))
  {
  }

  lemma DoubleIsPlain(p: DoubleText.Printer, bits: Bits)
    requires IsFinite(bits)
    ensures IsPlain(DoubleText.WriteDouble(p, bits)) && StartsText(DoubleText.WriteDouble(p, bits))
  {
    var s := DoubleText.MagnitudeShape(p, MagnitudeOf(bits));
    ShapeIsPlain(s);
    hide DoubleText.MagnitudeText, DoubleText.ShapeText, DoubleText.IsShape, DoubleText.IsPrintedAs, DoubleText.HasForm;
  }

  lemma ShapeIsPlain(s: DoubleText.Shape)
    requires DoubleText.IsShape(s)
    ensures IsPlain(DoubleText.ShapeText(s)) && StartsText(DoubleText.ShapeText(s))
  {
    DigitsArePlain(false, s.whole);
    if s.fraction != [] {
      DigitsArePlain(false, s.fraction);
      PlainJoin([DOT], s.fraction);
    }
    if s.exp.Some? {
      var e := s.exp.value;
      DigitsArePlain(e < 0, DoubleText.Magnitude(if e < 0 then -e else e));
      PlainJoin([DoubleText.LETTER_E], DoubleText.WriteExponent(e));
    }
    hide IsPlain, DoubleText.IsShape, DoubleText.FractionText, DoubleText.ExponentText;
    NothingIsPlain();
    PlainJoin(s.whole, DoubleText.FractionText(s));
    PlainJoin(s.whole + DoubleText.FractionText(s), DoubleText.ExponentText(s));
  }

  lemma NothingIsPlain()
    ensures IsPlain([]) && IsPlain([DOT]) && IsPlain([DoubleText.LETTER_E])
  {
  }

  lemma PlainJoin(a: Str, b: Str)
    ensures IsPlain(a) && IsPlain(b) ==> IsPlain(a + b)
  {
  }

  lemma ScalarIsPassed(fmt: Format, e: Event, post: Str, open: seq<Ch>)
    requires IsScalar(e) && (e.DoubleEvent? ==> IsFinite(e.bits))
    ensures IsLaidOut(fmt, ScalarText(fmt, e) + post, open) == IsLaidOut(fmt, post, open)
    ensures StartsText(ScalarText(fmt, e))
  {
    if e.StringEvent? {
      StringIsPassed(fmt, e.str, post, open);
    } else {
      PlainScalar(fmt, e);
      PlainIsPassed(fmt, ScalarText(fmt, e), post, open);
    }
  }

  lemma PlainScalar(fmt: Format, e: Event)
    requires IsScalar(e) && !e.StringEvent? && (e.DoubleEvent? ==> IsFinite(e.bits))
    ensures IsPlain(ScalarText(fmt, e)) && StartsText(ScalarText(fmt, e))
  {
    match e
    case DoubleEvent(bits) => DoubleIsPlain(fmt.printer, bits);
    case IntEvent(i) => IntegerIsPlain(i);
    case UintEvent(i) => IntegerIsPlain(i);
    case Int64Event(i) => IntegerIsPlain(i);
    case Uint64Event(i) => IntegerIsPlain(i);
    case _ =>
  }

  lemma IntegerIsPlain(i: int)
    ensures IsPlain(Number.Print(i)) && StartsText(Number.Print(i))
  {
    DigitsArePlain(i < 0, Number.Decimal(if i < 0 then -i else i));
  }

  lemma TextStarts(fmt: Format, t: Tree, depth: nat, post: Str)
    requires IsTree(t) && IsFiniteTree(t)
    ensures StartsText(TextOf(fmt, t, depth)) && StartsText(TextOf(fmt, t, depth) + post)
  {
    if t.Leaf? {
      ScalarIsPassed(fmt, t.event, [], []);
    }
  }

  /** The text of a value, with `|open|` levels around it, is laid out, whatever laid-out text follows. */
  lemma {:induction false} TreeIsLaidOut(fmt: Format, t: Tree, post: Str, open: seq<Ch>)
    requires IsTree(t) && IsFiniteTree(t)
    ensures IsLaidOut(fmt, TextOf(fmt, t, |open|) + post, open) == IsLaidOut(fmt, post, open)
    decreases t, 2
  {
    hide IsLaidOut;
    match t
    case Leaf(event) => ScalarIsPassed(fmt, event, post, open);
    case ArrayTree(items, _) =>
      if items == [] {
        assert TextOf(fmt, t, |open|) == [LBRACKET, Closing(LBRACKET)];
        EmptyIsPassed(fmt, LBRACKET, post, open);
      } else {
        ArrayIsLaidOut(fmt, t, post, open);
      }
    case ObjectTree(fields, _) =>
      if fields == [] {
        assert TextOf(fmt, t, |open|) == [LBRACE, Closing(LBRACE)];
        EmptyIsPassed(fmt, LBRACE, post, open);
      } else {
        ObjectIsLaidOut(fmt, t, post, open);
      }
  }

  lemma {:induction false} ArrayIsLaidOut(fmt: Format, t: Tree, post: Str, open: seq<Ch>)
    requires t.ArrayTree? && t.items != [] && IsTree(t) && IsFiniteTree(t)
    ensures IsLaidOut(fmt, TextOf(fmt, t, |open|) + post, open) == IsLaidOut(fmt, post, open)
    decreases t, 1
  {
    hide IsLaidOut;
    var within := open + [LBRACKET];
    var end := Inside(fmt, LBRACKET, |open|) + [RBRACKET];
    var first, more := TextOf(fmt, t.items[0], |within|), ItemsText(fmt, t, 1, |within|);
    assert t.items[0] in t.items;
    ArrayParts(fmt, t, |open|);
    TextStarts(fmt, t.items[0], |within|, more + (end + post));
    hide TextOf, ItemsText, Inside, IsTree, IsFiniteTree, StartsText;
    JoinFive([LBRACKET], Inside(fmt, LBRACKET, |within|), first, more, end, post);
    OpeningIsPassed(fmt, LBRACKET, first + (more + (end + post)), open);
    TreeIsLaidOut(fmt, t.items[0], more + (end + post), within);
    ItemsAreLaidOut(fmt, t, 1, end + post, within);
    ClosingIsPassed(fmt, post, open, LBRACKET);
  }

  lemma ArrayParts(fmt: Format, t: Tree, depth: nat)
    requires t.ArrayTree? && t.items != [] && IsTree(t)
    ensures TextOf(fmt, t, depth) == [LBRACKET] + ((Inside(fmt, LBRACKET, depth + 1) + (TextOf(fmt, t.items[0], depth + 1) + ItemsText(fmt, t, 1, depth + 1)))
                                      + (Inside(fmt, LBRACKET, depth) + [RBRACKET]))
  {
    var gap := Inside(fmt, LBRACKET, depth + 1);
    assert ItemPrefix(fmt, 0, depth + 1) == gap by {
      assert [] + gap == gap;
    }
  }

  lemma JoinFive(a: Str, gap: Str, first: Str, more: Str, end: Str, post: Str)
    ensures a + ((gap + (first + more)) + end) + post == a + (gap + (first + (more + (end + post))))
  {
    Regroup3(a, (gap + (first + more)) + end, post);
    Regroup3(gap + (first + more), end, post);
    Regroup3(gap, first + more, end + post);
    Regroup3(first, more, end + post);
  }

  lemma {:induction false} ItemsAreLaidOut(fmt: Format, t: Tree, k: nat, post: Str, open: seq<Ch>)
    requires t.ArrayTree? && IsTree(t) && IsFiniteTree(t) && 0 < k <= |t.items| && open != [] && open[|open| - 1] == LBRACKET
    ensures IsLaidOut(fmt, ItemsText(fmt, t, k, |open|) + post, open) == IsLaidOut(fmt, post, open)
    decreases t, 0, |t.items| - k
  {
    hide IsLaidOut;
    if k == |t.items| {
      assert [] + post == post;
    } else {
      var text, more := TextOf(fmt, t.items[k], |open|), ItemsText(fmt, t, k + 1, |open|);
      assert t.items[k] in t.items;
      assert ItemPrefix(fmt, k, |open|) == [COMMA] + AfterComma(fmt, LBRACKET, |open|);
      assert ItemsText(fmt, t, k, |open|) == [COMMA] + AfterComma(fmt, LBRACKET, |open|) + (text + more);
      TextStarts(fmt, t.items[k], |open|, more + post);
      hide TextOf, ItemsText, AfterComma;
      Regroup4([COMMA], AfterComma(fmt, LBRACKET, |open|), text + more, post);
      Regroup3(text, more, post);
      CommaIsPassed(fmt, text + (more + post), open);
      TreeIsLaidOut(fmt, t.items[k], more + post, open);
      ItemsAreLaidOut(fmt, t, k + 1, post, open);
    }
  }

  lemma {:induction false} ObjectIsLaidOut(fmt: Format, t: Tree, post: Str, open: seq<Ch>)
    requires t.ObjectTree? && t.fields != [] && IsTree(t) && IsFiniteTree(t)
    ensures IsLaidOut(fmt, TextOf(fmt, t, |open|) + post, open) == IsLaidOut(fmt, post, open)
    decreases t, 1
  {
    hide IsLaidOut;
    var within := open + [LBRACE];
    var end := Inside(fmt, LBRACE, |open|) + [RBRACE];
    var first := FieldText(fmt, t, 0, |within|);
    ObjectParts(fmt, t, |open|);
    FieldStarts(fmt, t, 0, |within|, end + post);
    hide TextOf, FieldText, Inside, IsTree, IsFiniteTree, StartsText;
    JoinFive([LBRACE], Inside(fmt, LBRACE, |within|), first, [], end, post);
    assert first + [] == first && [] + (end + post) == end + post;
    OpeningIsPassed(fmt, LBRACE, first + (end + post), open);
    FieldIsLaidOut(fmt, t, 0, end + post, within);
    ClosingIsPassed(fmt, post, open, LBRACE);
  }

  lemma ObjectParts(fmt: Format, t: Tree, depth: nat)
    requires t.ObjectTree? && t.fields != [] && IsTree(t)
    ensures TextOf(fmt, t, depth) == [LBRACE] + ((Inside(fmt, LBRACE, depth + 1) + FieldText(fmt, t, 0, depth + 1)) + (Inside(fmt, LBRACE, depth) + [RBRACE]))
  {
    var gap := Inside(fmt, LBRACE, depth + 1);
    assert NamePrefix(fmt, 0, depth + 1) == gap by {
      assert [] + gap == gap;
    }
  }

  lemma FieldStarts(fmt: Format, t: Tree, k: nat, depth: nat, post: Str)
    requires t.ObjectTree? && IsTree(t) && k < |t.fields|
    ensures StartsText(FieldText(fmt, t, k, depth) + post)
  {
    hide StringCodec.EscapeAll;
    assert StringCodec.WriteString(t.fields[k].name)[0] == QUOTE;
  }

  /** A name, its colon and its value, and the members after it. */
  lemma {:induction false} FieldIsLaidOut(fmt: Format, t: Tree, k: nat, post: Str, open: seq<Ch>)
    requires t.ObjectTree? && IsTree(t) && IsFiniteTree(t) && k < |t.fields| && open != [] && open[|open| - 1] == LBRACE
    ensures IsLaidOut(fmt, FieldText(fmt, t, k, |open|) + post, open) == IsLaidOut(fmt, post, open)
    decreases t, 0, |t.fields| - k, 0
  {
    hide IsLaidOut;
    var d := t.fields[k];
    assert d in t.fields;
    var name, text, more := StringCodec.WriteString(d.name), TextOf(fmt, d.value, |open|), FieldsText(fmt, t, k + 1, |open|);
    assert ColonText(fmt) == [COLON] + AfterColon(fmt);
    assert FieldText(fmt, t, k, |open|) == name + (([COLON] + AfterColon(fmt)) + (text + more));
    TextStarts(fmt, d.value, |open|, more + post);
    hide TextOf, FieldText, FieldsText, AfterColon, StringCodec.WriteString;
    FieldJoins(name, [COLON], AfterColon(fmt), text, more, post);
    StringIsPassed(fmt, d.name, [COLON] + (AfterColon(fmt) + (text + (more + post))), open);
    ColonIsPassed(fmt, text + (more + post), open);
    TreeIsLaidOut(fmt, d.value, more + post, open);
    FieldsAreLaidOut(fmt, t, k + 1, post, open);
  }

  lemma FieldJoins(name: Str, colon: Str, gap: Str, text: Str, more: Str, post: Str)
    ensures name + ((colon + gap) + (text + more)) + post == name + (colon + (gap + (text + (more + post))))
  {
    Regroup3(name, (colon + gap) + (text + more), post);
    Regroup4(colon, gap, text + more, post);
    Regroup3(text, more, post);
  }

  lemma {:induction false} FieldsAreLaidOut(fmt: Format, t: Tree, k: nat, post: Str, open: seq<Ch>)
    requires t.ObjectTree? && IsTree(t) && IsFiniteTree(t) && 0 < k <= |t.fields| && open != [] && open[|open| - 1] == LBRACE
    ensures IsLaidOut(fmt, FieldsText(fmt, t, k, |open|) + post, open) == IsLaidOut(fmt, post, open)
    decreases t, 0, |t.fields| - k, 1
  {
    hide IsLaidOut;
    if k == |t.fields| {
      assert [] + post == post;
    } else {
      var field := FieldText(fmt, t, k, |open|);
      assert NamePrefix(fmt, k, |open|) == [COMMA] + AfterComma(fmt, LBRACE, |open|);
      assert FieldsText(fmt, t, k, |open|) == [COMMA] + AfterComma(fmt, LBRACE, |open|) + field;
      FieldStarts(fmt, t, k, |open|, post);
      hide FieldText, FieldsText, AfterComma;
      Regroup4([COMMA], AfterComma(fmt, LBRACE, |open|), field, post);
      CommaIsPassed(fmt, field + post, open);
      FieldIsLaidOut(fmt, t, k, post, open);
    }
  }

  /** Whatever a writer has written of a well-nested sequence is laid out as its format says. */
  lemma WrittenIsLaidOut(fmt: Format, t: Tree)
    requires IsTree(t) && IsFiniteTree(t)
    ensures var w := WriteAll(fmt, Fresh, Events(t));
            w.Some? && IsLaidOut(fmt, w.value.os, [])
  {
    SequenceIsWritten(fmt, t);
    TreeIsLaidOut(fmt, t, [], []);
    assert TextOf(fmt, t, 0) + [] == TextOf(fmt, t, 0);
  }

  // ---------------------------------------------------------------------------------------------
  // Line by line
  // ---------------------------------------------------------------------------------------------

  /** The brackets open after a text, from outside of strings. */
  function OpenAfter(s: Str, open: seq<Ch>): seq<Ch>
    decreases |s|
  {
    if s == [] then open
    else if s[0] == QUOTE then OpenAfter(AfterString(s[1..]), open)
    else if IsOpening(s[0]) then OpenAfter(s[1..], open + [s[0]])
    else if IsClosing(s[0]) && open != [] then OpenAfter(s[1..], open[..|open| - 1])
    else OpenAfter(s[1..], open)
  }

  /** A string that has ended is passed in the same way whatever follows it. */
  lemma {:induction false} StringEnds(s: Str, m: nat)
    requires |s| - |AfterString(s)| <= m <= |s|
    ensures AfterString(s[..m]) == s[|s| - |AfterString(s)|..m]
    decreases |s|
  {
    if s != [] && s[0] != QUOTE {
      assert m > 0 && s[..m][0] == s[0];
      if s[0] != BACKSLASH {
        assert s[..m][1..] == s[1..][..m - 1];
        StringEnds(s[1..], m - 1);
      } else if |s| > 1 {
        assert s[..m][2..] == s[2..][..m - 2];
        StringEnds(s[2..], m - 2);
      }
    }
  }

  /** The scanner is past `n` units, with these brackets open; a place further on is as far into what is left. */
  predicate Passes(s: Str, open: seq<Ch>, n: nat, after: seq<Ch>, i: nat) {
    n <= i <= |s| && OpenAfter(s[..i], open) == OpenAfter(s[n..][..i - n], after)
  }

  lemma {:induction false} GapChangesNothing(gap: Str, s: Str, open: seq<Ch>)
    requires forall k :: 0 <= k < |gap| ==> IsSpace(gap[k])
    ensures OpenAfter(gap + s, open) == OpenAfter(s, open)
    decreases |gap|
  {
    if gap == [] {
      assert gap + s == s;
    } else {
      assert (gap + s)[0] == gap[0] && (gap + s)[1..] == gap[1..] + s;
      GapChangesNothing(gap[1..], s, open);
    }
  }

  /** One unit other than a quote, and white space after it. */
  lemma UnitPasses(s: Str, open: seq<Ch>, gap: Str, i: nat)
    requires s != [] && s[0] != QUOTE && gap <= s[1..] && |gap| + 1 <= i <= |s|
    requires forall k :: 0 <= k < |gap| ==> IsSpace(gap[k])
    ensures Passes(s, open, |gap| + 1, OpenAfter([s[0]], open), i)
  {
    var tail := s[|gap| + 1..][..i - |gap| - 1];
    assert s[..i][1..] == gap + tail;
    assert [s[0]][1..] == [];
    GapChangesNothing(gap, tail, OpenAfter([s[0]], open));
  }

  lemma StringPasses(s: Str, open: seq<Ch>, i: nat)
    requires s != [] && s[0] == QUOTE && |s| - |AfterString(s[1..])| <= i <= |s|
    ensures Passes(s, open, |s| - |AfterString(s[1..])|, open, i)
  {
    var n := |s| - |AfterString(s[1..])|;
    Slices(s, n, i);
    StringEnds(s[1..], i - 1);
    hide AfterString;
    assert OpenAfter(s[..i], open) == OpenAfter(AfterString(s[1..][..i - 1]), open);
  }

  lemma Slices(s: Str, n: nat, i: nat)
    requires 0 < n <= i <= |s|
    ensures s[..i][0] == s[0] && s[..i][1..] == s[1..][..i - 1] && s[1..][n - 1..i - 1] == s[n..][..i - n]
  {
  }

  /** The end of a container that is not empty. */
  lemma EndPasses(s: Str, open: seq<Ch>, gap: Str, bracket: Ch, i: nat)
    requires open != [] && IsClosing(bracket) && gap + [bracket] <= s && |gap| < i <= |s|
    requires forall k :: 0 <= k < |gap| ==> IsSpace(gap[k])
    ensures Passes(s, open, |gap| + 1, open[..|open| - 1], i)
  {
    var tail := s[|gap| + 1..][..i - |gap| - 1];
    var closed := [bracket] + tail;
    assert s[..i] == gap + closed;
    GapChangesNothing(gap, closed, open);
    assert closed[0] == bracket && closed[1..] == tail;
  }

  /** What a line feed is followed by: the indentation of the brackets open, less one before a closing bracket. */
  predicate IsIndented(fmt: Format, s: Str, open: nat)
    requires fmt.Pretty?
  {
    || GapThen(Line(fmt, open), s)
    || (open > 0 && GapThen(Line(fmt, open - 1), s) && IsClosing(s[|Line(fmt, open - 1)|]))
  }

  /** There is a line feed at `i` in a text laid out in lines. */
  predicate HasLine(fmt: Format, s: Str, open: seq<Ch>, i: nat) {
    fmt.Pretty? && IsLegal(fmt) && fmt.indentChar != LF && IsLaidOut(fmt, s, open) && i < |s| && s[i] == LF
  }

  /** The line feed at `i` is as it should be, if `n` is 0, or the scanner goes on `n` units further. */
  predicate IsTurn(fmt: Format, s: Str, open: seq<Ch>, i: nat, n: nat, after: seq<Ch>)
    requires HasLine(fmt, s, open, i)
  {
    if n == 0 then IsIndented(fmt, s[i..], |OpenAfter(s[..i], open)|)
    else n <= i && Passes(s, open, n, after, i) && IsLaidOut(fmt, s[n..], after)
  }

  lemma StringTurn(fmt: Format, s: Str, open: seq<Ch>, i: nat)
    requires HasLine(fmt, s, open, i) && s[0] == QUOTE
    ensures IsTurn(fmt, s, open, i, |s| - |AfterString(s[1..])|, open)
  {
    var rest := s[1..];
    var n := |s| - |AfterString(rest)|;
    assert i > 0 && rest[i - 1] == LF;
    forall k | 0 <= k < n - 1 ensures rest[k] != LF {
      assert rest[..n - 1][k] == rest[k];
    }
    StringEnds(rest, |rest|);
    assert rest[..|rest|] == rest && rest[n - 1..|rest|] == s[n..];
    StringPasses(s, open, i);
  }

  lemma EmptyTurn(fmt: Format, s: Str, open: seq<Ch>, i: nat)
    requires HasLine(fmt, s, open, i) && IsOpening(s[0]) && Peek(s[1..]) == Closing(s[0])
    ensures IsTurn(fmt, s, open, i, 2, open)
  {
    var c, rest := s[0], s[1..];
    assert s[2..] == rest[1..] && i >= 2;
    UnitPasses(s, open, [], i);
    assert [c][1..] == [] && OpenAfter([c], open) == open + [c];
    EndPasses(rest, open + [c], [], Closing(c), i - 1);
    assert (open + [c])[..|open|] == open && rest[1..][..i - 2] == s[2..][..i - 2];
    hide IsLaidOut;
  }

  /** A unit with a gap after it, in which the line feed may be. */
  lemma GapTurn(fmt: Format, s: Str, open: seq<Ch>, i: nat, gap: Str, after: seq<Ch>)
    requires HasLine(fmt, s, open, i) && s[0] != QUOTE && s[0] != LF && OpenAfter([s[0]], open) == after
    requires GapThen(gap, s[1..]) && IsLaidOut(fmt, s[1..][|gap|..], after)
    requires gap == Line(fmt, |after|) || gap == [] || gap == [SPACE]
    ensures IsTurn(fmt, s, open, i, if i <= |gap| then 0 else |gap| + 1, after)
  {
    hide IsLaidOut;
    if i <= |gap| {
      assert s[1..][i - 1] == gap[i - 1];
      assert i == 1 && s[..1] == [s[0]];
    } else {
      UnitPasses(s, open, gap, i);
      assert s[1..][|gap|..] == s[|gap| + 1..];
    }
  }

  /** The end of a container that is not empty: its gap and its closing bracket. */
  predicate EndsWith(fmt: Format, s: Str, open: seq<Ch>, gap: Str) {
    && open != [] && gap == Inside(fmt, open[|open| - 1], |open| - 1) && gap + [Closing(open[|open| - 1])] <= s
    && IsLaidOut(fmt, s[|gap| + 1..], open[..|open| - 1])
  }

  lemma EndIs(fmt: Format, s: Str, open: seq<Ch>)
    requires IsLaidOut(fmt, s, open) && s != [] && (IsSpace(s[0]) || IsClosing(s[0]))
    ensures open != [] && EndsWith(fmt, s, open, Inside(fmt, open[|open| - 1], |open| - 1))
  {
  }

  lemma InsideIs(fmt: Format, bracket: Ch, open: nat)
    requires fmt.Pretty? && IsLegal(fmt)
    ensures var gap := Inside(fmt, bracket, open);
            (gap == [] || gap == Line(fmt, open)) && forall k :: 0 <= k < |gap| ==> IsSpace(gap[k])
  {
  }

  lemma EndTurn(fmt: Format, s: Str, open: seq<Ch>, i: nat, gap: Str)
    requires HasLine(fmt, s, open, i) && EndsWith(fmt, s, open, gap)
    ensures IsTurn(fmt, s, open, i, if i <= |gap| then 0 else |gap| + 1, open[..|open| - 1])
  {
    var bracket := Closing(open[|open| - 1]);
    InsideIs(fmt, open[|open| - 1], |open| - 1);
    hide IsLaidOut, Inside;
    assert (gap + [bracket])[|gap|] == bracket && s[|gap|] == bracket && gap <= s;
    if i <= |gap| {
      assert s[i] == (gap + [bracket])[i];
      assert i == 0 && s[0..] == s;
      assert GapThen(Line(fmt, |open| - 1), s);
    } else {
      EndPasses(s, open, gap, bracket, i);
    }
  }

  lemma Turn(fmt: Format, s: Str, open: seq<Ch>, i: nat) returns (n: nat, after: seq<Ch>)
    requires HasLine(fmt, s, open, i)
    ensures IsTurn(fmt, s, open, i, n, after)
  {
    hide IsTurn, IsIndented, Passes, Inside, AfterComma, AfterColon, Line;
    var c, rest := s[0], s[1..];
    after := open;
    if c == QUOTE {
      n := |s| - |AfterString(rest)|;
      StringTurn(fmt, s, open, i);
    } else if IsOpening(c) && Peek(rest) == Closing(c) {
      n := 2;
      EmptyTurn(fmt, s, open, i);
    } else if IsSpace(c) || IsClosing(c) {
      EndIs(fmt, s, open);
      var gap := Inside(fmt, open[|open| - 1], |open| - 1);
      EndTurn(fmt, s, open, i, gap);
      n, after := if i <= |gap| then 0 else |gap| + 1, open[..|open| - 1];
    } else {
      assert [c][1..] == [];
      var gap: Str := [];
      if IsOpening(c) {
        gap, after := Inside(fmt, c, |open| + 1), open + [c];
      } else if c == COMMA {
        gap := AfterComma(fmt, open[|open| - 1], |open|);
      } else if c == COLON {
        gap := AfterColon(fmt);
      }
      GapIs(fmt, c, open, gap);
      PlainTurn(fmt, s, open, i, gap, after);
      n := if i <= |gap| then 0 else |gap| + 1;
    }
  }

  lemma GapIs(fmt: Format, c: Ch, open: seq<Ch>, gap: Str)
    requires fmt.Pretty?
    requires if IsOpening(c) then gap == Inside(fmt, c, |open| + 1)
             else if c == COMMA then open != [] && gap == AfterComma(fmt, open[|open| - 1], |open|)
             else if c == COLON then gap == AfterColon(fmt) else gap == []
    ensures gap == Line(fmt, if IsOpening(c) then |open| + 1 else |open|) || gap == [] || gap == [SPACE]
  {
  }

  lemma PlainTurn(fmt: Format, s: Str, open: seq<Ch>, i: nat, gap: Str, after: seq<Ch>)
    requires HasLine(fmt, s, open, i) && s[0] != QUOTE && !IsSpace(s[0]) && !IsClosing(s[0])
    requires IsOpening(s[0]) ==> Peek(s[1..]) != Closing(s[0])
    requires if IsOpening(s[0]) then gap == Inside(fmt, s[0], |open| + 1) && after == open + [s[0]]
             else after == open && (if s[0] == COMMA then open != [] && gap == AfterComma(fmt, open[|open| - 1], |open|)
                                    else if s[0] == COLON then gap == AfterColon(fmt) else gap == [])
    ensures IsTurn(fmt, s, open, i, if i <= |gap| then 0 else |gap| + 1, after)
  {
    var c, rest := s[0], s[1..];
    GapIs(fmt, c, open, gap);
    assert [c][1..] == [] && OpenAfter([c], open) == after;
    assert IsLaidOut(fmt, rest[|gap|..], after) by {
      assert rest[0..] == rest;
    }
    if IsOpening(c) || c == COMMA || c == COLON {
      GapTurn(fmt, s, open, i, gap, after);
    } else {
      assert i > 0;
      UnitPasses(s, open, [], i);
    }
  }

  /** In a text laid out in lines every line is indented by the brackets that are open where it starts. */
  lemma {:induction false} LineIsIndented(fmt: Format, s: Str, open: seq<Ch>, i: nat)
    requires HasLine(fmt, s, open, i)
    ensures IsIndented(fmt, s[i..], |OpenAfter(s[..i], open)|)
    decreases |s|
  {
    var n, after := Turn(fmt, s, open, i);
    if n > 0 {
      hide IsLaidOut, IsIndented, OpenAfter;
      LineIsIndented(fmt, s[n..], after, i - n);
      assert s[n..][i - n..] == s[i..];
    }
  }

  /** In what a pretty writer has written every line is indented by the brackets open where it starts. */
  lemma WrittenLinesAreIndented(fmt: Format, t: Tree, i: nat)
    requires IsTree(t) && IsFiniteTree(t) && fmt.Pretty? && IsLegal(fmt) && fmt.indentChar != LF
    ensures var w := WriteAll(fmt, Fresh, Events(t));
            w.Some? && (i < |w.value.os| && w.value.os[i] == LF ==> IsIndented(fmt, w.value.os[i..], |OpenAfter(w.value.os[..i], [])|))
  {
    WrittenIsLaidOut(fmt, t);
    var os := WriteAll(fmt, Fresh, Events(t)).value.os;
    if i < |os| && os[i] == LF {
      LineIsIndented(fmt, os, [], i);
    }
  }
}
