/**
 * White space and comments: SkipWhitespaceAndComments of include/rapidjson/reader.h skips the white space of
 * RFC 8259 section 2, and C comments when the flags allow them, and nothing else.
 */
module SpaceGrammar {
  import opened Text
  import opened ParseTypes
  import opened Grammar

  /** A white-space character, a block comment, or a line comment with the line feed that ends it. */
  datatype Space =
    | Blank(c: Ch)
    | Block(body: Str)
    | Line(body: Str)

  const OPEN: Str := [SLASH, STAR]
  const CLOSE: Str := [STAR, SLASH]
  const SLASHES: Str := [SLASH, SLASH]

  /** A block comment ends at the first star with a slash after it. */
  predicate IsBlockBody(body: Str) {
    body == [] || (body[0] != NUL && !(body[0] == STAR && Peek(body[1..]) == SLASH) && IsBlockBody(body[1..]))
  }

  predicate IsLineBody(body: Str) {
    NUL !in body && LF !in body
  }

  predicate IsSpacing(f: Flags, p: Space) {
    match p
    case Blank(c) => IsSpace(c)
    case Block(body) => f.comments && IsBlockBody(body)
    case Line(body) => f.comments && IsLineBody(body)
  }

  function SpellSpace(p: Space): Str {
    match p
    case Blank(c) => [c]
    case Block(body) => OPEN + (body + CLOSE)
    case Line(body) => SLASHES + (body + [LF])
  }

  predicate AllSpacing(f: Flags, g: seq<Space>) {
    forall k :: 0 <= k < |g| ==> IsSpacing(f, g[k])
  }

  function SpellSpaces(g: seq<Space>): Str {
    if g == [] then [] else SpellSpace(g[0]) + SpellSpaces(g[1..])
  }

  /** What is left starts no further white space or comment. */
  predicate StartsToken(f: Flags, s: Str) {
    !IsSpace(Peek(s)) && (f.comments ==> Peek(s) != SLASH)
  }

  /** A line comment that the end of the text cuts off. */
  predicate IsLastLine(f: Flags, last: Str, rest: Str) {
    last == [] || (f.comments && |last| >= 2 && last[..2] == SLASHES && IsLineBody(last[2..]) && Peek(rest) == NUL)
  }

  // ---------------------------------------------------------------------------------------------
  // Spaces are skipped
  // ---------------------------------------------------------------------------------------------

  lemma {:induction false} BlockIsSkipped(body: Str, post: Str)
    requires IsBlockBody(body)
    ensures SkipBlockComment(body + (CLOSE + post)) == Some(post)
    decreases |body|
  {
    var s := body + (CLOSE + post);
    if body == [] {
      assert s == CLOSE + post;
      assert s[1..][0] == SLASH && s[2..] == post;
    } else {
      assert s[0] == body[0] && s[1..] == body[1..] + (CLOSE + post);
      BlockIsSkipped(body[1..], post);
    }
  }

  lemma {:induction false} LineIsSkipped(body: Str, post: Str)
    requires IsLineBody(body)
    ensures SkipLineComment(body + ([LF] + post)) == post
    decreases |body|
  {
    var s := body + ([LF] + post);
    if body == [] {
      assert s == [LF] + post;
    } else {
      assert body[0] in body;
      assert s[0] == body[0] && s[1..] == body[1..] + ([LF] + post);
      LineIsSkipped(body[1..], post);
    }
  }

  lemma {:induction false} LastLineIsSkipped(body: Str, rest: Str)
    requires IsLineBody(body) && Peek(rest) == NUL
    ensures SkipLineComment(body + rest) == rest
    decreases |body|
  {
    var s := body + rest;
    if body == [] {
      assert s == rest;
    } else {
      assert body[0] in body;
      assert s[0] == body[0] && s[1..] == body[1..] + rest;
      LastLineIsSkipped(body[1..], rest);
    }
  }

  /** One piece is skipped, and the skipping starts afresh. */
  lemma PieceIsSkipped(f: Flags, p: Space, post: Str, log: seq<Event>)
    requires IsSpacing(f, p)
    ensures SkipSpace(f, State(SpellSpace(p) + post, log)) == SkipSpace(f, State(post, log))
  {
    hide SkipBlockComment, SkipLineComment;
    var s := SpellSpace(p) + post;
    match p
    case Blank(c) =>
      assert s[1..] == post;
    case Block(body) =>
      Regroup3(OPEN, body + CLOSE, post);
      Regroup3(body, CLOSE, post);
      assert s[1..][0] == STAR && s[2..] == body + (CLOSE + post);
      BlockIsSkipped(body, post);
    case Line(body) =>
      Regroup3(SLASHES, body + [LF], post);
      Regroup3(body, [LF], post);
      assert s[1..][0] == SLASH && s[2..] == body + ([LF] + post);
      LineIsSkipped(body, post);
  }

  lemma {:induction false} SpacesAreSkipped(f: Flags, g: seq<Space>, post: Str, log: seq<Event>)
    requires AllSpacing(f, g)
    ensures SkipSpace(f, State(SpellSpaces(g) + post, log)) == SkipSpace(f, State(post, log))
    decreases |g|
  {
    hide SkipSpace, SpellSpace, IsSpacing;
    if g == [] {
      assert [] + post == post;
    } else {
      Regroup3(SpellSpace(g[0]), SpellSpaces(g[1..]), post);
      PieceIsSkipped(f, g[0], SpellSpaces(g[1..]) + post, log);
      SpacesAreSkipped(f, g[1..], post, log);
    }
  }

  lemma TokenIsKept(f: Flags, s: Str, log: seq<Event>)
    requires StartsToken(f, s)
    ensures SkipSpace(f, State(s, log)) == Ok(State(s, log))
  {
  }

  lemma LastIsSkipped(f: Flags, last: Str, rest: Str, log: seq<Event>)
    requires IsLastLine(f, last, rest) && StartsToken(f, rest)
    ensures SkipSpace(f, State(last + rest, log)) == Ok(State(rest, log))
  {
    var s := last + rest;
    if last == [] {
      assert s == rest;
      TokenIsKept(f, rest, log);
    } else {
      assert s[0] == last[..2][0] && s[1..][0] == last[..2][1] && s[2..] == last[2..] + rest;
      LastLineIsSkipped(last[2..], rest);
      TokenIsKept(f, rest, log);
    }
  }

  // ---------------------------------------------------------------------------------------------
  // What is skipped is space
  // ---------------------------------------------------------------------------------------------

  lemma {:induction false} SkippedIsBlock(s: Str) returns (body: Str)
    requires SkipBlockComment(s).Some?
    ensures IsBlockBody(body) && s == body + (CLOSE + SkipBlockComment(s).value)
    decreases |s|
  {
    if s[0] == STAR && Peek(s[1..]) == SLASH {
      body := [];
      assert s == CLOSE + s[2..];
      assert [] + s == s;
    } else {
      var more := SkippedIsBlock(s[1..]);
      body := [s[0]] + more;
      assert s == [s[0]] + s[1..];
      var rest := SkipBlockComment(s).value;
      Regroup3([s[0]], more, CLOSE + rest);
      assert body[1..] == more && Peek(more) == SLASH ==> s[1] == SLASH;
    }
  }

  lemma {:induction false} SkippedIsLine(s: Str) returns (body: Str, ended: bool)
    ensures IsLineBody(body)
    ensures var rest := SkipLineComment(s);
            if ended then s == body + ([LF] + rest) else s == body + rest && Peek(rest) == NUL
    decreases |s|
  {
    var rest := SkipLineComment(s);
    if Peek(s) == NUL {
      body, ended := [], false;
      assert [] + s == s;
    } else if s[0] == LF {
      body, ended := [], true;
      assert s == [] + ([LF] + rest);
    } else {
      body, ended := SkippedIsLine(s[1..]);
      var more := body;
      body := [s[0]] + more;
      assert s == [s[0]] + s[1..];
      if ended {
        Regroup3([s[0]], more, [LF] + rest);
      } else {
        Regroup3([s[0]], more, rest);
      }
    }
  }

  lemma Prepend(f: Flags, p: Space, g: seq<Space>, s: Str, post: Str)
    requires IsSpacing(f, p) && AllSpacing(f, g) && s == SpellSpace(p) + (SpellSpaces(g) + post)
    ensures AllSpacing(f, [p] + g) && s == SpellSpaces([p] + g) + post
  {
    hide SpellSpace, IsSpacing;
    assert ([p] + g)[1..] == g;
    Regroup3(SpellSpace(p), SpellSpaces(g), post);
  }

  /** Where no token starts, one piece is skipped, unless the end of the text cuts off a line comment. */
  lemma SkippedIsPiece(f: Flags, s: Str, log: seq<Event>) returns (p: Option<Space>, t: Str)
    requires SkipSpace(f, State(s, log)).Ok? && !StartsToken(f, s)
    ensures SkipSpace(f, State(s, log)) == SkipSpace(f, State(t, log)) && |t| < |s|
    ensures match p
            case Some(piece) => IsSpacing(f, piece) && s == SpellSpace(piece) + t
            case None => IsLastLine(f, s[..|s| - |t|], t) && s == s[..|s| - |t|] + t && StartsToken(f, t)
  {
    hide SkipBlockComment, SkipLineComment;
    if IsSpace(Peek(s)) {
      p, t := Some(Blank(s[0])), s[1..];
    } else if s[1] == STAR {
      t := SkipBlockComment(s[2..]).value;
      var body := SkippedIsBlock(s[2..]);
      p := Some(Block(body));
      assert s == OPEN + s[2..];
      Regroup3(body, CLOSE, t);
      Regroup3(OPEN, body + CLOSE, t);
    } else {
      t := SkipLineComment(s[2..]);
      var body, ended := SkippedIsLine(s[2..]);
      p := if ended then Some(Line(body)) else None;
      assert s == SLASHES + s[2..];
      Regroup3(body, [LF], t);
      Regroup3(SLASHES, body + [LF], t);
      Regroup3(SLASHES, body, t);
      assert !ended ==> s[..|s| - |t|] == SLASHES + body;
    }
  }

  /** What is skipped is white space and comments, to the last, and possibly a line comment cut off at the end. */
  lemma {:induction false} SkippedAreSpaces(f: Flags, s: Str, log: seq<Event>) returns (g: seq<Space>, last: Str)
    requires SkipSpace(f, State(s, log)).Ok?
    ensures var rest := SkipSpace(f, State(s, log)).state.rest;
            && AllSpacing(f, g) && s == SpellSpaces(g) + (last + rest)
            && IsLastLine(f, last, rest) && StartsToken(f, rest)
    decreases |s|
  {
    hide SkipSpace, SpellSpace, IsSpacing, StartsToken, IsLineBody;
    var rest := SkipSpace(f, State(s, log)).state.rest;
    g, last := [], [];
    if StartsToken(f, s) {
      TokenIsKept(f, s, log);
      assert s == [] + ([] + rest);
    } else {
      var p, t := SkippedIsPiece(f, s, log);
      if p.Some? {
        g, last := SkippedAreSpaces(f, t, log);
        Prepend(f, p.value, g, s, last + rest);
        g := [p.value] + g;
      } else {
        TokenIsKept(f, t, log);
        last := s[..|s| - |t|];
        assert s == [] + (last + t);
      }
    }
  }
}
