/** Code units, the NUL-terminated input stream, and the characters JSON gives a meaning to. */
module Text {

  /** A `char` code unit of the UTF-8 instantiation, read as an unsigned byte. */
  type Ch = c: int | 0 <= c < 256

  /** A string, or the unread part of an input stream (a stream is identified with what is left of it). */
  type Str = seq<Ch>

  const NUL: Ch := 0x00
  const TAB: Ch := 0x09
  const LF: Ch := 0x0A
  const CR: Ch := 0x0D
  const SPACE: Ch := 0x20
  const QUOTE: Ch := 0x22
  const HASH: Ch := 0x23
  const PERCENT: Ch := 0x25
  const APOSTROPHE: Ch := 0x27
  const STAR: Ch := 0x2A
  const PLUS: Ch := 0x2B
  const COMMA: Ch := 0x2C
  const MINUS: Ch := 0x2D
  const DOT: Ch := 0x2E
  const SLASH: Ch := 0x2F
  const ZERO: Ch := 0x30
  const NINE: Ch := 0x39
  const COLON: Ch := 0x3A
  const LBRACKET: Ch := 0x5B
  const BACKSLASH: Ch := 0x5C
  const RBRACKET: Ch := 0x5D
  const LETTER_U: Ch := 0x75
  const LBRACE: Ch := 0x7B
  const RBRACE: Ch := 0x7D
  const TILDE: Ch := 0x7E

  /** What the stream shows next; past the end it shows the terminator. */
  function Peek(s: Str): Ch {
    if s == [] then NUL else s[0]
  }

  /** The stream after one unit has been taken. */
  function Tail(s: Str): Str {
    if s == [] then [] else s[1..]
  }

  predicate IsDigit(c: Ch) {
    ZERO <= c <= NINE
  }

  predicate IsSpace(c: Ch) {
    c == SPACE || c == LF || c == CR || c == TAB
  }

  datatype Option<+T> = None | Some(value: T)

  /** Concatenation regrouped, for chains too long for the verifier to regroup unaided. */
  lemma Regroup3<T>(a: seq<T>, b: seq<T>, c: seq<T>)
    ensures a + b + c == a + (b + c)
  {
  }

  lemma Regroup4<T>(a: seq<T>, b: seq<T>, c: seq<T>, d: seq<T>)
    ensures a + b + c + d == a + (b + (c + d))
  {
    Regroup3(a + b, c, d);
    Regroup3(a, b, c + d);
  }

  lemma Regroup5<T>(a: seq<T>, b: seq<T>, c: seq<T>, d: seq<T>, e: seq<T>)
    ensures a + b + c + d + e == a + (b + (c + (d + e)))
  {
    Regroup4(a + b, c, d, e);
    Regroup3(a, b, c + (d + e));
  }
}
