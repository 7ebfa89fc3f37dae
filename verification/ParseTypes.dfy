/** What parsers share: error codes (include/rapidjson/error/error.h), parse flags, and handler events. */
module ParseTypes {
  import opened Text

  datatype ErrorCode =
    | DocumentEmpty
    | DocumentRootNotSingular
    | ValueInvalid
    | ObjectMissName
    | ObjectMissColon
    | ObjectMissCommaOrCurlyBracket
    | ArrayMissCommaOrSquareBracket
    | StringUnicodeEscapeInvalidHex
    | StringUnicodeSurrogateInvalid
    | StringEscapeInvalid
    | StringMissQuotationMark
    | StringInvalidEncoding
    | NumberTooBig
    | NumberMissFraction
    | NumberMissExponent
    | UnspecificSyntaxError

  /** The bits of a double. */
  type Bits = b: int | 0 <= b < 0x1_0000_0000_0000_0000

  const SIGN_BIT: Bits := 0x8000_0000_0000_0000

  /** The bits of positive infinity; those of larger magnitudes are no numbers. */
  const INFINITY: Bits := 0x7FF0_0000_0000_0000

  /** The bits of a double that is not negative, infinity being the largest. */
  type Magnitude = m: int | 0 <= m <= INFINITY

  predicate IsFinite(b: Bits) {
    b % SIGN_BIT < INFINITY
  }

  predicate IsNegative(b: Bits) {
    b >= SIGN_BIT
  }

  function MagnitudeOf(b: Bits): Magnitude
    requires IsFinite(b)
  {
    b % SIGN_BIT
  }

  function WithSign(minus: bool, m: Magnitude): Bits {
    if minus then m + SIGN_BIT else m
  }

  lemma SignedIs(minus: bool, m: Magnitude)
    requires m < INFINITY
    ensures IsFinite(WithSign(minus, m)) && IsNegative(WithSign(minus, m)) == minus && MagnitudeOf(WithSign(minus, m)) == m
  {
  }

  /**
   * The parse flags that change what is accepted or reported. `strtod` stands for the floating-point
   * accumulation of a number and the conversions of internal/strtod.h: the double read from a number's text
   * without its sign. It is told the sign because integers that are negative leave the 64-bit accumulator sooner.
   */
  datatype Flags = Flags(
    validateEncoding: bool,
    escapedApostrophe: bool,
    comments: bool,
    trailingCommas: bool,
    stopWhenDone: bool,
    strtod: (bool, Str) -> Magnitude)

  /** `SizeType`, an unsigned 32-bit count. */
  type SizeType = n: int | 0 <= n < 0x1_0000_0000

  function Increment(n: SizeType): SizeType {
    (n + 1) % 0x1_0000_0000
  }

  /** The handler's calls. */
  datatype Event =
    | NullEvent
    | BoolEvent(b: bool)
    | IntEvent(i: int)
    | UintEvent(u: int)
    | Int64Event(i: int)
    | Uint64Event(u: int)
    | DoubleEvent(bits: Bits)
    | StringEvent(str: Str)
    | StartObjectEvent
    | KeyEvent(str: Str)
    | EndObjectEvent(count: SizeType)
    | StartArrayEvent
    | EndArrayEvent(count: SizeType)
}
