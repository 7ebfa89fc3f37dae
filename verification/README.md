# Verification of the bundled JSON engine and of the libhv containers

This project models, in Dafny 4.11, the two bundled libraries whose code the repository carries in full:
RapidJSON (`include/rapidjson`) and the header-only parts of libhv (`include/hv`). It proves what they
promise over all inputs and all runs. `dafny verify dfyconfig.toml` checks everything.

## What is modelled

**Parsing.** `Grammar` is the recursive-descent parser as a function of the text; `Iterative` is the
table-driven parser with its tables, states and two-word stack frames, and the proof by simulation that it
gives the verdict, events, counts, error code and offset of the recursive one. `Reader` is `GenericReader` as
an object, its methods and loops proved against those functions. `Number`, `NumberText`, `StringCodec` and
`InsituString` are number and string reading, the last one on the very buffer that is being read; `InsituText` is
a whole parse in such a buffer.

**The grammar.** `NumberGrammar`, `StringGrammar`, `SpaceGrammar` and `Syntax` are the grammar of RFC 8259, with
the extensions the parse flags allow, as a data type of spelled-out texts with their meaning; `NumberMeaning` says
what its numbers mean and which are too big, by the two tests of the source. A text is accepted if and only if it is
one of the grammar without a number that is too big and without an escaped surrogate that has no partner, and then
raises the events it means.

**Errors.** `Refusal` is the same for the texts that are refused: a data type of beginnings of texts, up to the unit
where they stop being of the grammar. What is due there decides the error code, the unit the offset, what has been
read the events. `StringRefusal` and `NumberRefusal` are what can go wrong inside a string and a number. `Beginnings`
proves that the offset is that of the first unit that cannot go on.

**Building and printing.** `Values` and `Document` are the DOM, `Accept` and the handler stack;
`ParsedDocument` is the reader driving the handler. `Writer` is the compact and the pretty writer as a level
stack machine and as an object, `WriterAccepts` says which event sequences it takes, `DoubleText` is the
printing of doubles from their digits, `Layout` says where the printed text has line feeds, indentation and spaces,
and `RoundTrip` proves that what is printed is JSON and that parsing undoes printing.

**Encodings.** `Utf8` and `Utf16` are the codecs with the range table, against RFC 3629 and RFC 2781.

**JSON Pointer (RFC 6901).** `PointerText` is the grammar of both text forms, `PointerParser` the object that
fills the token and name buffers, `PointerDom` the operations on a DOM and their laws.

**Memory and index.** `MemoryPool` and `PoolSharing` are the chunked allocator and its reference counting;
`MembersMap` is the multimap kept beside an object's members.

**libhv.** `RingBuf`, `VlBuf`, `Varint` and `Reconnect` are `HRingBuf`, `HVLBuf`, the integer codecs and the
reconnect settings; `ThreadPool` and `ObjectPool` are the two pools as interleaved steps, with `ThreadMinimum` on how
few threads there can be and `ThreadCommit` on when `commit` creates one.

## How it is modelled

Code that computes is a function, and the laws are lemmas about it. Code that updates in place is a class or a
method on an array, and its contract ties the new state to such a function of the old one; so every law is also
a law of the method. A stream is the text still to be read: past the end it shows the terminator, and an error
carries the distance from the end of the text. Integers are bounded where the code bounds them (`SizeType`,
`int`, `unsigned`, `uint64_t`, `size_t`), and wrapping is written out.

A double is its 64 bits. What a model cannot see is a parameter: `Flags.strtod` is the conversion of a number's
sign and of its text without the sign to the bits of a double or infinity (a negative number leaves the 64-bit
accumulator sooner, so its digits may be rounded otherwise), `Printer.grisu` the digits and the power of ten found
for a double, an `Option` answers for the base allocator, another for the object factory, and the scheduler's
choice is the sequence of steps.

## Where the code does less than it promises

Each of these is proved, with the condition under which the promise holds; it is exact where it says if and only if.

- The accumulator of a positive exponent, and its sum with the fraction's, can leave `int`: the guard
  `exp > maxExp` comes too late when the fraction has lowered the exponent below -214748055
  (`Number.PositiveExponentFitsIff`). A text has to be over 200 million units long for it
  (`Number.OverflowingLiteral`, `Number.ExponentsFitShortTexts`).
- The accumulator of a negative exponent leaves `int` for some digits if and only if the fraction has lowered the
  exponent below -2147483549 (`Number.NegativeExponentFitsIff`).
- The guard that refuses large exponents does not look at the digits before them, so it also refuses zeros, as in
  `0e309`; on all other numbers it is right (`NumberMeaning.GuardIsRightIff`, `NumberMeaning.ZeroIsRefused`).
- Section 7 of RFC 8259 allows an escaped surrogate anywhere in a string; the parser refuses a string if and only
  if some escaped surrogate is not half of a pair (`StringGrammar.RefusedIffStray`,
  `StringGrammar.LoneSurrogateIsRefused`).
- A stray `]`, `}`, `,` or `:` at the root is an invalid value to one parser and an empty document to the
  other; nothing else tells them apart (`Iterative.SameResultIff`).
- An accepted text builds exactly one root if and only if no container has 2^32 members or elements: the count
  an end event carries is 32 bits wide (`ParsedDocument.BuildsOneIff`).
- The overflow test for array indices in a JSON Pointer misses overflows (`PointerText.IndexIsExactIff`,
  `PointerText.MissedOverflow`).
- Get after Set, and a second Create, find the value if and only if no token was a `-` on an array; Create
  keeps every other pointer if and only if it replaces no array with elements by an object
  (`PointerDom.GetAfterSetIff`, `PointerDom.CreateTwiceIff`, `PointerDom.CreateKeepsAllIff`; the inputs are in
  `PointerDom.AppendedIsNotFound` and `PointerDom.ElementIsLost`).
- `Malloc` and `Realloc` are sound if and only if no sum of sizes wraps (`MemoryPool.MallocIsSoundIff`,
  `MemoryPool.ReallocIsSoundIff`, `MemoryPool.MallocMayWrap`).
- An empty `HRingBuf` takes every block up to its capacity if and only if its head is at 0, and freeing does not
  bring it back there (`RingBuf.EmptyRefusesIff`, `RingBuf.EmptyMayRefuse`).
- `HThreadPool::wait` may return while a task runs. It reads the queue and the two counters one after the other, and
  workers lower the counters one after the other: the condition is in `ThreadPool.WaitIsRightIff`, a return of each
  kind that breaks it in `ThreadPool.WaitMayReturnEarly`.
- Callers of `start` and `commit` that overlap can bring an `HThreadPool` past its maximum, by fewer threads than
  there are callers (`ThreadPool.RunKeepsMax`, `ThreadPool.TwoCallersPassMax`).
- A `pause` or `resume` that overlaps `stop` can leave an `HThreadPool` that is not stopped and has no thread
  (`ThreadMinimum.PauseMayRevive`); without that, one that is not stopped has its minimum of threads whenever nobody is
  inside `start` or `commit` (`ThreadMinimum.StartedHasMin`).
- The doubling of an `HVLBuf` wraps if and only if the buffer or the bytes are 2^63 long or longer
  (`VlBuf.DoublingFitsIff`).
- `ceil2e` gives 0 above 2^63 (`Varint.Ceil2e`). `varint_decode` also accepts encodings with superfluous
  groups of zero, and encodings of ten bytes, whose last bits are lost (`Varint.IsEncodingIff`,
  `Varint.PaddedZeroIsRead`, `Varint.LostBitIsRead`).
- Reconnect delays follow the documented sequence if and only if no step wraps to less than the maximum
  (`Reconnect.PromiseIff`, in closed form `Reconnect.LinearPromiseIff` and `Reconnect.ExponentialPromiseIff`;
  `Reconnect.PromiseCanFail`), and the retry counter starts over at call number 2^32
  (`Reconnect.RetriesBeforeRefusal`).

## Model

| member | source | states |
|---|---|---|
| `Utf8.DecodeFollowsGrammar` | include/rapidjson/encodings.h:146-220 | `Decode`, mask table and all, accepts exactly the UTF8-char productions of RFC 3629 section 4 and returns the code point they stand for and the bytes after them |
| `Utf8.DecodeEncode` | include/rapidjson/encodings.h:102-121 | decoding undoes encoding for every scalar value, whatever bytes follow |
| `Utf8.DecodeOnlyShortest` | include/rapidjson/encodings.h:146-176 | a string is accepted if and only if it starts with the encoding of some scalar value, so never an overlong form, a surrogate or a value past U+10FFFF |
| `Utf8.ValidateIsDecode` | include/rapidjson/encodings.h:179-202 | `Validate` accepts what `Decode` accepts, takes the same bytes and copies them verbatim |
| `Utf8.GrammarFollowsEncode` | include/rapidjson/encodings.h:102-121 | the bytes of a grammatical character are the encoding of its value |
| `Utf8.DecodeAllEncodeAll` | include/rapidjson/encodings.h:102-176 | decoding the concatenated encodings of any sequence of scalar values returns that sequence |
| `Utf8.EncodeAllDecodeAll` | include/rapidjson/encodings.h:102-176 | encoding what a byte string decodes to returns the byte string |
| `Utf8.Bijection` | include/rapidjson/encodings.h:102-176 | a byte string decodes if and only if it is the encoding of some sequence of scalar values |
| `Utf16.DecodeEncode` | include/rapidjson/encodings.h:276-322 | UTF-16 decoding undoes encoding, surrogate pairs included (RFC 2781 sections 2.1 and 2.2) |
| `Utf16.DecodeOnlyWellFormed` | include/rapidjson/encodings.h:307-337 | what UTF-16 `Decode` accepts is the units of one scalar value, and `Validate` accepts the same, takes the same units and copies them verbatim |
| `Utf16.TranscodeRoundTrip` | include/rapidjson/encodings.h:658-683 | transcoding UTF-8 to UTF-16 succeeds exactly on UTF-8, and back again is the identity |
| `StringCodec.DecodeUndoesWrite` | include/rapidjson/writer.h:383-455 | reading a written string returns the very bytes that were written and stops at the closing quote, for all bytes or, when encodings are validated, for all UTF-8 |
| `StringCodec.ValidatedIsUtf8` | include/rapidjson/reader.h:1004-1067 | whatever mixture of bytes and escapes a validating reader accepts, the string it returns is UTF-8 |
| `StringGrammar.ParseHex4Is` | include/rapidjson/reader.h:906-925 | an escape takes exactly four hexadecimal digits, in either case, and yields their value |
| `StringGrammar.UnitIsRead` | include/rapidjson/reader.h:1022-1044 | any four hexadecimal digits that are not a surrogate are read as the code point of that UTF-16 unit |
| `StringGrammar.PairIsRead` | include/rapidjson/reader.h:1022-1044 | an escaped high surrogate with an escaped low one right after it is read as the code point UTF-16 decodes the pair to (RFC 8259 section 7) |
| `StringGrammar.ReadIsCodePoint` | include/rapidjson/reader.h:1022-1044 | nothing else is read as a code point: what is, is one escape that is no surrogate, or a high and a low one |
| `StringGrammar.CharIsRead` | include/rapidjson/reader.h:1004-1067 | one pass of the loop takes any character of the grammar but a surrogate, escaped or not, whatever follows, and writes what it stands for |
| `StringGrammar.ReadIsChar` | include/rapidjson/reader.h:1004-1067 | what one pass takes is a character of the grammar or a pair of surrogates, so control characters, unknown escapes and, when encodings are validated, bytes that are not UTF-8 are refused |
| `StringGrammar.StringIff` | include/rapidjson/reader.h:991-1068 | from after its quote a string is accepted if and only if it is characters of RFC 8259 section 7, their surrogates paired, and a closing quote, and then the value is what they stand for, in order |
| `StringGrammar.RefusedIffStray` | include/rapidjson/reader.h:1022-1044 | a string of RFC 8259 section 7 is refused if and only if an escape in it is a surrogate that is neither a high one followed at once by a low one nor that low one |
| `StringGrammar.PairedIffNoneStray` | include/rapidjson/reader.h:1022-1044 | every surrogate, read from the left, belongs to a pair if and only if no single escape is such a stray one |
| `StringGrammar.LoneSurrogateIsRefused` | include/rapidjson/reader.h:1031-1044 | "\uDC00" is a string of the grammar and is refused |
| `StringGrammar.UnitIsWritten` | include/rapidjson/writer.h:386-449 | a unit that may stand unescaped is written as it is, one with a letter of RFC 8259 section 7 with a backslash and the letter, any other as \u00 and two hexadecimal digits in capitals with its value |
| `StringGrammar.ShortestIsWritten` | include/rapidjson/writer.h:383-455 | what the writer writes for a string is the shortest of all spellings that are read as that string |
| `StringRefusal.BreaksIff` | include/rapidjson/reader.h:1004-1067 | one pass of the loop fails with an error exactly when no character starts there for that reason: the end of the text, a control character, bytes that are not UTF-8, a letter that follows no backslash, missing hexadecimal digits, or a surrogate without its partner |
| `StringRefusal.StringRefusedIff` | include/rapidjson/reader.h:991-1068 | a string is refused with an error at a place if and only if what comes before is characters of a string, surrogates paired, and what comes there is no character for that reason; an escape is refused at its backslash |
| `InsituString.InsituStream.Take` | include/rapidjson/stream.h:195-195 | the read cursor moves over one unit; the buffer is untouched |
| `InsituString.InsituStream.Put` | include/rapidjson/stream.h:199-199 | one unit is written at the write cursor and nowhere else |
| `InsituString.InsituStream.Escape` | include/rapidjson/reader.h:1010-1048 | an escape is decoded into the buffer being read: same bytes as the copying decoder, written behind the read cursor |
| `InsituString.InsituStream.ValidateUnit` | include/rapidjson/encodings.h:179-202 | `Validate` with input and output in one buffer copies the same bytes as with separate ones |
| `InsituString.InsituStream.Pass` | include/rapidjson/reader.h:1004-1067 | one pass in place does what one pass of the copying decoder does, and the unread text is unchanged |
| `InsituString.InsituStream.ParseStringToStream` | include/rapidjson/reader.h:991-1068 | decoding in place gives the string and the error of the copying decoder; the write cursor never passes the read cursor |
| `InsituString.InsituStream.ParseString` | include/rapidjson/reader.h:959-975 | after the call the decoded string and its terminator lie in the buffer from the opening quote on, and everything outside the literal is unchanged |
| `InsituString.Perform` | include/rapidjson/reader.h:959-975 | after any run of taking units and parsing strings in place the strings handed out are those of the copying decoder and every one still lies, with its terminator, at the address it was given |
| `InsituText.ParseIsCalls` | include/rapidjson/reader.h:559-590 | for every text, accepted or not, there is a run of taking units and parsing strings that hands out the strings the handler is given, in their order, and for an accepted text ends where the parse does |
| `InsituText.PerformParse` | include/rapidjson/document.h:2686-2689 | after such a run in the buffer of the text, every string the handler was given lies, with its terminator, at the address it was given |
| `Number.IntegersAreExact` | include/rapidjson/reader.h:1483-1575 | a literal of canonical digits without fraction or exponent gives the event of exactly its value: Int or Uint, Int64 or Uint64, and Double if and only if the magnitude passes 2^64-1, or 2^63 when negative |
| `Number.IntegerEventIsExact` | include/rapidjson/reader.h:1731-1743 | negating in unsigned arithmetic yields the exact negative value |
| `Number.AccumulateIsExact` | include/rapidjson/reader.h:1498-1574 | an accumulation loop stops exactly where the next digit would pass its limit |
| `Number.PositiveExponentFitsIff` | include/rapidjson/reader.h:1666-1673 | a positive exponent and its sum with the fraction's stay in `int`, whatever the digits, if and only if the fraction's exponent is at least -214748055 |
| `Number.NegativeExponentFitsIff` | include/rapidjson/reader.h:1648-1665 | a negative exponent stays in `int`, whatever the digits, if and only if the fraction's exponent is at least -2147483549 |
| `Number.ExponentsFitShortTexts` | include/rapidjson/reader.h:1585-1680 | in texts of up to 214748055 units no exponent leaves `int` |
| `Number.OverflowingLiteral` | include/rapidjson/reader.h:1666-1673 | the failing family: "0." with 214748056 zeros or more and then "e2147483648" |
| `Number.ReadUndoesPrint` | include/rapidjson/reader.h:1468-1748 | parsing the decimal text of any 64-bit integer gives it back in the smallest of the reader's types, and stops after it |
| `NumberMeaning.NumeralIsRead` | include/rapidjson/reader.h:1468-1748 | every numeral of RFC 8259 section 6, whatever follows that does not carry it on, is read whole and reported as what it means: its exact value, or the double it converts to when it has a fraction, an exponent or more than 64 bits; it is refused exactly when its exponent passes the guard or that double is infinite |
| `NumberMeaning.ReadIsNumeral` | include/rapidjson/reader.h:1468-1748 | whatever is read as a number is a numeral of the grammar that is not too big, ending where the reading ends, and reported as what it means |
| `NumberMeaning.NumberIff` | include/rapidjson/reader.h:1468-1748 | a text is read as a number to its end if and only if it is a numeral of the grammar whose exponent does not pass the guard and whose double, if it is reported as one, is finite |
| `NumberMeaning.GuardIsRightIff` | include/rapidjson/reader.h:1666-1673 | the guard on exponents refuses a number of at least 10^309 if and only if some digit of it is not zero |
| `NumberMeaning.ZeroIsRefused` | include/rapidjson/reader.h:1666-1673 | 0e309 is a numeral, and zero, and is refused as too big at its end |
| `NumberRefusal.NumberRefusedIff` | include/rapidjson/reader.h:1490-1750 | a number is refused with an error at a place if and only if a digit is due at that place (after the minus, after the point, in the exponent), none comes and the error is the one for it, or if it starts at that place and is too big |
| `SpaceGrammar.SpacesAreSkipped` | include/rapidjson/reader.h:711-736 | white space and, when the flag allows them, block and line comments are skipped, in any number and order |
| `SpaceGrammar.SkippedAreSpaces` | include/rapidjson/reader.h:711-736 | nothing else is skipped: what is, is white space and comments up to a token, and at the end of the text perhaps a line comment without its line feed |
| `Syntax.JsonIsRead` | include/rapidjson/reader.h:1752-1765 | a value of the JSON grammar, with the extensions of the flags, at any nesting, is accepted up to where it ends and raises the events it means if and only if no number in it is too big and every escaped surrogate is half of a pair |
| `Syntax.ReadIsJson` | include/rapidjson/reader.h:1752-1765 | every value that is accepted is such a value of the grammar |
| `Syntax.JsonTextIsRead` | include/rapidjson/reader.h:559-590 | of the texts of the grammar exactly those with such a number or surrogate are refused |
| `Syntax.AcceptedIff` | include/rapidjson/reader.h:559-590 | a text is accepted, by either parser, if and only if it is a JSON text of RFC 8259, with the extensions of the flags, without a number that is too big or a surrogate that has no partner; the unread rest and the events are those of the grammar, however the text is taken apart |
| `Refusal.PartTextIsRefused` | include/rapidjson/reader.h:559-892 | a text that begins as the grammar allows and goes on with something else is refused with the error for what is due given the innermost open bracket (value, name, colon, comma or bracket, comma or brace, end), at that place and after the events of what has been read |
| `Refusal.RefusedIsPartText` | include/rapidjson/reader.h:559-892 | every text that is refused begins so |
| `Refusal.RefusedIff` | include/rapidjson/reader.h:559-892 | a text is refused with an error code, at an offset and after some events if and only if it begins as the grammar allows up to that offset, what comes there is not what is due, the code is the one for what is due, and the events are those of what has been read; the table-driven parser differs only in the code for a stray root |
| `Beginnings.BeginningGoesOn` | include/rapidjson/reader.h:559-892 | what comes before the offset of an error between tokens, in a word or in a string is the beginning of a text that is accepted |
| `Beginnings.FirstWrongUnit` | include/rapidjson/reader.h:559-892 | where something comes that is not due, no text is accepted that has this unit after what was read, whatever follows: all are refused at this unit with this error, while what was read is the beginning of accepted texts |
| `Iterative.StepSimulates` | include/rapidjson/reader.h:2011-2160 | one turn of the table-driven loop, frames on the stack standing for pending recursive calls, leads where those calls lead |
| `Iterative.RunIsResume` | include/rapidjson/reader.h:2192-2224 | from any reachable machine the rest of the run yields what the pending recursive calls yield |
| `Iterative.IterativeRefinesRecursive` | include/rapidjson/reader.h:1817-2224 | both parsers give the same verdict, unread text, events with counts, error code and error offset, for all flags and texts, but for a stray root |
| `Iterative.SameResultIff` | include/rapidjson/reader.h:2163-2181 | the two results differ exactly when the root is a stray `]`, `}`, `,` or `:` |
| `Reader.GenericReader.SkipWhitespaceAndComments` | include/rapidjson/reader.h:711-736 | the loops over white space and both kinds of comment leave the stream where `SkipSpace` does, or record its error |
| `Reader.GenericReader.ReadDigits32` | include/rapidjson/reader.h:1498-1521 | the 32-bit accumulator never wraps and ends with the value the specification accumulates |
| `Reader.GenericReader.ReadDigits64` | include/rapidjson/reader.h:1552-1575 | the 64-bit accumulator never wraps and ends with the value the specification accumulates |
| `Reader.GenericReader.ReadInteger` | include/rapidjson/reader.h:1483-1582 | sign, zero and digit loops compute the specified integer part |
| `Reader.GenericReader.ReadFraction` | include/rapidjson/reader.h:1584-1630 | the fraction loops compute the specified exponent and digits |
| `Reader.GenericReader.ReadExponent` | include/rapidjson/reader.h:1632-1680 | the exponent loops compute the specified exponent or error |
| `Reader.GenericReader.ReadNumber` | include/rapidjson/reader.h:1468-1748 | the event raised and the position are those of the specification |
| `Reader.GenericReader.ReadObject` | include/rapidjson/reader.h:740-804 | the loop over members raises the grammar's events with their count, or its error |
| `Reader.GenericReader.ReadArray` | include/rapidjson/reader.h:808-853 | the loop over elements raises the grammar's events with their count, or its error |
| `Reader.GenericReader.ReadValue` | include/rapidjson/reader.h:1752-1765 | the recursive descent computes the grammar's outcome |
| `Reader.GenericReader.Parse` | include/rapidjson/reader.h:559-590 | skipping, the root value, and the test for a single root leave the outcome that `ParseText` gives for the whole text |
| `Reader.GenericReader.Move` | include/rapidjson/reader.h:2011-2160 | `Transit`, with return states and counts on the stack, leaves the stream, stack, log and error of the specified move and returns its state |
| `Reader.GenericReader.ParseIteratively` | include/rapidjson/reader.h:2192-2224 | the loop over tokens computes the specified run, and so what the recursive descent computes unless the root is stray |
| `Document.ConstructorsAgree` | include/rapidjson/document.h:792-828 | each integer constructor sets exactly the flags of the integer types that can hold the value |
| `Document.GettersAgree` | include/rapidjson/document.h:1817-1820 | each getter gives the value back whenever its flag is set |
| `Document.IntegerEventIs` | include/rapidjson/document.h:1977-1985 | an integer is walked as the first of int, unsigned, 64-bit int and 64-bit unsigned that can hold it, with its value |
| `Document.TreeBuilds` | include/rapidjson/document.h:2821-2861 | the events of any tree with true counts push exactly the one value it denotes on the handler stack, whatever is below |
| `Document.TreeOfDenotes` | include/rapidjson/document.h:1948-1985 | the events of `Accept` are those of a tree with true counts that denotes the value walked |
| `Document.BuildUndoesAccept` | include/rapidjson/document.h:1948-1985 | feeding the events of walking a value to the handler leaves any stack plus exactly that value |
| `Document.GenericDocument.Receive` | include/rapidjson/document.h:2821-2861 | each handler call changes the stack as the machine says |
| `Document.GenericDocument.EndObject` | include/rapidjson/document.h:2849-2853 | the members popped become the object below them |
| `Document.GenericDocument.EndArray` | include/rapidjson/document.h:2857-2861 | the elements popped become the array below them |
| `Document.GenericDocument.Populate` | include/rapidjson/document.h:2623-2630 | one root is left and it equals the value generated |
| `ParsedDocument.JsonIsTree` | include/rapidjson/reader.h:740-853 | the events an acceptable text means are those of a tree whose counts are the true ones in 32 bits, whose strings are UTF-8 when encodings are validated and whose doubles are finite |
| `ParsedDocument.BuildsOneIff` | include/rapidjson/document.h:2821-2861 | the events of such a tree build exactly one root, the value it denotes, if and only if no container has 2^32 members or elements |
| `ParsedDocument.AcceptedTextBuildsOneRoot` | include/rapidjson/document.h:2643-2653 | every accepted text builds exactly one root from the empty stack, a valid value, if and only if no count of its containers wraps; so every text of fewer than 2^32 units does |
| `ParsedDocument.ParseStream` | include/rapidjson/document.h:2643-2653 | with either parser the assertions hold exactly when one root is built, and then the root becomes that value; on an error the root is kept |
| `Writer.TreeIsWritten` | include/rapidjson/prettywriter.h:95-250 | where a value may be written, the events of any tree write its prefix and its text and no assertion fails |
| `Writer.SequenceIsWritten` | include/rapidjson/prettywriter.h:95-255 | a fresh writer takes the whole sequence of a tree and ends complete with the tree's text |
| `WriterAccepts.CompleteIffWellNested` | include/rapidjson/prettywriter.h:123-255 | the assertions hold and the output is complete if and only if the events are well nested with a single root, names and strings being alike |
| `WriterAccepts.TakeTree` | include/rapidjson/prettywriter.h:123-179 | where a value is due, the events of a run that comes back to this level start with those of a tree |
| `Writer.PrettyWriter.WritePrefix` | include/rapidjson/prettywriter.h:208-250 | comma, colon, new line and indentation, the count and the root flag change as the machine says, for the compact writer too |
| `Writer.PrettyWriter.WriteIndent` | include/rapidjson/prettywriter.h:252-255 | depth times count indentation characters are put |
| `Writer.PrettyWriter.WriteString` | include/rapidjson/writer.h:383-455 | the loop over units writes the quoted, escaped string |
| `Writer.PrettyWriter.PutDouble` | include/rapidjson/writer.h:375-381 | the text of a finite double is put, digits found, laid out in the buffer and copied |
| `Writer.PrettyWriter.Start` | include/rapidjson/prettywriter.h:123-161 | a level is opened after its prefix |
| `Writer.PrettyWriter.End` | include/rapidjson/prettywriter.h:137-179 | a level is closed with its gap and bracket |
| `Writer.PrettyWriter.WriteEvents` | include/rapidjson/prettywriter.h:95-179 | a whole sequence without a failed assertion leaves the writer as the machine says |
| `Layout.WrittenIsLaidOut` | include/rapidjson/prettywriter.h:95-255 | the whole text of a written sequence, scanned from the left outside of strings, is laid out as the format says: line feeds exactly after the opening bracket of a container that is not empty, after its commas and before its closing bracket, each with its indentation, in single-line arrays a space after each comma instead, one space after a colon, and no other space |
| `Layout.TreeIsLaidOut` | include/rapidjson/prettywriter.h:95-255 | so is the text of a tree at any depth, before anything that is |
| `Layout.WrittenLinesAreIndented` | include/rapidjson/prettywriter.h:95-255 | every line feed in the text is followed by exactly as many indentation characters as the format has for each bracket open there, less one before a closing bracket |
| `RoundTrip.TreeIsJson` | include/rapidjson/prettywriter.h:95-255 | in any format the text of a tree is an acceptable text of the JSON grammar that means the tree, and without its white space it is the text of the compact format |
| `RoundTrip.WrittenIsJson` | include/rapidjson/prettywriter.h:95-255 | whatever a well-nested sequence makes the writer write, in any format, is an acceptable JSON text that means the sequence |
| `RoundTrip.TreeIsRead` | include/rapidjson/reader.h:740-853 | the text of a tree, at any depth and with anything after it that may follow a value, is parsed back as the tree's events |
| `RoundTrip.ParseUndoesWrite` | include/rapidjson/prettywriter.h:95-255 | printing any well-nested sequence in any format and parsing the text with any flags raises the same events, integers in the reader's types and counts true, provided its strings are ones the reader takes and its doubles convert back from what is printed |
| `RoundTrip.FormatDoesNotMatter` | include/rapidjson/prettywriter.h:208-255 | the texts of one sequence in two formats parse alike |
| `RoundTrip.FormatsDifferInSpace` | include/rapidjson/prettywriter.h:208-255 | what two formats that print doubles alike write of one sequence are texts of the grammar that are equal, character by character, once the white space between their tokens is left out |
| `RoundTrip.RereadDenotesSame` | include/rapidjson/document.h:2821-2861 | what is read back denotes the same DOM value |
| `RoundTrip.PrintParseBuildIsIdentity` | include/rapidjson/document.h:1948-1985 | printing a DOM value, parsing the text and building from the events gives the value back, number flags and the bits of doubles included, if its doubles convert back from what is printed |
| `RoundTrip.ParsePrintParse` | include/rapidjson/document.h:2643-2653 | any document parsed from any text survives being printed in any format and parsed again: the very same document is built, if the doubles in it convert back from what is printed for them |
| `NumberText.NumberIsLocal` | include/rapidjson/reader.h:1468-1748 | the number reader takes from a stream exactly what it takes when nothing follows, if what follows cannot belong to a number or is not read |
| `NumberText.ReadDoubleIsLiteral` | include/rapidjson/reader.h:1712-1726 | the units taken for a double, given alone to the reader, are taken whole and reported as that double |
| `NumberText.ReadDoubleIsFinite` | include/rapidjson/reader.h:1712-1726 | a double is reported only when it is finite, whatever the conversion answers |
| `DoubleText.PrettifyIsExact` | include/rapidjson/internal/dtoa.h:154-218 | what is written has the form of a double: no exponent from 10^-6 up to 10^21 and as many places as the digits need, one at least; beyond, one digit before the point and an exponent. It denotes the digits at their power of ten, or when digits are cut off that number truncated to so many places, with no zero left at the end |
| `DoubleText.ShapeIsRead` | include/rapidjson/reader.h:1584-1680 | every text of the form of a double, with or without a sign, is read whole, as the double it converts to with that sign, or is too big when that is infinity |
| `DoubleText.PrintedDoubleIsReadIff` | include/rapidjson/internal/dtoa.h:220-240 | what is printed for a finite double is read back whole and as the same bits, sign and zeros included, if and only if its text converts back to its magnitude under that sign |
| `DoubleText.PrintedDoubleIsExact` | include/rapidjson/internal/dtoa.h:154-218 | with the default number of places the text denotes exactly the digits and the power of ten found for the double |
| `DoubleText.PrintedDoubleIsTruncated` | include/rapidjson/internal/dtoa.h:220-240 | with any number of places the text denotes the digits and the power of ten found for the double, truncated to those places where they do not suffice |
| `DoubleText.PrettifyInPlace` | include/rapidjson/internal/dtoa.h:154-218 | moving and overwriting the digits in place gives the specified text, never leaves the buffer of 25 units and keeps the sign in front |
| `DoubleText.DtoaInPlace` | include/rapidjson/internal/dtoa.h:220-240 | sign, digits and layout leave the specified text in a buffer of 25 units |
| `DoubleText.PutExponent` | include/rapidjson/internal/dtoa.h:130-152 | the sign and up to three digits of an exponent are put |
| `DoubleText.TrimEnd` | include/rapidjson/internal/dtoa.h:169-194 | the loops find the end of the text without the zeros to be dropped |
| `StringCodec.ReadStringIsReadable` | include/rapidjson/reader.h:990-1068 | a string the reader returns is UTF-8 whenever encodings are validated |
| `PointerText.ParseUndoesStringify` | include/rapidjson/pointer.h:930-1100 | every list of names comes back from its string form, and every list of UTF-8 names, the only ones that have one, from its URI fragment form (RFC 6901 sections 3 and 6) |
| `PointerText.StringifyNormalises` | include/rapidjson/pointer.h:930-1100 | whatever `Parse` accepts can be written again in the same form and reads back as the same tokens, indices included |
| `PointerText.NameIsUnescaped` | include/rapidjson/pointer.h:998-1012 | outside a URI a token is read as RFC 6901 section 4 says: every ~1 replaced by a solidus, then every ~0 by a tilde; it is refused exactly when a tilde has neither digit after it |
| `PointerText.EncodedAreTriplets` | include/rapidjson/pointer.h:1153-1170 | percent-encoding writes for each byte a percent sign and two hexadecimal digits in capitals with its value (RFC 3986 section 2.1) |
| `PointerText.FragmentIsUnreserved` | include/rapidjson/pointer.h:918-920 | the text of a name in a URI fragment has unreserved characters of RFC 3986 section 2.3 and triplets only |
| `PointerText.PlainNameIsKept` | include/rapidjson/pointer.h:1067-1100 | a name of unreserved characters but the tilde is written as it is, and outside a URI any name without tilde and solidus |
| `PointerText.UriTextIff` | include/rapidjson/pointer.h:1069-1100 | a name has a URI fragment form if and only if it is UTF-8 |
| `PointerText.UriNameIsUtf8` | include/rapidjson/pointer.h:968-995 | what a URI fragment decodes to is UTF-8 |
| `PointerText.ValidatePercentIs` | include/rapidjson/pointer.h:1108-1149 | validating through the percent-decoding stream is validating the bytes of the triplets, and the stream is valid if and only if no unit past them was wanted |
| `PointerText.TripletsOfEncoded` | include/rapidjson/pointer.h:1119-1162 | percent-decoding undoes percent-encoding |
| `PointerText.IndexIs` | include/rapidjson/pointer.h:1028-1045 | the index of a canonical numeral: its value in 32 bits, or the invalid index as soon as a digit makes the wrapped value drop |
| `PointerText.ParsedIndices` | include/rapidjson/pointer.h:1023-1045 | every token `Parse` makes carries the index its name stands for |
| `PointerText.IndexIsExactIff` | include/rapidjson/pointer.h:1032-1045 | the index is exact if and only if the number fits 32 bits, some digit makes the wrapped value drop, or the number wraps to the invalid index |
| `PointerText.MissedOverflow` | include/rapidjson/pointer.h:1035-1042 | the name 9999999999 gets the index 1410065407 |
| `PointerParser.ConvertIndex` | include/rapidjson/pointer.h:1023-1045 | the checks and the loop compute the specified index |
| `PointerParser.GenericPointer.TakeUnit` | include/rapidjson/pointer.h:968-997 | a percent-encoded sequence is validated straight into the name buffer, which it fits even when it is rejected |
| `PointerParser.GenericPointer.ReadName` | include/rapidjson/pointer.h:965-1022 | the loop over units leaves the decoded name in the buffer and what was in front of it unchanged |
| `PointerParser.GenericPointer.Parse` | include/rapidjson/pointer.h:930-1060 | the tokens read off the buffers are those of the specification, error code and offset too; the name buffer of the source's length is never overrun and the tokens fill theirs |
| `PointerParser.PutName` | include/rapidjson/pointer.h:1077-1097 | the loop over units writes the specified text or fails where it does not exist |
| `PointerParser.Stringify` | include/rapidjson/pointer.h:1069-1100 | the nested loops write the specified text |
| `PointerParser.CountTokens` | include/rapidjson/pointer.h:939-943 | counts the solidi of the source |
| `PointerDom.GetFollows` | include/rapidjson/pointer.h:601-629 | Get goes into the element at a token's index if the array has so many, into the first member of the token's name if the object has one, and finds nothing otherwise |
| `PointerDom.GetAfterSetIff` | include/rapidjson/pointer.h:732-739 | Get after Set returns the value set, exactly when no token appends to an array |
| `PointerDom.ParsedAreTokens` | include/rapidjson/pointer.h:930-1060 | what `Parse` makes of any text are tokens the operations' laws are about |
| `PointerDom.GetAfterSetOfText` | include/rapidjson/pointer.h:732-739 | so for the pointer of any text: Get after Set returns the value set, or nothing exactly when a token appended, and never when there is no `-` token |
| `PointerDom.AppendedIsNotFound` | include/rapidjson/pointer.h:463-467 | the failing family: setting at `-` on any array appends, and getting there finds nothing |
| `PointerDom.CreateTwiceIff` | include/rapidjson/pointer.h:458-505 | a second Create finds the value of the first and changes nothing, exactly when no token appends |
| `PointerDom.CreateMakes` | include/rapidjson/pointer.h:463-498 | what Create makes of any value for a token: a scalar becomes an array when the token has an index and an object when not, a member is appended under a new name, a `-` appends one element, and an array too short for the index is filled with nulls up to it |
| `PointerDom.SetInScalar` | include/rapidjson/pointer.h:473-476 | setting one token in a value that is neither array nor object leaves an array of nulls with the value at the index, or an object of one member |
| `PointerDom.ExistIffResolved` | include/rapidjson/pointer.h:458-505 | `alreadyExist` is reported if and only if the pointer resolves, and then nothing is changed |
| `PointerDom.OnlyDashAppends` | include/rapidjson/pointer.h:463-467 | a pointer without a `-` token never appends |
| `PointerDom.CreateKeeps` | include/rapidjson/pointer.h:458-505 | Create changes nothing but the containers on the way to the value |
| `PointerDom.CreateKeepsPointers` | include/rapidjson/pointer.h:458-505 | every pointer that resolved still resolves to the same place when no array with elements was replaced |
| `PointerDom.CreateKeepsAllIff` | include/rapidjson/pointer.h:468-476 | for a parsed pointer, all others are kept if and only if Create replaces no array with elements by an object |
| `PointerDom.ElementIsLost` | include/rapidjson/pointer.h:468-476 | the failing family: creating a member named a in an array of one element loses the element |
| `PointerDom.SetKeepsOthers` | include/rapidjson/pointer.h:732-739 | a pointer to a place neither above nor below the one set gives the value it gave before |
| `PointerDom.EraseIffResolved` | include/rapidjson/pointer.h:833-871 | Erase succeeds if and only if the pointer resolves to a value other than the root |
| `PointerDom.EraseRemovesOne` | include/rapidjson/pointer.h:833-871 | Erase removes exactly that child: its container has one child fewer, later siblings move down by one, everything else is where it was |
| `PointerDom.EraseKeepsNames` | include/rapidjson/pointer.h:858-866 | the container of the erased value is of the same kind and has the names it had, in order, without the one erased |
| `PointerDom.EraseKeepsOthers` | include/rapidjson/pointer.h:833-871 | a pointer that resolved to a place neither above nor below the erased one gives the value it gave before, unless the erased one was an element and this one lies in a later element of the same array |
| `PointerDom.Enter` | include/rapidjson/pointer.h:463-498 | one pass round the loop of Create, filling an array up to the index |
| `PointerDom.Target.Resolve` | include/rapidjson/pointer.h:601-629 | the loop of Get finds the address the tokens lead to, or none where the source returns null |
| `PointerDom.Target.CreateAt` | include/rapidjson/pointer.h:458-505 | the loop of Create, on a tree changed through a reference into it, leaves the specified tree and reference |
| `PointerDom.Target.SetAt` | include/rapidjson/pointer.h:732-739 | Set leaves the specified tree |
| `PointerDom.Target.EraseAt` | include/rapidjson/pointer.h:833-871 | Erase leaves the specified tree, or the tree as it was |
| `MemoryPool.MallocIsSoundIff` | include/rapidjson/allocators.h:321-334 | Malloc hands out a block inside a chunk, 8-aligned and apart from every live one, if and only if none of its 64-bit sums wraps |
| `MemoryPool.MallocMayWrap` | include/rapidjson/allocators.h:321-334 | in any pool a request of 2^64 - 1 bytes is answered with an address and changes no chunk |
| `MemoryPool.ReallocIsSoundIff` | include/rapidjson/allocators.h:337-369 | Realloc (shrink, grow in place or move) leaves the live blocks sound, the first bytes in place and every other block's bytes unchanged, if and only if none of its sums wraps |
| `MemoryPool.LastIsInHead` | include/rapidjson/allocators.h:352-359 | the address test for the last allocation never takes a block of another chunk for one of the head |
| `MemoryPool.GrowInPlace` | include/rapidjson/allocators.h:352-359 | growing the last block in place touches no other |
| `MemoryPool.ReallocPath` | include/rapidjson/allocators.h:337-369 | when nothing wraps a block that need not grow stays, the last block grows in place when the head chunk has room, and any other moves |
| `MemoryPool.ChunkIsAddedIff` | include/rapidjson/allocators.h:321-334 | a chunk is added exactly when the head chunk has no room, and then the block starts it; else the block starts where the last one ends |
| `MemoryPool.MallocCounts` | include/rapidjson/allocators.h:293-310 | a block adds its aligned size to the bytes in use, a new chunk the larger of that size and the chunk capacity to the capacity, and a refusal adds nothing |
| `MemoryPool.ClearStartsAfresh` | include/rapidjson/allocators.h:277-288 | a cleared pool has nothing in use and the capacity of the chunk it had first, and places the next block at the start of that chunk |
| `MemoryPool.CopyKeeps` | include/rapidjson/allocators.h:361-366 | the copy of a moved block reads as the original and writes into no other live block |
| `MemoryPool.RunKeeps` | include/rapidjson/allocators.h:277-402 | in every run of Malloc, Realloc and Clear live blocks stay 8-aligned, inside chunks with size at most capacity, and pairwise disjoint |
| `MemoryPool.RunKeepsBytes` | include/rapidjson/allocators.h:277-402 | a block that is live from one call of a run to another, and is neither written nor reallocated in between, stays where it is and keeps its bytes |
| `MemoryPool.MemoryPoolAllocator.Malloc` | include/rapidjson/allocators.h:321-334 | leaves the chunk list and returns the address that `MallocIn` gives, wrapping sums included |
| `MemoryPool.MemoryPoolAllocator.Realloc` | include/rapidjson/allocators.h:337-369 | leaves the chunk list and the memory and returns the address that `ReallocIn` gives, on all four paths |
| `MemoryPool.MemoryPoolAllocator.AddChunk` | include/rapidjson/allocators.h:390-402 | the new chunk becomes the head, or nothing changes |
| `MemoryPool.MemoryPoolAllocator.Clear` | include/rapidjson/allocators.h:277-288 | every chunk but the first is given back and the first is empty |
| `MemoryPool.MemoryPoolAllocator.Capacity` | include/rapidjson/allocators.h:293-299 | the loop sums the capacities |
| `MemoryPool.MemoryPoolAllocator.SizeInUse` | include/rapidjson/allocators.h:304-310 | the loop sums the sizes |
| `PoolSharing.StepKeeps` | include/rapidjson/allocators.h:201-274 | construction, copy, move, assignment and destruction keep each count equal to the number of handles |
| `PoolSharing.LiveIffHeld` | include/rapidjson/allocators.h:201-274 | in every run shared data is live if and only if some handle is on it |
| `PoolSharing.HandleIsOnOrigin` | include/rapidjson/allocators.h:201-274 | in every run each handle is on what the last action that touched it put it on: a copy or a move on what its source was on, a source that was moved from on nothing |
| `MembersMap.EntriesAreMembers` | include/rapidjson/document.h:2304-2318 | the multimap holds exactly the pairs of member name and position, each once |
| `MembersMap.IndexedFindIsLinear` | include/rapidjson/document.h:2228-2238 | the indexed search finds a member of that name if and only if the linear one does, and the same one when the name is not repeated |
| `MembersMap.RunKeeps` | include/rapidjson/document.h:2191-2399 | after any run of add, remove, erase, clear and copy the index is exactly that of the members |
| `MembersMap.RemoveTakesOne` | include/rapidjson/document.h:2320-2342 | removal by swapping takes one member away and keeps the multiset of the others |
| `MembersMap.RemoveKeepsPositions` | include/rapidjson/document.h:2320-2342 | after a removal the last member is where the removed one was and every other where it was |
| `MembersMap.EraseKeepsOrder` | include/rapidjson/document.h:2344-2376 | after an erasure the members before the range are where they were and those behind it have moved up, in order |
| `MembersMap.CopyHasSame` | include/rapidjson/document.h:2378-2399 | a copy has the same members in the same order |
| `MembersMap.EntryCount` | include/rapidjson/document.h:2191-2211 | there are as many entries as members, the count by which a reallocation copies them |
| `MembersMap.ObjectData.Reserve` | include/rapidjson/document.h:2191-2226 | members, iterators and index survive a reallocation |
| `MembersMap.ObjectData.Add` | include/rapidjson/document.h:2304-2318 | members, slots and entries are those with the member, its iterator and its entry appended, after growing when full; the index stays right |
| `MembersMap.ObjectData.Remove` | include/rapidjson/document.h:2320-2342 | the last member and its iterator take the place of the one removed and its entry gets the new position; the index stays right |
| `MembersMap.ObjectData.Erase` | include/rapidjson/document.h:2344-2376 | the loop that erases entries and the loop that moves the rest down leave the members without the range, in order, and the index right |
| `MembersMap.ObjectData.MoveDown` | include/rapidjson/document.h:2359-2369 | members, iterators and entries move down together |
| `MembersMap.ObjectData.Clear` | include/rapidjson/document.h:2240-2250 | members and index are empty |
| `MembersMap.ObjectData.CopyMembers` | include/rapidjson/document.h:2378-2399 | the members are those of the other object, with an index of their own |
| `MembersMap.ObjectData.Find` | include/rapidjson/document.h:2228-2238 | finds a member of that name exactly when there is one |
| `Values.FindMember` | include/rapidjson/document.h:2281-2288 | the linear search finds a member of that name, or none has it |
| `RingBuf.AllocKeeps` | include/hv/hbuf.h:210-233 | a block handed out comes after all live ones; a refusal changes nothing |
| `RingBuf.RefusedIff` | include/hv/hbuf.h:210-233 | a block is refused if and only if it fits neither behind the live blocks nor below them |
| `RingBuf.EmptyRefusesIff` | include/hv/hbuf.h:204-244 | an empty ring refuses exactly the blocks longer than both its stretches, so it takes every block up to its capacity if and only if its head is at 0 |
| `RingBuf.EmptyMayRefuse` | include/hv/hbuf.h:204-244 | a ring of 10 that has handed out and freed 6 is empty and refuses 7 |
| `RingBuf.FreeKeeps` | include/hv/hbuf.h:235-244 | freeing the oldest block: the head skips the unused end of the buffer exactly when that block starts at 0 |
| `RingBuf.LiveAreDisjoint` | include/hv/hbuf.h:204-254 | live blocks lie in the buffer, do not overlap, and `size` is the sum of their lengths |
| `RingBuf.BlocksStayDisjoint` | include/hv/hbuf.h:204-254 | so it is in every run of allocations and frees in order, from an empty ring of any capacity |
| `RingBuf.HRingBuf.AllocBlock` | include/hv/hbuf.h:210-233 | the fields and the returned position are those of `Alloc`, which the invariants are about |
| `RingBuf.HRingBuf.FreeBlock` | include/hv/hbuf.h:235-244 | the fields are those of `Free`, which the invariants are about |
| `VlBuf.HVLBuf.Resize` | include/hv/hbuf.h:91-102 | the bytes are where they were in a larger buffer |
| `VlBuf.DoublingFitsIff` | include/hv/hbuf.h:128-157 | when bytes do not fit, the capacity doubled in `size_t` is the one meant and makes them fit if and only if buffer and bytes are shorter than 2^63 |
| `VlBuf.HVLBuf.PushFront` | include/hv/hbuf.h:128-143 | the visible bytes get the new ones in front, by growing or sliding to the end where needed |
| `VlBuf.HVLBuf.PushBack` | include/hv/hbuf.h:145-157 | the visible bytes get the new ones behind, by growing or sliding to the start where needed |
| `VlBuf.HVLBuf.PopFront` | include/hv/hbuf.h:159-168 | bytes leave at the front, or nothing happens when there are too few |
| `VlBuf.HVLBuf.PopBack` | include/hv/hbuf.h:170-177 | bytes leave at the back, or nothing happens when there are too few |
| `VlBuf.HVLBuf.Perform` | include/hv/hbuf.h:118-202 | every interleaving of the operations leaves and hands out what the byte deque does |
| `VlBuf.QueueKeepsOrder` | include/hv/hbuf.h:145-168 | bytes leave at the front in order, in whatever pieces they are taken |
| `ThreadPool.CountersKept` | include/hv/hthreadpool.h:83-219 | `cur - idle` is the number of workers with a task, give or take updates half done, after every step, workers not yet counted and the two stores of `stop` included |
| `ThreadPool.EachOnceKept` | include/hv/hthreadpool.h:171-178 | a started task is run by one worker or finished, never twice |
| `ThreadPool.TasksAreConserved` | include/hv/hthreadpool.h:128-178 | every committed task is queued, running or finished, exactly once |
| `ThreadPool.RetirementKeepsMin` | include/hv/hthreadpool.h:164-203 | no retirement takes the number of threads below the minimum |
| `ThreadMinimum.StartedHasMin` | include/hv/hthreadpool.h:70-106 | in every run in which no `pause` or `resume` overlaps `stop`, whenever the pool is not stopped and nobody is inside `start` or `commit` it has at least its minimum of threads, and once `stop` has returned it has none |
| `ThreadMinimum.StartAlone` | include/hv/hthreadpool.h:70-81 | a `start` that nobody overlaps leaves as many workers as asked for, brought between minimum and maximum, and counts them |
| `ThreadMinimum.PauseMayRevive` | include/hv/hthreadpool.h:83-106 | a run in which `pause` overlaps `stop` and leaves the pool paused, below its minimum and without a thread |
| `ThreadCommit.CommitAlone` | include/hv/hthreadpool.h:128-150 | a `commit` that nobody overlaps queues its task behind the others and creates a thread exactly when no more threads are idle than tasks were queued and the maximum is not reached |
| `ThreadPool.RunKeepsMax` | include/hv/hthreadpool.h:128-150 | while at most n callers overlap there are fewer threads than the maximum and n together; so with one at a time never more than the maximum |
| `ThreadPool.TwoCallersPassMax` | include/hv/hthreadpool.h:128-150 | two commits at once bring a pool of at most one thread to two |
| `ThreadPool.EveryRun` | include/hv/hthreadpool.h:70-219 | in every interleaving from a new pool, callers that saw the same status included, the counters agree, the queue holds the tasks not yet started in the order of their commits, each task is started once, and no retirement goes below the minimum; and callers that overlap pass the maximum by fewer threads than they are |
| `ThreadPool.WaitIsRightIff` | include/hv/hthreadpool.h:110-118 | in every run, when `wait`, reading queue and counters one after the other in either order of the counters, returns: no worker was busy at its read of the idle threads if and only if the threads half counted in then and those counted in between the reads are as many as those half counted out, by retiring or by `stop` between its two stores, and those counted out between the reads (the two between swapped when the idle threads are read last); and then every task committed before it read the queue is finished |
| `ThreadPool.WaitMayReturnEarly` | include/hv/hthreadpool.h:110-118 | three reachable returns of `wait` while a task committed before runs: a worker half counted out at both reads, a worker counted out between the reads, and a thread counted in between the reads when the idle ones are read last |
| `ObjectPool.EveryRun` | include/hv/hobjectpool.h:50-126 | in every interleaving the object count is idle plus borrowed plus being created and is at most the larger of the maximum and the initial number; no object is idle twice or idle and borrowed |
| `ObjectPool.LongestIdleIsTaken` | include/hv/hobjectpool.h:50-99 | in every run in which none is removed the objects are taken in the order in which they became idle |
| `ObjectPool.CreatesIff` | include/hv/hobjectpool.h:60-75 | a borrower who finds nothing idle creates an object exactly when fewer are borrowed or being created than the maximum |
| `ObjectPool.HObjectPool.TryBorrow` | include/hv/hobjectpool.h:50-58 | the longest idle object is taken off the list, or there is none and nothing changes |
| `ObjectPool.HObjectPool.BorrowBegin` | include/hv/hobjectpool.h:66-70 | below the maximum the object is counted before it is created, at the maximum nothing changes |
| `ObjectPool.HObjectPool.BorrowEnd` | include/hv/hobjectpool.h:71-75 | when the factory fails the count is taken back |
| `ObjectPool.HObjectPool.Return` | include/hv/hobjectpool.h:94-99 | the object becomes the last of the idle ones; no object, no change |
| `ObjectPool.HObjectPool.AddObject` | include/hv/hobjectpool.h:101-110 | below the maximum the object becomes the last idle one and is counted, at the maximum it is refused |
| `ObjectPool.HObjectPool.RemoveObject` | include/hv/hobjectpool.h:112-126 | the scanning loop removes the object where it first occurs and uncounts it, or nothing changes |
| `Varint.EncodeValue` | include/hv/hmath.h:28-39 | the do-while loop ends for every non-negative value and writes the bytes of `Encode`, whose round trips are proved |
| `Varint.DecodeValue` | include/hv/hmath.h:41-66 | the do-while loop returns the value and size, or the error, of `Decode`: complete, too short for the length given, or unterminated after ten bytes; without a length it reads on to the end of the value |
| `Varint.AtMostNine` | include/hv/hmath.h:28-39 | a value below 2^63 takes at most nine bytes |
| `Varint.RoundTrip` | include/hv/hmath.h:28-66 | decoding undoes encoding for every value below 2^63, whatever follows, and reports the bytes taken |
| `Varint.PartIsNotEnough` | include/hv/hmath.h:46-51 | every non-empty proper prefix of an encoding is reported as not enough |
| `Varint.StreamRoundTrip` | include/hv/hmath.h:28-66 | repeated decoding of concatenated encodings gives the values back and takes exactly the bytes written |
| `Varint.IsEncodingIff` | include/hv/hmath.h:41-66 | up to ten terminated bytes, all that `varint_decode` can accept, are the encoding of what they decode to if and only if they are at most nine and are one byte or do not end in 0 |
| `Varint.PaddedZeroIsRead` | include/hv/hmath.h:41-66 | the bytes 0x80 0x00 decode to 0, whose encoding is one byte |
| `Varint.LostBitIsRead` | include/hv/hmath.h:41-66 | nine bytes of 0x80 and then 0x02 decode to 0: the bit that does not fit 64 is lost |
| `Varint.Floor2e` | include/hv/hmath.h:6-13 | the largest power of two not above the number, and 1 for 0 |
| `Varint.Ceil2e` | include/hv/hmath.h:15-24 | the smallest power of two not below the number if and only if the number is at most 2^63; else 0 |
| `Reconnect.PromiseKept` | include/hv/hloop.h:646-660 | with settings that cannot wrap, the n-th delay is the documented one, never falls and never passes the maximum |
| `Reconnect.PromiseIff` | include/hv/hloop.h:646-660 | the delays up to any n are the documented ones if and only if no step wraps to less than the maximum |
| `Reconnect.LinearPromiseIff` | include/hv/hloop.h:646-660 | under the linear policy all delays are the documented ones if and only if minimum and maximum add up to less than 2^32, or are equal, or the minimum is 0 |
| `Reconnect.ExponentialPromiseIff` | include/hv/hloop.h:646-660 | under the exponential policy all delays are the documented ones if and only if neither the maximum nor the last power below it, multiplied once more, wraps to less than the maximum, or minimum and maximum are equal, or the minimum is 0 |
| `Reconnect.PromiseCanFail` | include/hv/hloop.h:653-658 | doubling 2^31 gives 0, so the delay stays at the minimum |
| `Reconnect.RetriesBeforeRefusal` | include/hv/hloop.h:640-644 | with a finite limit m, of any 2^32 - 1 calls from a reset the first m - 1 allow a retry and the others refuse; call number 2^32 allows one, and then the answers repeat |
| `Reconnect.ReconnSetting.CalcDelay` | include/hv/hloop.h:646-660 | the field and the result are the next delay by the three policies, in 32 bits, at least the minimum and then at most the maximum |
| `Reconnect.ReconnSetting.CanRetry` | include/hv/hloop.h:640-644 | the counter goes up by one in 32 bits and is compared with the limit |
| `Reconnect.ReconnSetting.Session` | include/hv/TcpClient.h:168-177 | from a reset, the timeouts set are the successive delays, as many as the limit allows, for any number of attempts |

## Left out

- RoundTrip.ParsePrintParse: that the conversion of internal/strtod.h undoes the digits found by internal/dtoa.h is a hypothesis on the doubles of the document, `RoundTrips`; both algorithms are parameters.
- RoundTrip.ParseUndoesWrite: the same, for the doubles of the sequence.
- DoubleText.PrintedDoubleIsExact: the digits and the power of ten are such as `Grisu2` finds for a finite double (at most 17 digits, the last at 10^-324 or above); `Grisu2` itself is not modelled.
- Writer.PrettyWriter.PutDouble: `WriteDouble` answers false for NaN and infinity unless a flag allows them; the model's writer is only given finite doubles.
- PointerParser.GenericPointer.Parse: lengths and counts are unbounded; the source keeps them in 32 bits.
- PointerDom.GetAfterSetIff: tokens are as `Parse` makes them where it matters: a `-` token has no index.
- VlBuf.HVLBuf.PushFront: buffer lengths are unbounded; from 2^63 bytes on, where doubling wraps `size_t`, `VlBuf.DoublingFitsIff` says what is asked for.
- VlBuf.HVLBuf.PushBack: the same.
- Beginnings.BeginningGoesOn: for errors between tokens, in a word or in a string; a number that is cut may have no continuation that is not too big, whatever `Flags.strtod` is, and of a comment that is cut no continuation is given.
- Layout.WrittenLinesAreIndented: for an indentation character other than the line feed, which `SetIndent` also allows; `Layout.WrittenIsLaidOut` has no such condition.
- ObjectPool.LongestIdleIsTaken: for runs without `Remove`, which takes an object out of the line.
- RingBuf.AllocKeeps: for blocks of positive length; an allocation of nothing returns a position that may coincide with another block's.
- Varint.EncodeValue: non-negative values; on negative ones the source's loop does not end.
- InsituText.ParseIsCalls: what a parser takes of a token it refuses, other than of a string, is left out; nothing is written for it.
- ThreadPool.EveryRun: `stop` is called by one thread and does not overlap with `start` or `commit`; the list of thread records and the idle timeout's duration are not modelled, a timeout may happen at any time.
- ObjectPool.EveryRun: objects are returned by their borrower only; waiting with a timeout is an attempt to take at any later time, and `Clear` with objects out is not modelled.
- MemoryPool.RunKeeps: runs in which no sum wraps and the base allocator answers with memory that is free; what happens otherwise is in the two if-and-only-if lemmas.
- PoolSharing.LiveIffHeld: handles and counts are values in a map, not objects sharing memory.
- PointerDom.Target.CreateAt: the DOM is a value changed through addresses; two references into one tree at once are not modelled.
- MembersMap.ObjectData.Find: which of several entries of equal key `std::multimap::find` returns is left open, as the standard does; key storage and short strings are not modelled.
- `StrtodNormalPrecision`, `StrtodFullPrecision` and the fast paths of internal/strtod.h, which compute a double from its text.
- The flags that read NaN and infinity and numbers as strings, and the writer's `RawNumber` and `RawValue`: the branches they add are not modelled.
- SIMD and word-wise scanners: machine-level forms of the plain loops that are modelled.
- A handler that stops the parse, and `IterativeParseNext`: the handler always returns true.
- File, wrapper and auto-detecting streams, encodings other than UTF-8 and UTF-16, and escaping to ASCII.
- The stack shared by string decoding and the iterative parser, and the digit tables of internal/itoa.h: a decoded string is a value, an integer's text its decimal digits.
- Reading past the terminator of a malformed buffer: a stream past its end keeps showing the terminator.
- Pointer comparison, `Append`, `GetUri` and copying of pointers: thin forwarding.
- `HVLBuf` over memory of the caller, and reading and writing through raw addresses handed out by `HRingBuf`.
- Sockets, SSL, HTTP, WebSocket, logging, INI, FastCGI and the event loop: declarations or plumbing without logic to state.
