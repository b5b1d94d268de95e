# A model of the proxy and of the RapidJSON it vendors

The repository is a proxy for signed transactions.  A worker thread takes JSON requests, checks them, passes them on
through an HTTP client, tries again what fails, and counts what happened.  Every request goes through the vendored
RapidJSON.  This project models both as Dafny programs and proves what they compute.

The model follows the program: a method for each operation that changes state, with the loops and branches of the
original, proved against a function that says what is computed; lemmas prove what the program promises about that
function.

| modules | what they model |
|---|---|
| `RegexLanguage`, `RegexSyntax`, `RegexGrammar`, `RegexNfa`, `RegexFragments`, `RegexCompiler`, `RegexSearch`, `RegexEngine`, `RegexSource` | the regular expression engine: patterns and the languages they denote, the shunting-yard parser, the Thompson construction on linked states, the simulation on sets of states, and the streams it reads |
| `Utf8`, `Streams` | the UTF-8 codec against the grammar of RFC 3629 |
| `JsonLexer`, `JsonParser`, `JsonAutomaton`, `JsonNesting`, `JsonReader` | the reader: the recursive parser, the table-driven one, and that they agree |
| `JsonSpelling`, `JsonSpelled`, `JsonRoundTrip`, `JsonExactness` | the texts of values in every spelling and layout, and that exactly these are accepted |
| `Itoa`, `JsonTree`, `JsonWriter`, `JsonDocument`, `JsonFidelity` | the writer, the document builder, and that printing and parsing are inverses |
| `Limbs`, `BigInteger`, `Strtod`, `DigitGen` | exact arithmetic on 64-bit limbs, the half-ULP test and rounding, digit generation |
| `PointerText`, `PointerParser`, `PointerWriter`, `PointerEval` | JSON Pointer (RFC 6901): its two text forms, and evaluation on a tree |
| `PoolAllocator` | the memory pool |
| `Proxy`, `CounterMerge` | the worker's callbacks and timers, and the merging of counters between threads |

`Ascii`, `Texts` and `Wrappers` hold character codes, decimal numerals and the option type.

Where the code does not do what its documentation suggests, the model follows the code, a lemma gives an input that
shows it, and another says exactly when the code is right:

* `Search` with an expression that matches the empty word misses occurrences of the empty word in texts that are not
  empty, unless both anchors are set (`RegexSearch.SearchExactness`, `RegexSearch.NullableSearchMisses`).
* `BigInteger::Difference` loses a borrow that comes into a subtrahend limb of 2^64-1
  (`BigInteger.DifferenceExactness`, `BigInteger.DifferenceIsNotExact`).
* The writer reserves room for a string in 32-bit arithmetic, which wraps around from 715827883 bytes on
  (`JsonWriter.RoomSuffices`, `JsonWriter.RoomWrapsAround`).
* `StrtodBigInteger` takes zero for 2^-1023, because `IsNormal` counts zero among the normal numbers; so next to zero it
  always gives the least double, also where zero is nearer (`Strtod.FarFromZero`, `Strtod.LeastDoubleIsTooLarge`).
* The memory pool's 64-bit sums wrap around for sizes near 2^64 (`PoolAllocator.AllocatedIsSound`,
  `PoolAllocator.ReallocatedIsSound`, `PoolAllocator.SumWrapsAround`).
* After `Create`, `Get` does not reach what was created where a name `-` met an array
  (`PointerEval.CreatedIsReached`, `PointerEval.PastLastIsNotReached`); and `Create` replaces an array by an object to
  hold a name that is no index (`PointerEval.CreateKeepsPlaces`, `PointerEval.ArrayBecomesObject`).
* Digit generation gives up rounding from the ninth digit behind the point on, and takes the greatest number in the
  interval (`DigitGen.DigitGen`, `DigitGen.NinthDigitIsNotRounded`).
* A numeral of 2^32 and more can have an index, since the test for wrap-around does not see every one
  (`PointerText.IndexOfDecimal`, `PointerText.WrapIsNotSeen`).
* For a document that begins with one of `]`, `}`, `,` and `:`, the table-driven parser reports an empty document and
  the recursive one an invalid value (`JsonAutomaton.IterativeRefinesRecursive`, `JsonAutomaton.LoneBracket`).

## Model

| member | source | states |
|---|---|---|
| `RegexGrammar.ParserReadsGrammar` | libs/contrib/rapidjson/internal/regex.h:194-320 | every pattern printed from the grammar of patterns (characters, escapes, `.`, brackets, groups, juxtaposition, `|`, `?`, `*`, `+`, `{n}`, `{n,}`, `{n,m}`, with or without anchors) is read by the shunting-yard machine as the regular expression it denotes |
| `RegexLanguage.ExpansionMeansRepetition` | libs/contrib/rapidjson/internal/regex.h:414-451 | the copies, options and loops that stand in for `e{n,m}` match exactly the words made of between `n` and `m` words of `e`; the result is nullable, and guarded, exactly when the repetition is |
| `RegexNfa.StarBehaves` | libs/contrib/rapidjson/internal/regex.h:388-396 | the split state that closes a loop recognizes any number of words of the operand |
| `RegexNfa.PlusBehaves` | libs/contrib/rapidjson/internal/regex.h:398-406 | the same loop entered at the operand recognizes one word or more |
| `RegexNfa.NullableLoopDiverges` | libs/contrib/rapidjson/internal/regex.h:692-705 | following the split states of a loop whose operand matches the empty word never ends: the condition under which search is specified cannot be dropped |
| `RegexFragments.ListAppend` | libs/contrib/rapidjson/internal/regex.h:342-348 | linking the end of one list of exits to another concatenates the lists, which live in the states themselves |
| `RegexFragments.LoopImplements` | libs/contrib/rapidjson/internal/regex.h:388-406 | patching all exits of a fragment to a new split state makes the fragment of `*` and, entered elsewhere, of `+` |
| `RegexFragments.CloneFrag` | libs/contrib/rapidjson/internal/regex.h:455-468 | a block of states copied and moved up by its own length recognizes what the block recognizes |
| `RegexFragments.FinishedNfa` | libs/contrib/rapidjson/internal/regex.h:300-308 | with its exits led to a fresh matching state, the last fragment is an automaton for its expression, and every link is to a state |
| `RegexCompiler.GenericRegex.Append` | libs/contrib/rapidjson/internal/regex.h:342-348 | walks the first list to its end and links the second there; no other state changes |
| `RegexCompiler.GenericRegex.Patch` | libs/contrib/rapidjson/internal/regex.h:350-355 | every state on the list gets the new exit, and no other state changes |
| `RegexCompiler.GenericRegex.Eval` | libs/contrib/rapidjson/internal/regex.h:357-412 | what an operator does to the operand stack is what it does to the expressions the operands stand for; it fails exactly when operands are missing |
| `RegexCompiler.GenericRegex.CloneTopOperand` | libs/contrib/rapidjson/internal/regex.h:455-468 | one more operand with the meaning of the top one, all operands still sound |
| `RegexCompiler.GenericRegex.EvalQuantifier` | libs/contrib/rapidjson/internal/regex.h:414-451 | the top operand is replaced by one for its repetition between the bounds; `{0,0}` is refused |
| `RegexCompiler.GenericRegex.ParseUnsigned` | libs/contrib/rapidjson/internal/regex.h:471-482 | the number and the position after it, with 32-bit wrap-around and the overflow test as written |
| `RegexGrammar.EveryCharacterIsWritten` | libs/contrib/rapidjson/internal/regex.h:563-589 | every character can be written in a pattern, those with a meaning of their own by their escapes and all others as they are, and the pattern is read as that character |
| `RegexGrammar.LetterEscapes` | libs/contrib/rapidjson/internal/regex.h:563-589 | the patterns `\t`, `\n`, `\v`, `\f` and `\r` are read as the characters 9, 10, 11, 12 and 13 |
| `RegexGrammar.LetterEscapesInBrackets` | libs/contrib/rapidjson/internal/regex.h:485-553 | the same between brackets, and `\b` as 8 |
| `RegexGrammar.RangesByTheirEnds` | libs/contrib/rapidjson/internal/regex.h:485-553 | `[a-b]` and `[^a-b]`, for any ends that need no escape, are read as the range and its negation |
| `RegexGrammar.OperatorsByTheirSigns` | libs/contrib/rapidjson/internal/regex.h:194-320 | each operator, written with its sign, is read as what it stands for: juxtaposition, alternation, a group, any character, and the three quantifiers `?`, `*` and `+` |
| `RegexGrammar.BoundsByTheirNumerals` | libs/contrib/rapidjson/internal/regex.h:414-482 | `a{n}`, `a{n,}` and `a{n,m}` are read with the numbers the decimal numerals denote |
| `RegexGrammar.AnchorsByTheirSigns` | libs/contrib/rapidjson/internal/regex.h:194-230 | `^a` is anchored at the beginning, `a$` at the end |
| `RegexCompiler.GenericRegex.ParseRange` | libs/contrib/rapidjson/internal/regex.h:485-553 | a chain of ranges that means the class written between the brackets, negation included; older ranges are untouched |
| `RegexCompiler.GenericRegex.Parse` | libs/contrib/rapidjson/internal/regex.h:194-320 | a pattern compiles exactly when the grammar machine accepts it, and then to an automaton for the expression that machine computes, with its anchors |
| `RegexSearch.GenericRegexSearch.AddState` | libs/contrib/rapidjson/internal/regex.h:692-705 | adds exactly the states reached through split states, never overfills the `stateCount_` places, and tells whether the matching state is among them |
| `RegexSearch.GenericRegexSearch.ListFits` | libs/contrib/rapidjson/internal/regex.h:654-705 | a list of states has no more entries than the automaton has states |
| `RegexSearch.GenericRegexSearch.MatchRange` | libs/contrib/rapidjson/internal/regex.h:707-716 | membership of a code point in the class a chain of ranges means |
| `RegexSearch.GenericRegexSearch.SearchWithAnchoring` | libs/contrib/rapidjson/internal/regex.h:654-685 | ends, and returns true exactly for the texts `Found` describes, for every guarded expression and all four anchorings |
| `RegexSearch.GenericRegexSearch.Match` | libs/contrib/rapidjson/internal/regex.h:630-632 | ends, and returns true exactly for the words of the language |
| `RegexSearch.FoundAnchored` | libs/contrib/rapidjson/internal/regex.h:630-632 | with both anchors, what is found is exactly the language |
| `RegexSearch.SearchExactness` | libs/contrib/rapidjson/internal/regex.h:640-685 | for an expression and its anchors, search finds exactly the texts with an occurrence, whatever the text, if and only if both anchors are set, the expression does not match the empty word, or it matches every single character |
| `RegexSearch.NullableSearchMisses` | libs/contrib/rapidjson/internal/regex.h:654-685 | `a?` occurs in the text `b`, as the empty word, and is not found there |
| `RegexEngine.TextDecoded` | libs/contrib/rapidjson/internal/regex.h:194-320 | a pattern of the grammar is written in characters a decoder can deliver |
| `RegexEngine.DenotesWellFormed` | libs/contrib/rapidjson/internal/regex.h:194-320 | the bounds of the repetitions a pattern of the grammar denotes are in order |
| `RegexEngine.Compile` | libs/contrib/rapidjson/internal/regex.h:194-320 | every pattern of the grammar compiles, to an automaton for what it denotes |
| `RegexEngine.Match` | libs/contrib/rapidjson/internal/regex.h:194-468 | compiled and run on a text, a pattern with guarded repetitions matches exactly the words of its language |
| `RegexEngine.Search` | libs/contrib/rapidjson/internal/regex.h:640-685 | compiled and run on a text, a pattern that meets the condition of `RegexSearch.SearchExactness` is found exactly where it occurs |
| `RegexSource.DeliversCharacters` | libs/contrib/rapidjson/internal/regex.h:50-71 | what a decoder delivers of a text are characters: it stops at the end, at a zero and at what is not well formed |
| `RegexSource.DeliversWhatWasEncoded` | libs/contrib/rapidjson/internal/regex.h:50-71 | the characters of any text of scalar values without a zero are delivered as they were before they were encoded |
| `RegexSource.DecodedStream.Take` | libs/contrib/rapidjson/internal/regex.h:55-60 | the next character of the decoded text; after its end zeros, and nothing more is read |
| `RegexSource.MatchText` | libs/contrib/rapidjson/internal/regex.h:634-637 | a pattern run on the bytes of a text matches exactly if the decoded characters are a word of its language |
| `Utf8.EncodeMeans` | libs/contrib/rapidjson/encodings.h:102-121 | the encoding of a code point carries it, and is well formed (section 4 of RFC 3629) exactly for scalar values |
| `Utf8.EncodeInvertsPayload` | libs/contrib/rapidjson/encodings.h:102-176 | a well-formed sequence is the encoding of the scalar value it carries |
| `Utf8.MasksMean` | libs/contrib/rapidjson/encodings.h:146-220 | the class table and its masks pick exactly the byte ranges of the grammar of RFC 3629 |
| `Utf8.PutEncoded` | libs/contrib/rapidjson/encodings.h:102-121 | puts the encoding of the code point |
| `Utf8.Decode` | libs/contrib/rapidjson/encodings.h:146-176 | accepts exactly the well-formed sequences, gives the code point they carry, and reads as many bytes as the first byte announces either way |
| `Utf8.Validate` | libs/contrib/rapidjson/encodings.h:179-202 | the verdict and the consumption of `Decode`, and a copy of every byte read |
| `Utf8.DecodeAfterEncode` | libs/contrib/rapidjson/encodings.h:102-176 | decoding the encodings of any sequence of scalar values gives the sequence back |
| `Utf8.EncodeAfterDecode` | libs/contrib/rapidjson/encodings.h:102-176 | encoding what any valid text decodes to gives the text back |
| `Utf8.DecodeText` | libs/contrib/rapidjson/encodings.h:146-176 | decoding a stream one character after the other gives the code points of the text, exactly if all of it is well formed |
| `Utf8.EncodeText` | libs/contrib/rapidjson/encodings.h:102-121 | putting one character after the other puts the encoding of the sequence |
| `Utf8.EncodeAndDecode` | libs/contrib/rapidjson/encodings.h:102-176 | any sequence of scalar values comes back when it is put and what was put is decoded |
| `JsonAutomaton.IterativeRefinesRecursive` | libs/contrib/rapidjson/reader.h:557-588 | for every text, all flags and every handler, the table-driven parser and the recursive one have the same verdict and, when they accept, the same events, counts and rest of the text; when both reject, the events agree, and so does the error, but for a document that is a single punctuation mark |
| `JsonAutomaton.LoneBracket` | libs/contrib/rapidjson/reader.h:557-588 | for the text `]` the table-driven parser reports an empty document and the recursive one an invalid value |
| `JsonAutomaton.ErrorNamesWhatIsMissing` | libs/contrib/rapidjson/reader.h:1828-1990 | in every state and for every token: the table has a place for the token exactly if it is among those the error of that state calls missing, or ends a container early |
| `JsonNesting.TransitMatches` | libs/contrib/rapidjson/reader.h:1995-2144 | every transition keeps the stack in step with the containers the events have opened |
| `JsonNesting.ReachedMatches` | libs/contrib/rapidjson/reader.h:2176-2208 | in every reachable state the stack lists the open containers, the resume states and the counts so far |
| `JsonNesting.EventsNest` | libs/contrib/rapidjson/reader.h:557-588 | whatever either parser hands over, ends nest with starts and announce as many children as there were; an accepted text gives the events of one value |
| `JsonNesting.HandlerIsObeyed` | libs/contrib/rapidjson/reader.h:557-588 | either parser hands over events only as long as the handler says to go on, and reports termination exactly when it has said not to |
| `JsonSpelling.ReadsUnicode` | libs/contrib/rapidjson/reader.h:904-923 | `\uXXXX` with digits in either case, in pairs of surrogates above 0xFFFF, is read as the UTF-8 of the code point, for every code point but a high surrogate alone |
| `JsonSpelling.ReadsStringText` | libs/contrib/rapidjson/reader.h:989-1054 | every spelling of a string, each character as it is, by a letter escape or in hexadecimal, is read as the bytes it spells |
| `JsonSpelling.EscapeErrors` | libs/contrib/rapidjson/reader.h:1007-1033 | a backslash that no escape letter follows, and `\u` with too few hexadecimal digits, are the errors they should be, at the backslash |
| `JsonSpelling.SurrogateErrors` | libs/contrib/rapidjson/reader.h:1014-1027 | a high surrogate that no `\u` follows, or one with too few digits, is the error it should be |
| `JsonSpelling.UnpairedError` | libs/contrib/rapidjson/reader.h:1014-1027 | so is one followed by anything but a low surrogate |
| `JsonSpelling.StringErrors` | libs/contrib/rapidjson/reader.h:1034-1053 | a string that does not end, one with a control character, and one with a wrong escape: the error and where it is, after whatever can be read before it |
| `JsonSpelling.ReadsNumeral` | libs/contrib/rapidjson/reader.h:1454-1732 | every number, with any fraction and exponent, is read to its end: as the integer it denotes if it is one of 64 bits, and otherwise by its text |
| `JsonSpelling.NoNumber` | libs/contrib/rapidjson/reader.h:1480-1532 | a value that begins with neither a digit nor, after a minus sign, has one: the error and where it is |
| `JsonSpelling.FractionMissing` | libs/contrib/rapidjson/reader.h:1569-1575 | a point that no digit follows: the error and where it is |
| `JsonSpelling.ExponentMissing` | libs/contrib/rapidjson/reader.h:1614-1660 | an exponent, signed or not, that has no digits: the error and where it is |
| `JsonSpelling.BlanksAre` | libs/contrib/rapidjson/reader.h:268-275 | the characters that are skipped are the space, the line feed, the carriage return and the tab |
| `JsonSpelling.SkipsGap` | libs/contrib/rapidjson/reader.h:709-734 | any run of such characters and of both kinds of comments is skipped, and no more |
| `JsonReader.GenericReader.SkipWhitespaceAndComments` | libs/contrib/rapidjson/reader.h:709-734 | blanks and, when allowed, both kinds of comments are passed; an unfinished comment is the error it should be |
| `JsonReader.GenericReader.ParseHex4` | libs/contrib/rapidjson/reader.h:904-923 | the value of four hexadecimal digits, or the error at the escape |
| `JsonReader.GenericReader.ParseEscape` | libs/contrib/rapidjson/reader.h:1007-1033 | the bytes an escape stands for, surrogate pairs included, or its error |
| `JsonReader.GenericReader.ParseStringToStream` | libs/contrib/rapidjson/reader.h:989-1054 | the decoded bytes and a terminating zero on the stack, or the error and its offset |
| `JsonReader.GenericReader.ParseString` | libs/contrib/rapidjson/reader.h:957-984 | one string event with the decoded bytes; the stack is as it was |
| `JsonReader.GenericReader.ParseInt32` | libs/contrib/rapidjson/reader.h:1480-1505 | as many digits as fit in 32 bits, without wrapping; it goes on to the wide loop exactly if the next digit does not fit |
| `JsonReader.GenericReader.ParseInt64` | libs/contrib/rapidjson/reader.h:1534-1559 | as many digits as fit in 64 bits, without wrapping; it goes on to the floating-point path exactly if the next digit does not fit |
| `JsonReader.GenericReader.ParseNumber` | libs/contrib/rapidjson/reader.h:1454-1732 | the number event the numeral stands for, with the narrowest type tried first, or the error |
| `JsonReader.GenericReader.ParseMember` | libs/contrib/rapidjson/reader.h:755-770 | one name, colon and value, as the grammar has them |
| `JsonReader.GenericReader.ParseObject` | libs/contrib/rapidjson/reader.h:738-802 | an object as the grammar has it, with the number of its members; the stack is as it was |
| `JsonReader.GenericReader.ParseArray` | libs/contrib/rapidjson/reader.h:806-851 | an array as the grammar has it, with the number of its elements; the stack is as it was |
| `JsonReader.GenericReader.ParseValue` | libs/contrib/rapidjson/reader.h:1736-1749 | a value as the grammar has it |
| `JsonReader.GenericReader.Parse` | libs/contrib/rapidjson/reader.h:557-588 | the outcome of the recursive grammar: events, position, error and offset; the stack is empty again |
| `JsonReader.GenericReader.OpenContainer` | libs/contrib/rapidjson/reader.h:2002-2027 | the state to come back to and a zero count on the stack, and the start event |
| `JsonReader.GenericReader.CountDelimiter` | libs/contrib/rapidjson/reader.h:2057-2062 | the count of the innermost container goes up by one |
| `JsonReader.GenericReader.CloseContainer` | libs/contrib/rapidjson/reader.h:2064-2122 | the end event with the right count, the two stack words off, and the state of the container around it |
| `JsonReader.GenericReader.TransitTo` | libs/contrib/rapidjson/reader.h:1995-2144 | the next state, stack, position and events of the table-driven machine |
| `JsonReader.GenericReader.IterativeParse` | libs/contrib/rapidjson/reader.h:2176-2208 | the outcome of the table-driven machine; with `JsonAutomaton.IterativeRefinesRecursive`, that of `Parse` |
| `JsonRoundTrip.IntegerPath` | libs/contrib/rapidjson/reader.h:1467-1559 | a numeral without fraction and exponent is handed on as the integer it denotes exactly when that is in [-2^63, 2^64-1], and otherwise takes the floating-point path |
| `JsonRoundTrip.ReadsInteger` | libs/contrib/rapidjson/reader.h:1715-1728 | the printed form of any integer of 64 bits is read back as that integer |
| `JsonRoundTrip.ReadsQuoted` | libs/contrib/rapidjson/reader.h:989-1054 | any byte string, quoted and escaped, is read back |
| `JsonRoundTrip.ReadsLaid` | libs/contrib/rapidjson/reader.h:738-851 | a value in any layout (any spelling of its strings and numbers, any white space between tokens, comments and trailing commas as the flags allow) is read as its events |
| `JsonRoundTrip.ReadsDocument` | libs/contrib/rapidjson/reader.h:557-588 | a value in any layout, with white space and comments around it, is read to the end of the text as its events, by both parsers |
| `JsonSpelled.GapFrom` | libs/contrib/rapidjson/reader.h:709-734 | what is skipped is such a run, or ends in a comment that only the end of the text ends |
| `JsonSpelled.PieceFrom` | libs/contrib/rapidjson/reader.h:904-1033 | whatever is taken for an escape is the spelling of a character, and gives its bytes |
| `JsonSpelled.NumberFrom` | libs/contrib/rapidjson/reader.h:1454-1732 | whatever is taken for a number is a numeral without leading zeros, and is handed on as what it stands for |
| `JsonExactness.ValueFrom` | libs/contrib/rapidjson/reader.h:738-851 | whatever is taken for a value is the text of a value in some layout, and the events are those of the value |
| `JsonExactness.AcceptsExactlyTheLayouts` | libs/contrib/rapidjson/reader.h:557-588 | with a handler that always goes on, a text is accepted, by either parser, if and only if it is a value in some layout with white space and comments around it; and it is read as the events of that value |
| `JsonExactness.ControlIsRefused` | libs/contrib/rapidjson/reader.h:268-275 | without comments, no accepted text holds a control character other than the four blanks, wherever it stands |
| `JsonExactness.WrongWord` | libs/contrib/rapidjson/reader.h:854-889 | a literal that goes wrong is refused at the first wrong character |
| `JsonExactness.EmptyDocument` | libs/contrib/rapidjson/reader.h:557-575 | white space and comments alone are an empty document, for both parsers |
| `JsonExactness.RootIsNotSingular` | libs/contrib/rapidjson/reader.h:575-586 | anything after the root but white space and comments is refused where it begins, by both parsers |
| `JsonRoundTrip.ReadsPrinted` | libs/contrib/rapidjson/reader.h:557-588 | the printed text of any tree without floating-point numbers is read as the events of the tree, by both parsers |
| `Itoa.U32toa` | libs/contrib/rapidjson/internal/itoa.h:39-113 | the decimal numeral without leading zeros, in at most 10 characters, right behind what is in the buffer |
| `Itoa.I32toa` | libs/contrib/rapidjson/internal/itoa.h:115-124 | the signed numeral, in at most 11 characters; the least value included |
| `Itoa.U64toa` | libs/contrib/rapidjson/internal/itoa.h:126-292 | the decimal numeral without leading zeros, in at most 20 characters, and 19 below 10^19 |
| `Itoa.I64toa` | libs/contrib/rapidjson/internal/itoa.h:294-303 | the signed numeral, in at most 20 characters, sign included |
| `Texts.NumeralWrittenOut` | libs/contrib/rapidjson/internal/itoa.h:39-303 | 9, 1024 and 35768, digit by digit |
| `Texts.DecimalDigits` | libs/contrib/rapidjson/internal/itoa.h:39-303 | the numeral is made of digits, and begins with a zero only for zero |
| `JsonWriter.EscapedLength` | libs/contrib/rapidjson/writer.h:400-403 | escaping makes a string at most six times as long |
| `JsonWriter.RoomSuffices` | libs/contrib/rapidjson/writer.h:400-403 | the room reserved in 32-bit arithmetic suffices for every string of a length if and only if 2 + 6*length is below 2^32 |
| `JsonWriter.RoomWrapsAround` | libs/contrib/rapidjson/writer.h:400-403 | from length 715827883 on it does not: four places are reserved |
| `JsonWriter.Writer.Prefix` | libs/contrib/rapidjson/writer.h:482-500 | the separator due before a value or a name, and the count of the level one up |
| `JsonWriter.Writer.ScanUnaligned` | libs/contrib/rapidjson/writer.h:598-604 | the bytes before the first aligned address are copied, none of them in need of an escape |
| `JsonWriter.Writer.ScanBlocks` | libs/contrib/rapidjson/writer.h:606-638 | blocks of sixteen are copied up to the first byte in need of an escape |
| `JsonWriter.Writer.ScanWriteUnescapedString` | libs/contrib/rapidjson/writer.h:584-642 | at every address alignment, copies bytes none of which needs an escape, and says whether any are left |
| `JsonWriter.Writer.WriteString` | libs/contrib/rapidjson/writer.h:386-458 | for every byte string of at most 715827882 bytes and every address, the same bytes as the byte-at-a-time escape, within the room reserved |
| `JsonWriter.Writer.Int` | libs/contrib/rapidjson/writer.h:523-528 | a separator if due, and the numeral |
| `JsonWriter.Writer.Uint64` | libs/contrib/rapidjson/writer.h:547-552 | a separator if due, and the numeral |
| `JsonWriter.Writer.String` | libs/contrib/rapidjson/writer.h:208-213 | a separator if due, and the quoted string |
| `JsonWriter.Writer.StartObject` | libs/contrib/rapidjson/writer.h:219-223 | a separator if due, the brace, and a new level |
| `JsonWriter.Writer.EndObject` | libs/contrib/rapidjson/writer.h:239-246 | the brace, and the level gone; an even number of values is demanded |
| `JsonWriter.Writer.StartArray` | libs/contrib/rapidjson/writer.h:248-252 | a separator if due, the bracket, and a new level |
| `JsonWriter.Writer.EndArray` | libs/contrib/rapidjson/writer.h:254-260 | the bracket, and the level gone |
| `JsonWriter.Writer.Accept` | libs/contrib/rapidjson/document.h:1875-1912 | the writer has put the compact text of the tree, and its levels are as before |
| `JsonDocument.FlagsAreByValue` | libs/contrib/rapidjson/document.h:710-750 | which integer types a number answers to depends on its value alone, not on the type it was made from |
| `JsonDocument.AcceptedByFlags` | libs/contrib/rapidjson/document.h:1904-1910 | an integer is handed on as the first of `int`, `unsigned`, `int64_t` and `uint64_t` it answers to |
| `JsonDocument.BuildsValue` | libs/contrib/rapidjson/document.h:2444-2484 | the events of a tree put exactly that tree on the stack |
| `JsonDocument.GenericDocument.EndObject` | libs/contrib/rapidjson/document.h:2472-2476 | the names and values on top become the members of the object below |
| `JsonDocument.GenericDocument.EndArray` | libs/contrib/rapidjson/document.h:2480-2484 | the values on top become the elements of the array below |
| `JsonDocument.PrintAndParse` | libs/contrib/rapidjson/document.h:1875-1912 | printing any tree without floating-point numbers and parsing the text, by either parser and under any flags, gives the tree back, as the only value on the stack |
| `JsonFidelity.NestedEventsBuild` | libs/contrib/rapidjson/document.h:2444-2484 | no handler call on events that nest takes more from the stack than there is |
| `JsonFidelity.DocumentHasTheEvents` | libs/contrib/rapidjson/document.h:2444-2484 | for every accepted text: the stack ends up with one value, whose events, as `Accept` gives them, are those of the text but for the names of integer types |
| `Limbs.ValueBounds` | libs/contrib/rapidjson/internal/biginteger.h:219-221 | a list of limbs without leading zeros is at least the power of the base its length stands for, and any list is below the next one |
| `Limbs.HighestDecides` | libs/contrib/rapidjson/internal/biginteger.h:208-217 | of two lists of equal length, the highest limb in which they differ decides |
| `BigInteger.MulAdd64` | libs/contrib/rapidjson/internal/biginteger.h:249-277 | the low and the high half of a*b + k |
| `BigInteger.MulAdd64Portable` | libs/contrib/rapidjson/internal/biginteger.h:262-275 | the same from four products of halves in wrapping 64-bit arithmetic |
| `BigInteger.BigInteger.Add` | libs/contrib/rapidjson/internal/biginteger.h:70-85 | the number plus u, for every number and u whose sum fits |
| `BigInteger.BigInteger.Mul` | libs/contrib/rapidjson/internal/biginteger.h:87-103 | the number times a 64-bit u |
| `BigInteger.BigInteger.Mul32` | libs/contrib/rapidjson/internal/biginteger.h:105-126 | the number times a 32-bit u; the 64-bit sums do not wrap |
| `BigInteger.BigInteger.ShiftLeft` | libs/contrib/rapidjson/internal/biginteger.h:128-152 | the number times 2^shift |
| `BigInteger.BigInteger.MultiplyPow5` | libs/contrib/rapidjson/internal/biginteger.h:162-182 | the number times 5^exp |
| `BigInteger.BigInteger.Compare` | libs/contrib/rapidjson/internal/biginteger.h:208-217 | the order of the numbers; equal only with equal limbs |
| `BigInteger.BigInteger.AppendDecimal64` | libs/contrib/rapidjson/internal/biginteger.h:224-232 | the number times 10^n plus the number of the n digits |
| `BigInteger.BigInteger.FromDecimals` | libs/contrib/rapidjson/internal/biginteger.h:40-53 | the number the digit string denotes |
| `BigInteger.BigInteger.Difference` | libs/contrib/rapidjson/internal/biginteger.h:186-206 | whether the number is the smaller one; and for unequal operands |a-b| plus what the lost borrows amount to |
| `BigInteger.DifferenceExactness` | libs/contrib/rapidjson/internal/biginteger.h:186-206 | the difference is exact if and only if, wherever the smaller number has a limb of 2^64-1, its lower limbs are not more than those of the greater |
| `BigInteger.DifferenceIsNotExact` | libs/contrib/rapidjson/internal/biginteger.h:186-206 | 2^128 - (2^128 - 2^64 + 1) comes out 2^128 too large |
| `Limbs.NothingLost` | libs/contrib/rapidjson/internal/biginteger.h:186-206 | what is lost is zero exactly when no incoming borrow meets a limb of all ones |
| `Strtod.IntegerParts` | libs/contrib/rapidjson/internal/ieee754.h:47-48 | integer significand and exponent are the value of the double, for every positive one |
| `Strtod.PartsMeanValue` | libs/contrib/rapidjson/internal/ieee754.h:45-48 | for every double, zero included: its integer significand and exponent make up its value, but 2^-1023 for zero |
| `Strtod.NextIsOneUlp` | libs/contrib/rapidjson/internal/ieee754.h:32-35 | the next double is one unit in the last place further |
| `Strtod.ScaleExponents` | libs/contrib/rapidjson/internal/strtod.h:56-96 | the exponents adjusted step by step are those of the common scaling |
| `Strtod.HalfUlpSign` | libs/contrib/rapidjson/internal/strtod.h:56-111 | the comparison of the scaled integers is the comparison of |d*10^dExp - b| with half a unit in the last place, over the reals, for every double as its parts have it |
| `Strtod.CheckWithinHalfULP` | libs/contrib/rapidjson/internal/strtod.h:56-111 | the sign of |d*10^dExp - b| - ulp(b)/2 whenever no borrow is lost, with 2^-1023 for b when b is zero; and exactly what is off otherwise |
| `Strtod.NeighboursSuffice` | libs/contrib/rapidjson/internal/strtod.h:208-224 | of two neighbours with the number between them, the nearer is the nearest of all doubles |
| `Strtod.StrtodBigInteger` | libs/contrib/rapidjson/internal/strtod.h:208-224 | if the decimal lies between the approximation and the next double and no borrow is lost, the nearest double, ties to even; next to zero always the least double, which is right if and only if the decimal is above 2^-1075 |
| `Strtod.FarFromZero` | libs/contrib/rapidjson/internal/strtod.h:56-111 | for every decimal up to the least double, zero is found more than half a unit away, and the least double is the nearest if and only if the decimal is above 2^-1075 |
| `Strtod.LeastDoubleIsTooLarge` | libs/contrib/rapidjson/internal/strtod.h:208-224 | 10^-324 is taken for the least double, and zero is nearer |
| `Strtod.GuardsSuffice` | libs/contrib/rapidjson/internal/strtod.h:263-281 | with at most 768 digits and -324 < digits + exponent <= 309, as when `StrtodBigInteger` is called, all scaled numbers fit the capacity |
| `DigitGen.CountDecimalDigit32` | libs/contrib/rapidjson/internal/dtoa.h:44-58 | the number of decimal digits |
| `DigitGen.GrisuRound` | libs/contrib/rapidjson/internal/dtoa.h:35-42 | the last digit goes down to where, of all numbers of steps within `delta`, the distance to `wp_w` is least, and the first such; never below zero, with no wrapping sum |
| `DigitGen.FractionDigits` | libs/contrib/rapidjson/internal/dtoa.h:95-109 | the digits behind the point, at most 21 in all, with no 64-bit product that wraps; shortest and nearest as for `DigitGen` |
| `DigitGen.DigitGen` | libs/contrib/rapidjson/internal/dtoa.h:60-110 | ends with at least one digit and at most 21, all of them digits, and a number D*10^kappa in [Mp - delta, Mp]; no greater kappa has a number there (behind the point: above the lower end); it is the nearest to `W` of those with the same kappa when kappa > -9 and W is in the interval, and the greatest of them when kappa <= -9 |
| `DigitGen.NinthDigitIsNotRounded` | libs/contrib/rapidjson/internal/dtoa.h:95-109 | with kappa = -9, an interval whose greatest number is not the one nearest to the value aimed at |
| `PointerText.PlainRoundTrip` | libs/contrib/rapidjson/pointer.h:1001-1032 | any names written in the plain form are read back (section 3 of RFC 6901) |
| `PointerText.PlainTextIsKept` | libs/contrib/rapidjson/pointer.h:862-992 | a valid plain pointer is written as it was read |
| `PointerText.FragmentRoundTrip` | libs/contrib/rapidjson/pointer.h:1001-1032 | names written as a URI fragment are read back (section 6 of RFC 6901) |
| `PointerText.FragmentOfUtf8` | libs/contrib/rapidjson/pointer.h:1019-1027 | names that are valid UTF-8 can all be written as a fragment |
| `PointerText.ParsedAreNames` | libs/contrib/rapidjson/pointer.h:862-992 | the names of a pointer that is given by bytes are byte strings |
| `PointerText.UnreservedByTheirSigns` | libs/contrib/rapidjson/pointer.h:850-852 | the characters that need no percent-encoding are letters, digits and `-._~` (section 2.3 of RFC 3986), written out |
| `PointerText.NamesWrittenOut` | libs/contrib/rapidjson/pointer.h:1001-1009 | a name is written after `/`, a fragment begins with `#` |
| `PointerText.EscapesWrittenOut` | libs/contrib/rapidjson/pointer.h:1009-1018 | `~` is written `~0` and `/` is written `~1`, and no other character is escaped |
| `PointerText.PercentWrittenOut` | libs/contrib/rapidjson/pointer.h:1085-1097 | a byte is percent-encoded by its two hexadecimal digits in upper case |
| `PointerText.BeginsWithSolidus` | libs/contrib/rapidjson/pointer.h:881-892 | a pointer that does not begin with `/`, or a fragment that does not after `#`: the error and where it is |
| `PointerText.PlainErrors` | libs/contrib/rapidjson/pointer.h:930-947 | a tilde without `0` or `1`, after any name read so far: the error and where it is |
| `PointerText.FragmentErrors` | libs/contrib/rapidjson/pointer.h:904-947 | the same in a fragment, and a percent sign without two hexadecimal digits, and a character that must be percent-encoded |
| `PointerText.IndexOfDecimal` | libs/contrib/rapidjson/pointer.h:955-977 | the index of the numeral of n is n for every n below 2^32 - 1; of any other number it is what 32 bits leave of it, unless a digit was seen to wrap around |
| `PointerText.OnlyNumeralsHaveIndex` | libs/contrib/rapidjson/pointer.h:949-977 | a name that is the decimal numeral of no number has no index |
| `PointerText.WrapIsNotSeen` | libs/contrib/rapidjson/pointer.h:966-974 | the index of 10000000000 is 1410065408 |
| `PointerParser.PercentDecodeStream.Take` | libs/contrib/rapidjson/pointer.h:1050-1070 | the byte of a `%XY` triplet, or zero and the note that there is none |
| `PointerParser.DecodePercent` | libs/contrib/rapidjson/pointer.h:904-915 | a percent-encoded character into the name buffer, with the verdict whether it is well formed |
| `PointerParser.GenericPointer.NumberIn` | libs/contrib/rapidjson/pointer.h:955-977 | the array index a name stands for, with the test for 32-bit wrap-around as written |
| `PointerParser.GenericPointer.ReadName` | libs/contrib/rapidjson/pointer.h:900-955 | one name into the buffer, never past its end |
| `PointerParser.GenericPointer.Parse` | libs/contrib/rapidjson/pointer.h:862-992 | exactly the pointers of the grammar are read, into their names and indices, inside buffers as long as the text; otherwise the error, its offset and no tokens |
| `PointerWriter.PercentEncodeStream.Put` | libs/contrib/rapidjson/pointer.h:1085-1097 | the triplet of a byte |
| `PointerWriter.PutName` | libs/contrib/rapidjson/pointer.h:1009-1030 | the text of one name; where a character to be encoded is not well formed, false, and what was put up to and with it |
| `PointerWriter.StringifiedText` | libs/contrib/rapidjson/pointer.h:1001-1032 | all that is put for a pointer whose names have texts is its plain or fragment text |
| `PointerWriter.Stringify` | libs/contrib/rapidjson/pointer.h:1001-1032 | true exactly if all names have texts; and all that is put, either way |
| `PointerWriter.ParseStringifyParse` | libs/contrib/rapidjson/pointer.h:862-1032 | parsing a pointer, writing it in either form and parsing the text again gives tokens with the same names and indices; a plain pointer is written as it was, and names in UTF-8 can be written as a fragment |
| `PointerEval.CreateKeepsWhatExists` | libs/contrib/rapidjson/pointer.h:461-507 | where `Get` reaches something, `Create` changes nothing and gives the same place (section 4 of RFC 6901) |
| `PointerEval.CreatedIsReached` | libs/contrib/rapidjson/pointer.h:461-567 | after `Create`, `Get` reaches the place created if and only if no name `-` met an array on the way |
| `PointerEval.PastLastIsNotReached` | libs/contrib/rapidjson/pointer.h:461-567 | in an empty array `-` creates an element that `-` does not reach |
| `PointerEval.CreatedIsNullOrOld` | libs/contrib/rapidjson/pointer.h:461-507 | at the place created is the value that was there, or else null |
| `PointerEval.CreateKeepsOthers` | libs/contrib/rapidjson/pointer.h:461-507 | what any other pointer reached stays in its place, and keeps its value unless the place is on the way |
| `PointerEval.CreateKeepsPlaces` | libs/contrib/rapidjson/pointer.h:461-507 | everything `Get` reached stays in its place if and only if no array with elements had to become an object |
| `PointerEval.ArrayBecomesObject` | libs/contrib/rapidjson/pointer.h:461-507 | an array of one element that has to hold the name `a` loses the element |
| `PointerEval.NumeralReachesElement` | libs/contrib/rapidjson/pointer.h:461-567 | `/` and the numeral of n < 2^32 - 1 is read as one name, which leads to element n exactly if there is one; `Create` makes the array just long enough, with nulls |
| `PointerEval.OtherNamesReachNoElement` | libs/contrib/rapidjson/pointer.h:461-567 | a name that is no numeral, and not `-`, selects no element; for `Create` the array becomes an object with that one member |
| `PointerEval.WhatBecomesOfOthers` | libs/contrib/rapidjson/pointer.h:461-507 | for `Create`, a value that holds no others becomes an array of n + 1 nulls for the numeral of n, and an object of one null member for any other name; an object stays one, with the member added unless it is there |
| `PointerEval.EraseSucceedsWhenResolved` | libs/contrib/rapidjson/pointer.h:771-809 | `Erase` succeeds if and only if the pointer is not empty and `Get` resolves it |
| `PointerEval.EraseRemovesTheChild` | libs/contrib/rapidjson/pointer.h:771-809 | `Erase` takes out the child `Get` reaches, and changes nothing else |
| `PointerEval.EraseUndoesCreate` | libs/contrib/rapidjson/pointer.h:461-809 | erasing what was just created gives back the tree if and only if creating added one child at the end of a container |
| `PointerEval.GenericDocument.FindMember` | libs/contrib/rapidjson/document.h:1258-1266 | the first member of the name, or the number of members |
| `PointerEval.GenericDocument.Get` | libs/contrib/rapidjson/pointer.h:539-567 | the place the names lead to, or the first name that selects nothing where those before it lead |
| `PointerEval.GenericDocument.Open` | libs/contrib/rapidjson/pointer.h:465-499 | one step of `Create`: what the value becomes, where the name leads, and whether it was there |
| `PointerEval.GenericDocument.Create` | libs/contrib/rapidjson/pointer.h:461-507 | the tree and the place the laws above are about; `exist` exactly if `Get` resolved before |
| `PointerEval.GenericDocument.Erase` | libs/contrib/rapidjson/pointer.h:771-809 | the tree the laws above are about; false leaves it as it was |
| `PoolAllocator.AllocatedIsSound` | libs/contrib/rapidjson/allocators.h:189-202 | `Malloc` gives a block inside a chunk, aligned as the chunk is and apart from all live ones, if and only if none of its 64-bit sums wraps around |
| `PoolAllocator.AlignedAsItsChunk` | libs/contrib/rapidjson/allocators.h:138-147 | every block is 8-aligned, unless it lies in a buffer of the user's that is not |
| `PoolAllocator.ReallocatedIsSound` | libs/contrib/rapidjson/allocators.h:204-234 | the same for `Realloc` |
| `PoolAllocator.SumWrapsAround` | libs/contrib/rapidjson/allocators.h:189-202 | a request that makes the sum wrap: the head chunk seems empty afterwards |
| `PoolAllocator.WhereABlockGoes` | libs/contrib/rapidjson/allocators.h:189-202 | a block goes right behind those of the head chunk if it fits there; otherwise to the front of one new chunk, of the configured capacity unless the block is larger |
| `PoolAllocator.WhereAResizedBlockIs` | libs/contrib/rapidjson/allocators.h:204-234 | a block stays where it is if it is large enough, grows there by just what it lacks if it is the last of the head chunk and fits, and otherwise goes where a new block goes |
| `PoolAllocator.LastOfTheHead` | libs/contrib/rapidjson/allocators.h:217-224 | the test for growing in place holds only for the last block of the head chunk |
| `PoolAllocator.TotalsFit` | libs/contrib/rapidjson/allocators.h:171-186 | the capacities together are within memory, so the totals do not wrap, and the size is within the capacity |
| `PoolAllocator.MemoryPoolAllocator.AddChunk` | libs/contrib/rapidjson/allocators.h:250-262 | a new chunk at the head, if the base allocator has one |
| `PoolAllocator.MemoryPoolAllocator.Malloc` | libs/contrib/rapidjson/allocators.h:189-202 | the new block and chunks; the pool stays sound, and the block is apart from all live ones |
| `PoolAllocator.MemoryPoolAllocator.Realloc` | libs/contrib/rapidjson/allocators.h:204-234 | every byte of the old block is in the new one, all other blocks keep theirs, and the pool stays sound |
| `PoolAllocator.MemoryPoolAllocator.Clear` | libs/contrib/rapidjson/allocators.h:158-166 | no chunk is left but the user's buffer, which is empty |
| `PoolAllocator.MemoryPoolAllocator.Capacity` | libs/contrib/rapidjson/allocators.h:171-176 | the sum of the capacities, which does not wrap |
| `PoolAllocator.MemoryPoolAllocator.Size` | libs/contrib/rapidjson/allocators.h:181-186 | the sum of the used areas, which is within the capacity |
| `Proxy.AlwaysHolds` | src/Proxy.cpp:186-305 | in every run of requests, replies and timers: `queue` is the number of requests in flight; every transaction sent is in flight, waiting, delivered or dropped, and only one of these; with a limit, queue and backlog exceed it by one at most; the total is the sum of the other counters and the refusals |
| `Proxy.FateOfTransaction` | src/Proxy.cpp:263-305 | in every run, from the actions alone: a transaction is delivered exactly if there was a reply to it with code 200; dropped exactly if the client refused to send it once more; and waiting exactly if its last reply came after the last retry and no tick has taken it since |
| `Proxy.TooManyMeansUnfinished` | src/Proxy.cpp:191-199 | a request is refused exactly when the requests in flight and waiting are more than the limit |
| `Proxy.CountersCount` | src/Proxy.cpp:41-76 | in every run, what has been handed over and what is held of each counter add up to the number of requests of its kind: all; good ones; and those with each group of errors, listed; and every good one that is no test and that the client takes is sent |
| `Proxy.NothingToMerge` | src/Proxy.cpp:287-290 | when the total is zero so are the other counters: skipping the merge loses nothing |
| `Proxy.TickTakesTheFront` | src/Proxy.cpp:297-304 | a tick takes requests from the front of the backlog in order; exactly those the client accepted are added to the ones in flight, exactly the others are dropped, and nothing else changes |
| `Proxy.BacklogEmpties` | src/Proxy.cpp:293-305 | taking min(200, ceil(n/2)) at a time empties a backlog of n in n/200 + 9 ticks |
| `Proxy.TicksEmpty` | src/Proxy.cpp:293-305 | so does the worker's backlog, whatever the client answers, when nothing is added |
| `Proxy.Worker.ProcessErrorCode` | src/Proxy.cpp:41-76 | every error makes exactly one of the four error counters go up, by one; the total, the successes and the queue stay |
| `Proxy.Worker.CbRequest` | src/Proxy.cpp:186-260 | the step of the run that a request is |
| `Proxy.Worker.CbReply` | src/Proxy.cpp:263-277 | the step of the run that a reply is |
| `Proxy.Worker.TimerOutQueue` | src/Proxy.cpp:293-305 | the loop whose bound shrinks with the queue takes min(200, ceil(n/2)) requests |
| `Proxy.Worker.TimerUpdateCounters` | src/Proxy.cpp:284-291 | publishes the queue sizes, and hands over the counters if there has been a request; what is handed over adds up |
| `CounterMerge.AlwaysConserved` | src/stats/Counters.cpp:24-42 | in every interleaving of worker threads and the statistics thread, field by field, nothing is counted twice or lost, merges in progress included |
| `CounterMerge.EventsAreSomewhere` | src/stats/Stats.cpp:154-189 | outside merges, the events are those in the workers' counters, in the global ones and already reported |
| `CounterMerge.GlobalCounters.Merge` | src/stats/Counters.cpp:24-32 | each field grows by the worker's |
| `CounterMerge.LocalCounters.Clear` | src/stats/Counters.cpp:34-42 | all fields are zero |

## Left out

- HTTP server and client, event loop, timers, signals, sockets, logging and configuration: what they deliver and answer is a choice of the environment in `Proxy`.
- Signatures, hashing and the decoding of transactions: foreign calls; whether a request is good is a choice of the environment.
- The schema validator, `GenericValue` comparison, and the rest of the DOM interface: not needed for the properties above.
- Floating-point evaluation (`FastPath`, `StrtodNormalPrecision`, the double path of `ParseNumber`, `GetCachedPower`, `Grisu2`, `Prettify`): a floating-point number is known by its numeral, and whether it is too big for a double, early exit for large exponents included, is a parameter.
- UTF-16 and UTF-32, in-situ parsing, `IterativeParseNext`, the SIMD scans of the reader, and the reader's flags for full precision, numbers as strings, NaN and infinities, and validation of encodings.
- Allocation failure and raw memory elsewhere than in the pool: stacks and buffers are sequences and arrays that are large enough; the depth of the recursion is not bounded.
- RegexGrammar.ParserReadsGrammar: empty groups, and repetitions of at most zero words, are not patterns of the grammar.
- RegexCompiler.GenericRegex.Parse: patterns on which an assertion fails, such as `()a` and `{2}`, are excluded; state counts of 2^32 and more are not modelled. The operand stack, a local in the program, is a field.
- RegexCompiler.GenericRegex.ParseUnsigned: numbers wrap around modulo 2^32 as in the program, whose overflow test lets some of them through; patterns of the grammar have bounds below 2^32 - 1.
- RegexSearch.GenericRegexSearch.SearchWithAnchoring: requires unbounded repetitions of operands that do not match the empty word; for others `RegexNfa.NullableLoopDiverges` shows that following the split states does not end. The bits of `stateSet_` are an array of booleans.
- RegexEngine.Search: for patterns that do not meet the condition of `RegexSearch.SearchExactness` it states what is found.
- JsonAutomaton.IterativeRefinesRecursive: when the handler stops the parse, the two parsers report the same error at offsets that may differ by what has been taken from the stream; counts do not wrap around at 2^32.
- JsonReader.GenericReader.IterativeParse: the parser's stack is a list of words and characters, not of bytes.
- JsonExactness.AcceptsExactlyTheLayouts: is about parses that go on to the end of the text; for one that stops after the root, `JsonRoundTrip.ReadsDocument` and `JsonExactness.AcceptedIsLaid` are the two directions, the first where nothing that could be a part of a number follows.
- JsonRoundTrip.ReadsPrinted: trees with floating-point numbers are not covered, for their printed text is not modelled.
- JsonWriter.Writer.Accept: requires a tree without floating-point numbers, whose strings and names have at most 715827882 bytes each; `maxDecimalPlaces` and raw values are not modelled.
- JsonWriter.Writer.WriteString: requires at most 715827882 bytes; `JsonWriter.RoomSuffices` says why, and so do `String`, `Key` and `JsonDocument.PrintAndParse`.
- JsonWriter.Writer.ScanBlocks: the sixteen lanes of the vector comparison are computed one by one, and the mask they make is looked at through its lowest bit only.
- BigInteger.BigInteger.Difference: equal operands, which an assertion excludes, are modelled as in builds with assertions off, as the build flags have it (`cmake/flags.cmake:35`).
- BigInteger.BigInteger.ShiftLeft: the bitwise or of two parts that have no bits in common is their sum.
- Strtod.CheckWithinHalfULP: the double is not negative, and the scaled numbers fit the capacity, as `Strtod.GuardsSuffice` shows for the calls of the program.
- Strtod.StrtodBigInteger: that the decimal lies between the approximation and the next double is a hypothesis; it is what the approximation by `StrtodDiyFp` is for, whose error analysis is not modelled.
- DigitGen.DigitGen: the interval and the range of the exponent are hypotheses, as `Grisu2` establishes them. The buffer has to have 21 places; the program gives 25, less one for a sign.
- PointerParser.GenericPointer.NumberIn: indices of 2^32 and more are taken modulo 2^32 where the test for wrap-around does not catch it, as in the program; `PointerText.IndexOfDecimal` says which.
- PointerWriter.Stringify: a character to be percent-encoded is validated into a buffer and then put, rather than put while it is validated.
- PointerEval.GenericDocument.Create: the tree is one value, and a reference into it is the path of child positions; aliasing is not modelled. The pointer is given by its names.
- PoolAllocator.MemoryPoolAllocator.Realloc: requires that no 64-bit sum wraps around, since the copy would leave memory; `PoolAllocator.ReallocatedIsSound` covers the other sizes. The list of chunks is a sequence, and the headers are not part of the modelled memory contents.
- PoolAllocator.MemoryPoolAllocator.Malloc: what the base allocator answers is a parameter, which must be free, aligned memory; a buffer of the user's need not be aligned, and then the blocks in it are not (`PoolAllocator.AlignedAsItsChunk`).
- Proxy.AlwaysHolds: requests that the client refuses when they are sent for the first time, and test transactions, are not sent and not tracked; how often a request has been tried is a choice of the environment.
- CounterMerge.AlwaysConserved: `queue`, which the program publishes apart from the merge and never merges, is not among the fields; counters do not wrap around at 2^64.
