# A verified model of the block indexer's algorithms

The program follows a block chain over JSON-RPC and stores what it fetches. Around the network and database
calls it carries five algorithms of its own, and this project models them and proves what they are for. One
command checks everything: `dafny verify dfyconfig.toml`.

**JSON** (`Json*.dfy`). `JsonValue` is the value with its 64-bit integers and the uint64 flag. `JsonWriter` is the
generator, a class that appends to its stream and keeps the indentation level, proved against a recursive `Text`.
`JsonEscape` holds both directions of string escaping, as loops over the string. `JsonLex` has the string and
number rules. `JsonGrammar` runs the grammar as the combinators do: ordered choice that backtracks over the input
but not over the actions already fired. `JsonTree` is the same grammar as a plain recursive parser that returns a
tree. `JsonBuilder` and `JsonActions` are the machine that the actions drive, with a current pointer, a stack of
raw pointers into growing vectors and one name register. `JsonRoundTrip` and `JsonLayout` hold the laws that span
writer and reader. `JsonNumerals`, `JsonLiterals`, `JsonTexts` and `JsonAccepted` give the reader's own, wide grammar
as a datatype of written texts, and prove that it accepts this grammar and nothing else; the texts of RFC 8259 are a
part of it. `JsonRfcWriter` shows that what is printed is such a text. `JsonEscapeForms`, `JsonCharacters`, `JsonIndent`
and `JsonErrors` tie all this to the characters themselves: what every escape looks like and stands for, words,
punctuation, lines and margins, and what is thrown where.

**Formatted text** (`Format*.dfy`). `FormatSpec` reads one conversion specification into a stream state,
`FormatStar` deals with `*`, `Format` is the iterator that is fed one argument at a time, and `FormatRefinement`
relates it to a direct reading of the format string. `FormatMeaning` gives the stream state of a specification by the
characters it is written with, `FormatStrings` the text that strings come out as, and `FormatStarText` replaces stars by
numbers in place through the whole interpreter.

**Base64** (`Base64*.dfy`). The bit-carrying coder and decoder, against the 24-bit groups of section 4 of RFC 4648 and,
in `Base64Alphabet`, bit by bit against its alphabet, written out.

**HTTP** (`Http*.dfy`, `JsonRpc.dfy`). What the client and server write, the functions that read it off a stream,
whole streams of messages, the format strings the replies are made with, and JSON-RPC requests and replies end to end.
`HttpHeaders` follows every header field from the sender into the reader's map, `HttpTexts` has the messages in the
characters sent, and `HttpReading` what the reading functions make of any line.

**Following the chain** (`Schedule.dfy`, `Following.dfy`). The task list and one pass of a worker over it, and the
main thread and both workers as interleaved steps.

## How it is modelled

A byte is 0 to 255; text is a sequence of bytes. Reading through a C string gives 0 behind the end. Code that works
step by step is a method with a loop, or a class whose methods change its fields, and each such method equates its
result or new state with a specification function; the laws are lemmas about these functions. The grammar and the
numeric rules are expressions in the source and functions here.

- `iswprint` is an arbitrary set of bytes, `printable`. Every theorem holds for every such set, except
  `EscapedIsRfcStringIff` and `PrintedIsRfcIff`, which say exactly which sets give strings and texts of RFC 8259, and
  `RequestText` and `ReplyText`, which take the letters of the member names to be printable.
- Strings are sequences of one-byte characters, as the writer takes them: a raw byte of a text is one character.
- A `double` is an exact real number: it stands for the decimal that is meant, so that 0.1 is a multiple of 10^-8 here,
  which the double next to it is not. Printing rounds to the nearest multiple of 10^-8, halves up. `Norm` is what text
  can carry of a value: reals on that grid, and the uint64 flag from 2^63 on. That this says something of doubles all
  the same is `NearGridPrintsGrid`: whatever is closer than half a unit to a decimal is printed as that decimal.
- The Spirit combinators are not part of the repository. They are taken as ordered choice; a character parser skips
  white space before and behind it, keywords, numbers and strings only before; `lex_escape_ch_p` is a
  character other than a backslash, or a backslash and its follower.
- A pointer into the value under construction is a path and the sizes that the vectors on the path had when the
  pointer was taken. It may be followed only while all of these sizes are unchanged, so the proofs do not rely on
  spare capacity in a vector. Going wrong (a failed assert, an empty stack popped, a stale pointer followed) is `None`.
- Actions do not influence the parse, so they are kept in a log in the order in which they fire, and fired in that order.
- Formatting one value is a parameter, `Printer`: its conversion to `int`, its text in a given stream state, and its
  characters when it is a C string.
- Date, version and user headers are any text without a line end. `MAX_SIZE` is 1000000.
- An error reply to the block count reads as 0. Interleaving is step by step, in any order, without fairness.

## What turned out

- The round trip of a value through text gives an equal value exactly when its reals, taken as the decimals they stand
  for, are multiples of 10^-8 (`RoundTrip`). A uint64 below 2^63 comes back without its flag, but equal and with the
  same `get_uint64` and `get_real` (`Uint64Fidelity`).
- The reader's language is known exactly (`AcceptsIff`). It is wider than the standard's: any white space of
  `isspace`, a plus sign, leading zeros, digits on one side of the point only, raw control characters, a backslash with
  any follower, and anything at all behind the value.
- Of the texts of RFC 8259 it accepts exactly those whose integers without point or exponent lie in [-2^63, 2^64), and
  gives the value denoted exactly when, besides, no `\u` escape goes above 00FF, since it keeps the low byte only
  (`RfcTextReadsIff`). `BigIntegerIsRefused` and `WideEscapeIsTruncated` are the two ways to fail.
- The fixed page of the 401 reply has exactly the 296 bytes it announces, so the framing result covers status 401 too.
- A request can be spoilt by its own caller: user headers come last, and a second Content-Length wins. It reads back
  if and only if the length announced in the end is the message's (`PostReadsBackIff`); `SpoiltRequest` is one that
  does not.
- Of any header only the last one with its name, in lower case and trimmed, is found, the caller's before the
  program's own; a connection field with another value than its two is overwritten (`HeadersArrive`).
- `%s` with a width above its precision cuts a `std::string` after it has been padded, so the padding may be what is
  left of it; it comes out as it should exactly when the width is not above the precision (`StringCutsRightIff`). A C
  string always does (`CStringPrints`).
- A `*` width of 0 is the same as a `0` in place, which is a flag, only where that flag changes nothing ('-' or '0' is
  there already) and no precision of an integer takes the place of the missing width (`StarZeroIsInlineIff`); `%*d` is
  one where it is not (`StarZeroIsNotInline`). A `*` precision is the one in place if and only if it is not negative,
  behind any width (`StarPrecisionIsInlineIff`).
- The heights processed have no gap from the stored blocks on exactly on a fresh database: a restart goes on from the
  row count plus one and passes over the height equal to the row count (`NoGapIffFresh`).
- Processed is not stored. All heights processed are stored if and only if no fetch of the run failed
  (`AllStoredIffNoFailure`), and a height whose fetch failed stays missing however the run goes on
  (`FailedFetchIsNotRepeated`); `AHeightCanBeMissed` is such a run.

## Model

| member | source | states |
|---|---|---|
| JsonValue.CastsAreInverse | src/json/json_spirit_value.h:274-280 | the casts between uint64 and int64 undo each other both ways |
| JsonValue.EqIffSameButFlags | src/json/json_spirit_value.h:311-318 | values are equal iff they are the same but for uint64 flags, at any depth |
| JsonEscape.AddEscChars | src/json/json_spirit_writer_template.h:63-92 | the loop appends, byte by byte, the short escape, the byte itself or its six-character form |
| JsonEscapeForms.EscapeConcat | src/json/json_spirit_writer_template.h:71-91 | a string is escaped piece by piece |
| JsonEscapeForms.EscapedForm | src/json/json_spirit_writer_template.h:18-88 | the piece of every character, in characters: seven two-character escapes, the character itself if printable, otherwise `\u00` and two upper-case hexadecimal digits |
| JsonEscapeForms.EscapedLength | src/json/json_spirit_writer_template.h:46-92 | a character takes two bytes, one or six |
| JsonEscapeForms.EscapeLeavesIff | src/json/json_spirit_writer_template.h:75-88 | a string stays as it is iff all its characters are printable and none has a two-character escape |
| JsonEscape.EscapedIsRfcString | src/json/json_spirit_writer_template.h:46-92 | the body of a printed string is a sequence of RFC 8259 `char`s when raw control characters are not printable |
| JsonEscape.EscapedIsRfcStringIff | src/json/json_spirit_writer_template.h:79-88 | that condition on `iswprint` is exact |
| JsonEscape.AppendEscChar | src/json/json_spirit_reader_template.h:84-120 | what one escape appends and where the iterator ends, never past the end; cut-off and unknown escapes append nothing |
| JsonEscapeForms.ShortEscapeReads | src/json/json_spirit_reader_template.h:95-102 | each two-character escape stands for its character |
| JsonEscapeForms.HexEscapeReads | src/json/json_spirit_reader_template.h:103-110 | `\x` and two hexadecimal digits of either case stand for the character with that code |
| JsonEscapeForms.UnicodeEscapeReads | src/json/json_spirit_reader_template.h:111-118 | `\u` and four digits stand for the character of the last two |
| JsonEscapeForms.OtherEscapesRead | src/json/json_spirit_reader_template.h:93-119 | any other character is dropped with its backslash, and what has no backslash stays |
| JsonEscapeForms.CutEscapesRead | src/json/json_spirit_reader_template.h:103-118 | an escape that is cut off gives nothing, and its digits stay |
| JsonEscape.SubstituteEscChars | src/json/json_spirit_reader_template.h:122-156 | for every input the copying loop stays inside it and computes the recursive `Unescape` |
| JsonEscape.EscapeRoundTrip | src/json/json_spirit_writer_template.h:28-92 | unescaping an escaped string gives it back, whatever counts as printable |
| JsonEscape.EscapeInjective | src/json/json_spirit_reader_template.h:122-156 | two strings never share an escaped form, even under different printable sets |
| JsonWriter.Generator.constructor | src/json/json_spirit_writer_template.h:109-115 | printing a value leaves its text in the stream and the level at 0 |
| JsonWriter.Generator.Output | src/json/json_spirit_writer_template.h:119-136 | appends the value's text at the current level and restores the level, at any nesting |
| JsonWriter.Generator.OutputArray | src/json/json_spirit_writer_template.h:177-201 | the same for an array with its brackets and lines |
| JsonWriter.Generator.OutputObject | src/json/json_spirit_writer_template.h:177-201 | the same for an object |
| JsonWriter.Generator.OutputElems | src/json/json_spirit_writer_template.h:184-196 | the loop prints all elements, a comma after each but the last |
| JsonWriter.Generator.OutputElem | src/json/json_spirit_writer_template.h:186-195 | one turn of that loop, the level left as it was |
| JsonWriter.Generator.OutputMembers | src/json/json_spirit_writer_template.h:184-196 | the loop prints all members, a comma after each but the last |
| JsonWriter.Generator.OutputMember | src/json/json_spirit_writer_template.h:186-195 | one turn of that loop, the level left as it was |
| JsonWriter.Generator.OutputPair | src/json/json_spirit_writer_template.h:148-153 | name, colon and value, spaced when pretty |
| JsonWriter.Generator.PutIndent | src/json/json_spirit_writer_template.h:203-211 | four spaces per level when pretty, nothing otherwise |
| JsonWriter.Generator.OutputString | src/json/json_spirit_writer_template.h:167-170 | the escaped string between quotation marks |
| JsonWriter.WriteString | src/json/json_spirit_writer_template.h:236-246 | the text of the value at level 0 |
| JsonCharacters.WordsPrint | src/json/json_spirit_writer_template.h:133-175 | true, false and null are printed as these words, which are also those of the grammar that is read |
| JsonCharacters.ArrayInCharacters | src/json/json_spirit_writer_template.h:177-221 | an array in characters, for any texts of its elements: brackets, commas, and when pretty a line for each, four spaces further in |
| JsonCharacters.ObjectInCharacters | src/json/json_spirit_writer_template.h:148-221 | the same for an object, with its names in quotation marks and colons, spaced when pretty |
| JsonCharacters.ScalarsInCharacters | src/json/json_spirit_writer_template.h:129-170 | a string between quotation marks; a real with its sign, its point and eight digits behind it |
| Bytes.DigitAt | src/json/json_spirit_writer_template.h:155-165 | a printed integer has, from the right, the decimal digit of each power of ten |
| JsonIndent.PrettyIsIndented | src/json/json_spirit_writer_template.h:177-221 | every line of a pretty text begins with exactly four spaces for each open bracket, and then no white space |
| JsonLayout.StripText | src/json/json_spirit_writer_template.h:119-221 | at any level and whatever follows, erasing white space outside strings turns either layout into the compact one |
| JsonLayout.PrettyIsCompactPlusSpace | src/json/json_spirit_writer_template.h:203-221 | the pretty text without white space outside strings is the compact text, for every value |
| JsonLex.StringLexesBack | src/json/json_spirit_reader_template.h:486-496 | the string rule takes exactly the printed literal, whatever follows it, and decodes to the string |
| JsonLex.IntLexesBack | src/json/json_spirit_reader_template.h:498-501 | a printed integer lexes back with its 64 bits, by the uint64 alternative from 2^63 on and the int64 one below |
| JsonLex.RealLexesBack | src/json/json_spirit_reader_template.h:498-501 | a printed real takes the first alternative and is the grid point it was rounded to |
| JsonLex.GridIsKept | src/json/json_spirit_writer_template.h:129-131 | a real survives printing exactly when it is a multiple of 10^-8 |
| JsonLex.GridIsNearest | src/json/json_spirit_writer_template.h:129-131 | what is printed is a nearest multiple of 10^-8 |
| JsonLex.NearGridPrintsGrid | src/json/json_spirit_writer_template.h:129-131 | a number closer than half a unit to a multiple of 10^-8 is printed as that multiple |
| JsonLex.StandInSurvives | src/json/json_spirit_writer_template.h:129-131 | for any rounding to the numbers there are, the number that stands for such a decimal comes back through text and rounding |
| JsonLex.ExponentLexesBack | src/json/json_spirit_reader_template.h:498-501 | a numeral with an exponent and no point is a real, scaled by that power of ten |
| JsonLex.ScaleUp | src/json/json_spirit_reader_template.h:499 | a non-negative exponent multiplies by the power of ten |
| JsonLex.ScaleDown | src/json/json_spirit_reader_template.h:499 | a negative exponent divides by the power of ten |
| JsonRoundTrip.TextParses | src/json/json_spirit_reader_template.h:446-501 | at any level, in either layout, the value rule on a printed value gives its normal form and stops behind it, whatever follows, unless that would prolong a number |
| JsonRoundTrip.NormKeepsIff | src/json/json_spirit_value.h:310-318 | the normal form is equal to the value under `operator==` exactly when all reals in it are on the grid |
| JsonRoundTrip.RoundTrip | src/json/json_spirit_reader_template.h:562-574 | reading what was written succeeds, uses the whole text, and gives an equal value exactly when the reals are on the grid |
| JsonRoundTrip.NormIsStable | src/json/json_spirit_reader_template.h:498-501 | the normal form of a normal form is itself |
| JsonRoundTrip.SecondTrip | src/json/json_spirit_reader_template.h:562-574 | what has been read once is printed and read back as it is, flags included, in any layout |
| JsonRoundTrip.TextDeterminesValue | src/json/json_spirit_writer_template.h:236-246 | values with the same text, in any two layouts, have the same normal form |
| JsonRoundTrip.Uint64Fidelity | src/json/json_spirit_value.h:392-420 | every uint64 comes back equal, with the same `get_uint64` and `get_real`, flagged exactly from 2^63 on |
| JsonNumerals.NumeralLexes | src/json/json_spirit_reader_template.h:498-501 | every numeral (a sign, digits on one side of the point at least, an exponent or none) is read as the number it denotes if it has a point or an exponent or fits int64, or uint64 without a sign, and is no number otherwise |
| JsonNumerals.NumberIsText | src/json/json_spirit_reader_template.h:498-501 | what the number rule takes is such a numeral, taken as far as it goes, read as the number it denotes |
| JsonNumerals.NumberAcceptsIff | src/json/json_spirit_reader_template.h:498-501 | so the rule matches iff such a numeral stands in front |
| JsonNumerals.StandardFits | src/json/json_spirit_reader_template.h:498-501 | for the numerals of section 6 of RFC 8259 fitting is lying in [-2^63, 2^64) |
| JsonLiterals.LiteralLexes | src/json/json_spirit_reader_template.h:486-496 | a literal whose backslashes each take a character with them is taken whole, whatever follows, and its body decoded |
| JsonLiterals.LexedIsLiteral | src/json/json_spirit_reader_template.h:486-496 | and the string rule takes nothing else |
| JsonLiterals.RfcCharsAreBody | src/json/json_spirit_reader_template.h:486-496 | the strings of section 7 of RFC 8259 are such literals |
| JsonLiterals.RfcUnescape | src/json/json_spirit_reader_template.h:122-156 | they decode to the low bytes of their character codes |
| JsonTexts.ValueReads | src/json/json_spirit_reader_template.h:450-501 | the value rule on any value of the reader's grammar, whatever follows that does not prolong a number: the value if its integers fit, no match for an integer alone that does not, a throw for a container with one |
| JsonTexts.DocumentReads | src/json/json_spirit_reader_template.h:446-534 | a whole text of that grammar is accepted iff its integers fit, with nothing but white space left |
| JsonTexts.ReadingDenotesIff | src/json/json_spirit_reader_template.h:84-120 | of a text of RFC 8259, what is read is what it denotes iff no character code in it is above 255 |
| JsonTexts.RfcTextReadsIff | src/json/json_spirit_reader_template.h:517-574 | a text of RFC 8259 is accepted iff its plain integers lie in [-2^63, 2^64), giving the value it denotes iff besides no escape is above 00FF, with nothing but white space left |
| JsonAccepted.ValueTakes | src/json/json_spirit_reader_template.h:450-484 | whatever the value rule takes is white space, a value of the grammar whose integers fit, read as that value, and white space |
| JsonAccepted.AcceptedIsDocument | src/json/json_spirit_reader_template.h:446-534 | whatever text is accepted has a text of the grammar in front, and is read as that text |
| JsonAccepted.DocumentIsAccepted | src/json/json_spirit_reader_template.h:446-534 | a text of the grammar with integers that fit is accepted whatever follows it, a number being taken as far as it goes |
| JsonAccepted.AcceptsIff | src/json/json_spirit_reader_template.h:446-574 | the reader's language exactly: both directions together |
| JsonRfcWriter.WrittenYieldsText | src/json/json_spirit_writer_template.h:119-221 | the printed text of any value, in either layout and at any level, taken apart by the grammar of section 2 of RFC 8259 |
| JsonRfcWriter.PrintedIsRfcIff | src/json/json_spirit_writer_template.h:236-246 | whatever is printed is a text of the standard iff `iswprint` rejects the control characters without a short escape |
| JsonBuilder.HeldPointersAreLive | src/json/json_spirit_reader_template.h:347-350 | no vector that the current pointer or a stacked pointer goes through has grown since it was taken; the current pointer is the root iff the stack is empty |
| JsonBuilder.PushExtendsChain | src/json/json_spirit_reader_template.h:329-345 | a push through the current pointer keeps the chain of last children and its new element prolongs it |
| JsonBuilder.AddKeepsInv | src/json/json_spirit_reader_template.h:329-345 | adding to a started value is defined exactly on containers and keeps the invariant |
| JsonBuilder.BeginKeepsInv | src/json/json_spirit_reader_template.h:302-317 | opening a container keeps the invariant, the old current pointer going on the stack |
| JsonBuilder.EndKeepsInv | src/json/json_spirit_reader_template.h:319-327 | closing one is always defined: the stack is not empty when it is popped |
| JsonBuilder.StepKeepsInv | src/json/json_spirit_reader_template.h:212-345 | every action keeps "stack and current pointer are the chain of last children", and is defined exactly where the source's asserts hold |
| JsonBuilder.RunKeepsInv | src/json/json_spirit_reader_template.h:212-353 | so does every run |
| JsonBuilder.Builds | src/json/json_spirit_reader_template.h:329-345 | in any open container the actions of a tree append that tree under the register's name and return to the same place, at any depth |
| JsonBuilder.BuildsElems | src/json/json_spirit_reader_template.h:335-340 | and those of a list of trees append the list |
| JsonBuilder.BuildsMembers | src/json/json_spirit_value.h:118-123 | and those of named trees append the members with their own names, duplicates included |
| JsonBuilder.BuildsTree | src/json/json_spirit_reader_template.h:206-353 | from the start, the actions of a tree build that tree, with an empty stack and the current pointer on the root |
| JsonActions.SemanticActions.constructor | src/json/json_spirit_reader_template.h:206-210 | the machine starts without current pointer, stack or name |
| JsonActions.SemanticActions.AddFirst | src/json/json_spirit_reader_template.h:293-300 | the first value becomes the root |
| JsonActions.SemanticActions.AddToCurrent | src/json/json_spirit_reader_template.h:329-345 | the fields afterwards and the pointer returned are those of the specification |
| JsonActions.SemanticActions.BeginCompound | src/json/json_spirit_reader_template.h:302-317 | likewise for opening |
| JsonActions.SemanticActions.EndCompound | src/json/json_spirit_reader_template.h:319-327 | likewise for closing |
| JsonActions.SemanticActions.SetName | src/json/json_spirit_reader_template.h:240-245 | only the name register changes |
| JsonActions.SemanticActions.Fire | src/json/json_spirit_reader_template.h:212-286 | likewise for every action |
| JsonActions.SemanticActions.FireAll | src/json/json_spirit_reader_template.h:212-286 | likewise for a whole log |
| JsonGrammar.NumberRefines | src/json/json_spirit_reader_template.h:498-502 | of the three alternatives exactly the one that matches fires, with the plain rule's value |
| JsonGrammar.ValueRefines | src/json/json_spirit_reader_template.h:450-458 | the value rule with actions does what the plain rule does; a quiet failure has fired nothing, a match exactly the tree's actions, a throw a prefix of some tree's actions |
| JsonGrammar.ObjectRefines | src/json/json_spirit_reader_template.h:460-464 | the same for objects |
| JsonGrammar.MembersRefine | src/json/json_spirit_reader_template.h:466-468 | the same for the member list |
| JsonGrammar.MorePairsRefine | src/json/json_spirit_reader_template.h:467 | the same for the repetition behind the first pair; a comma without a pair is given back |
| JsonGrammar.PairRefines | src/json/json_spirit_reader_template.h:470-474 | the same for a pair, whose name fires before its colon is seen |
| JsonGrammar.ArrayRefines | src/json/json_spirit_reader_template.h:476-480 | the same for arrays |
| JsonGrammar.ElementsRefine | src/json/json_spirit_reader_template.h:482-484 | the same for the element list |
| JsonGrammar.MoreValuesRefine | src/json/json_spirit_reader_template.h:483 | the same for the repetition behind the first element |
| JsonGrammar.JsonRefines | src/json/json_spirit_reader_template.h:446-534 | for every input the start rule matches or throws; the actions fired are defined on the machine, and on a match they are the parsed tree's and build it |
| JsonGrammar.ReadString | src/json/json_spirit_reader_template.h:517-574 | succeeds exactly when the plain parser does, with its value and stop; otherwise leaves the value as far as it was built; the final `assert(false)` is unreachable |
| JsonCharacters.WordsRead | src/json/json_spirit_reader_template.h:450-458 | the words true, false and null read as their values behind any white space, whatever follows |
| JsonCharacters.CharactersRead | src/json/json_spirit_reader_template.h:460-484 | arrays and objects in characters, in either layout, read as the normal form of their values |
| JsonCharacters.GrammarInCharacters | src/json/json_spirit_reader_template.h:460-484 | the arrays and objects of the reader's grammar have brackets, commas and colons, for any items and white space |
| JsonCharacters.LexemesInCharacters | src/json/json_spirit_reader_template.h:486-502 | and its strings quotation marks, its numerals signs, digits, a point and `e` or `E` |
| JsonErrors.MissingValueThrows | src/json/json_spirit_reader_template.h:446-474 | where no value begins, "not a value" is thrown at that place, for a text and behind a name |
| JsonErrors.MissingColonThrows | src/json/json_spirit_reader_template.h:470-473 | a name without a colon throws "no colon in pair" where the colon should be |
| JsonErrors.WrongBracketThrows | src/json/json_spirit_reader_template.h:460-480 | an array or object closed by the other bracket throws its own complaint at that bracket |
| FormatSpec.ParseIntAndAdvance | src/tinyformat.h:493-499 | the number of the digit run at a position, and the position behind it |
| FormatSpec.ParseFlags | src/tinyformat.h:679-724 | resets the stream and applies the flags in order |
| FormatSpec.FlagsBySet | src/tinyformat.h:690-724 | after any sequence of flags the setting is a function of which flags occur: '-' overrides '0', '+' overrides space |
| FormatSpec.FlagsAreOrderFree | src/tinyformat.h:690-724 | order and repetition of flags never matter |
| FormatSpec.ParseWidth | src/tinyformat.h:725-744 | width from digits or from the star value, a negative one as left adjustment |
| FormatSpec.ParsePrecision | src/tinyformat.h:745-765 | precision from digits or from the star value, zero for a negative numeral |
| FormatSpec.SetConversion | src/tinyformat.h:773-829 | the stream flags of each conversion character, and its error |
| FormatSpec.StreamStateFromFormat | src/tinyformat.h:668-841 | the loops together leave the stream, extra flags, end position and error of the staged `ParseSpec` |
| FormatMeaning.SpecificationMeans | src/tinyformat.h:668-841 | every specification without stars, by its characters: refused for %a, %A, %n and a NUL, otherwise width, precision, fill, adjustment, base, notation and flags are a function of these characters alone, whatever the stream was |
| FormatStar.ReparseAgrees | src/tinyformat.h:589-618 | discovery parse and re-parse agree on end, conversion, error and extra flags, whatever the stream and the values |
| FormatStar.UnusedValues | src/tinyformat.h:616-617 | a value is looked at only for a star that is there, and of the old stream only the untouched flags matter |
| FormatStar.StarWidthIsInline | src/tinyformat.h:725-744 | a star width w != 0 leaves the stream state of the digits written in place, with a '-' flag when negative |
| FormatStar.StarZeroIsInlineIff | src/tinyformat.h:699-839 | behind any flags, a star width 0 leaves the state of a `0` in place iff '-' or '0' is among the flags and no integer precision acts as the width (or it is zero and '-' is not there); what follows begins with no digit, star or flag |
| FormatStar.StarPrecisionIsInlineIff | src/tinyformat.h:745-765 | behind any flags and any width (digits, star or both), a star precision leaves the state of the digits in place if and only if it is not negative |
| FormatStar.StarsAreInlineIff | src/tinyformat.h:725-765 | the same for both stars at once and both numbers in place, for a width that is not 0 |
| FormatStarText.StarsPrintAsNumbers | src/tinyformat.h:583-657 | `%*.*` with a width that is not 0 and a precision that is not negative formats as the two numbers in place, and goes on in the same way |
| Format.PrintFormatStringLiteral | src/tinyformat.h:533-553 | prints the literal up to the next specification, `%%` as `%` |
| Format.LiteralReadsBack | src/tinyformat.h:533-553 | every text, its percent signs doubled, is printed exactly, whatever follows |
| Format.FormatIterator.constructor | src/tinyformat.h:454-466 | a fresh machine that remembers the stream's state |
| Format.FormatIterator.Print | src/tinyformat.h:620-654 | one value, directly or by way of the temporary stream |
| FormatStrings.PutStringJustifies | src/tinyformat.h:652-653 | a string in its field, on the left or on the right, filled up to the width, which is used up |
| FormatStrings.CStringPrints | src/tinyformat.h:620-654 | a C string is cut to its precision and then justified |
| FormatStrings.StringPrints | src/tinyformat.h:620-654 | any other string is justified first and then cut |
| FormatStrings.StringCutsRightIff | src/tinyformat.h:636-653 | so it comes out as a C string would iff there is no precision or the width is not above it |
| FormatStrings.SpaceFlagPrints | src/tinyformat.h:631-648 | the space flag shows plus signs as spaces, of a value that fills its field |
| Format.FormatIterator.Accept | src/tinyformat.h:583-657 | one argument: discover, feed a star, or read again and print |
| Format.FormatIterator.TakeStar | src/tinyformat.h:599-613 | a star takes its value, the width's first; an argument that is no integer is an error |
| Format.FormatIterator.EmitValue | src/tinyformat.h:620-656 | prints the value and goes on behind its specification, the extra flags cleared |
| Format.FormatIterator.Finish | src/tinyformat.h:469-476 | prints the last literal; a specification left over is an error |
| Format.FormatIterator.Restore | src/tinyformat.h:478-485 | the stream's state is the remembered one |
| FormatRefinement.MachineRefines | src/tinyformat.h:583-657 | for every format string, argument list and stream, the resumable machine gives the text and error of reading the string specification by specification |
| FormatRefinement.SucceedsIff | src/tinyformat.h:583-657 | formatting succeeds iff there are as many arguments as specifications plus stars, every specification is supported and every star argument converts |
| FormatRefinement.FormatTo | src/tinyformat.h:853-882 | the whole call: that text and error, and the stream state restored on success and error alike |
| Base64.EncodeBase64 | src/utils.cpp:91-135 | the bit-carrying loop computes the 24-bit-group encoding of RFC 4648, with exactly (len+2)/3*4 characters |
| Base64Alphabet.EncodedCharacter | src/utils.cpp:91-135 | character k is the one that stands in the alphabet, written out, at the number of the bits 6k to 6k+5, zeros behind the end; from the last bit on it is `=` |
| Base64.GroupSextets | src/utils.cpp:104-123 | the four 6-bit values of 24 bits, octet by octet |
| Base64.EncoderBits | src/utils.cpp:104-123 | the shifts, masks and ors of the encoder give these values |
| Base64.OrDisjoint | src/utils.cpp:113-120 | bits that do not meet add up under or |
| Base64.DecodeBase64 | src/utils.cpp:142-223 | the octets of the leading alphabet run, k*3/4 of them for k characters, and the flag when it is asked for, for valid and invalid inputs alike |
| Base64Alphabet.RunIsLongest | src/utils.cpp:144-168 | what is decoded is the longest run of characters of that alphabet, by their places in it |
| Base64Alphabet.DecodesLongestRun | src/utils.cpp:166-199 | the octets are the bits of these places one after the other, as many as fill octets |
| Base64.OctetsOfSextets | src/utils.cpp:170-199 | decoding the 6-bit values of an octet string gives it back, with nothing left over |
| Base64.SextetsOfOctets | src/utils.cpp:170-199 | conversely, 6-bit values with nothing left over are those of the octets they decode to |
| Base64.AcceptsIffCanonical | src/utils.cpp:201-220 | the flag stays false iff the input begins with the encoding of some octets (its alphabet part the whole leading run, no alphabet character behind its padding), and these octets are the decoded ones |
| Base64.Base64RoundTrip | src/utils.cpp:91-223 | every octet string decodes from its encoding, with the flag false |
| Http.Stream.GetLine | src/rpcprotocol.cpp:157-158 | takes the text before the first line feed, and the line feed |
| Http.Stream.Read | src/rpcprotocol.cpp:195-197 | takes n bytes, filled up with zeros at the end of the stream |
| Http.Stream.ReadHTTPHeaders | src/rpcprotocol.cpp:152-176 | the loop is the line-by-line `ReadHead`: later fields win, lines without a colon are dropped |
| Http.Stream.ReadHTTPMessage | src/rpcprotocol.cpp:179-212 | code, fields, body and what is left of the stream, the connection field settled |
| Http.Stream.ReadHTTPStatus | src/rpcprotocol.cpp:137-150 | code and protocol, the latter untouched by a line without a space |
| Http.Stream.ReadHTTPRequestLine | src/rpcprotocol.cpp:102-135 | method, URI and protocol, as far as the line is acceptable |
| HttpReading.WordsAreSplit | src/rpcprotocol.cpp:109-110 | splitting a line on spaces is the inverse of joining words without spaces, both ways |
| HttpReading.RequestAcceptedIff | src/rpcprotocol.cpp:111-134 | a request line is accepted iff its first word is GET or POST and its second begins with a slash |
| HttpReading.OneWordIsRefused | src/rpcprotocol.cpp:111-144 | a line of one word is neither a request line nor a status line |
| HttpReading.VersionIs | src/rpcprotocol.cpp:129-148 | the version is the number behind the first mark in front of any NUL, and 0 without one |
| HttpReading.AtoiReads | src/rpcprotocol.cpp:148-149 | a number is read behind white space and a sign or none, up to the first character that is no digit |
| HttpReading.AtoiReadsNothing | src/rpcprotocol.cpp:148-149 | without a digit there it is 0 |
| HttpReading.LowerIs | src/rpcprotocol.cpp:167 | capital letters become the small ones in the same place, and nothing else changes |
| HttpFraming.HeadReadsBack | src/rpcprotocol.cpp:152-176 | any header lines and an empty line are taken one by one, and nothing behind them |
| HttpFraming.StatusLineReadsBack | src/rpcprotocol.cpp:137-150 | any status code, known or not, reads back from its status line, with protocol 1 |
| HttpFraming.ReplyReadsBackIff | src/rpcprotocol.cpp:58-100 | a reply followed by anything reads back as its status, connection and body, stopping at the first byte behind it, if and only if its body is at most MAX_SIZE; otherwise the code is 500 |
| HttpFraming.UnauthorizedReadsBack | src/rpcprotocol.cpp:60-76 | the same for the 401 page |
| HttpFraming.StreamReadsBackIff | src/rpcprotocol.cpp:58-212 | any list of replies (date and version without a line end) on one stream is read back as that list, what follows untouched, if and only if every body fits |
| HttpFormat.FormatsInTurn | src/tinyformat.h:853-882 | a format string of bare %d, %s, %u gives its literals and the printed arguments in turn, whatever state each argument leaves the stream in |
| HttpFormat.FormattedReply | src/rpcprotocol.cpp:84-99 | the interpreter on the reply's format string and arguments gives the reply of the framing results, without error |
| HttpFormat.FormattedUnauthorized | src/rpcprotocol.cpp:61-76 | the same for the 401 page |
| HttpRequests.RequestLineReadsBack | src/rpcprotocol.cpp:39 | the request line reads back as POST, / and protocol 1 |
| HttpRequests.PostReadsBackIff | src/rpcprotocol.cpp:36-51 | a request with any user headers reads back exactly, up to the first byte behind it, if and only if the last announced length is the message's and at most 1000000 |
| HttpRequests.WithoutCustomLength | src/rpcprotocol.cpp:46-47 | which is so when no user header reads as Content-Length |
| HttpTexts.PostText | src/rpcprotocol.cpp:36-51 | the whole text of a request, in characters |
| HttpTexts.StatusLines | src/rpcprotocol.cpp:77-94 | the first line of a reply for every status code, in characters |
| HttpHeaders.HeaderReadsBack | src/rpcprotocol.cpp:161-170 | any header, its name with or without a colon, is found under its trimmed lower-case name with its trimmed value |
| HttpHeaders.HeadersArrive | src/rpcprotocol.cpp:46-47 | every header of the caller's is in the reader's map unless a later one has its name; a connection field ends as one of its two values |
| HttpHeaders.OwnHeadersArrive | src/rpcprotocol.cpp:39-45 | so is each of the program's own, with its value, unless the caller's have its name |
| HttpHeaders.NothingElseArrives | src/rpcprotocol.cpp:152-176 | and nothing else is in it |
| HttpHeaders.ReplyHeadersArrive | src/rpcprotocol.cpp:58-100 | the header of a reply, read back, is exactly its five fields, and of the 401 page its five and a closed connection |
| JsonRpc.ReplyArrivesIff | src/rpcprotocol.cpp:233-249 | a JSON-RPC reply of any result, error and id, under a status other than 401, is taken off the stream iff its text has at most 1000000 bytes; looking up "result" in it then gives the result, or null if there is an error, and "error" and "id" what was sent, up to what text can carry |
| JsonRpc.RequestArrivesIff | src/rpcprotocol.cpp:224-231 | a request under any headers is taken off the stream exactly iff they announce its length, at most 1000000; looking up "method", "params" and "id" in it then gives the name, the parameters and the id, up to what text can carry, and there is no fourth member |
| JsonRpc.FindValue | src/json/json_spirit_utils.h:46-58 | the value of the first member with a name, or null |
| JsonRpc.RequestText | src/rpcprotocol.cpp:224-231 | the text of a request, in characters |
| JsonRpc.ReplyText | src/rpcprotocol.cpp:233-249 | the text of a reply, in characters |
| Schedule.CallGenesis | src/taskschedule.cpp:17-46 | processes 0 up to the top, in order, and leaves the top as the copy's height |
| Schedule.CallFollower | src/taskschedule.cpp:66-93 | waits below the wanted height, otherwise processes it and sets height and status |
| Schedule.TaskSchedule.RegisterTask | src/taskschedule.cpp:177-185 | appends a task under a new number, keeps numbers distinct, and the task is found under it |
| Schedule.TaskSchedule.GetTask | src/taskschedule.cpp:191-204 | the first task with the number, or the last one looked at |
| Schedule.FindsRegistered | src/taskschedule.cpp:177-204 | a registered task is found wherever it stands in the list |
| Schedule.TaskSchedule.WorkPass | src/taskschedule.cpp:118-144 | each task is called on a copy and only its height is written back, plus one after a success; the heights processed, in list order |
| Schedule.TaskSchedule.Call | src/taskschedule.cpp:10-99 | a call by the task's kind: the copy afterwards and the heights processed |
| Following.StepKeepsInv | src/taskschedule.cpp:110-149 | every step of either thread keeps the system invariant |
| Following.RunKeepsInv | src/taskschedule.cpp:110-149 | so does every run |
| Following.ProcessedInOrder | src/taskschedule.cpp:66-93 | on every interleaving the heights processed are consecutive, without gap or repeat, and none is above the tip just read, error replies included |
| Following.HandoverIsComplete | src/main.cc:77-120 | when the follower is registered the genesis pass is over and every height below the one handed over is processed |
| Following.NoGapIffFresh | src/main.cc:63-96 | there is no gap behind the stored blocks iff the database was empty; a restart never processes the height equal to the row count |
| Following.FailedFetchIsNotRepeated | src/taskschedule.cpp:78-91 | a processed height is stored, then and after any further run, iff its one fetch gave a block |
| Following.AllStoredIffNoFailure | src/taskschedule.cpp:32-91 | every height up to the next one is stored iff no fetch of the run failed |
| Following.FollowerProgresses | src/taskschedule.cpp:66-93 | when the count reaches the next height, one round processes exactly that height |
| Following.FollowerWaits | src/taskschedule.cpp:72-77 | otherwise, an error reply included, a round changes nothing |
| Following.GenesisStepsAreTheCall | src/taskschedule.cpp:17-46 | the genesis worker's steps, run through, do what the call and the write-back do, whichever fetches fail |
| Following.FollowerStepsAreThePass | src/taskschedule.cpp:124-142 | a round of the follower's steps does what one pass of the worker's loop does |

## Left out

- Sockets, TLS, `CallRPC`, the database and its SQL, configuration, logging, signals: calls into code outside these algorithms.
- Field copying between RPC replies and table rows (`switchTx`, `switchBk` and the like): easy members without a property of their own.
- IEEE doubles: overflow, infinities, not-a-number, negative zero, and digits beyond what a double holds.
- JsonLex.RealLexesBack: gives the decimal printed, not the double that the reader's arithmetic computes for it; the same holds of what follows from it.
- JsonLex.GridIsKept: speaks of the decimal a double stands for (see `NearGridPrintsGrid`).
- JsonLex.GridIsNearest: likewise; at an exact tie the model rounds up, whatever the C++ library does.
- JsonLex.ExponentLexesBack: scales exactly, where the reader multiplies doubles.
- JsonLex.ScaleUp: exact, where the reader multiplies by a double power of ten.
- JsonLex.ScaleDown: exact, where the reader divides by a double power of ten.
- JsonRoundTrip.NormKeepsIff: its grid condition is on the decimals that doubles stand for.
- JsonRoundTrip.RoundTrip: likewise.
- JsonNumerals.NumeralLexes: reads a real as the exact decimal, however many digits and however large an exponent it has.
- JsonRoundTrip.TextParses: gives a real as the exact decimal printed.
- JsonTexts.ValueReads: likewise for the reals in a value.
- JsonTexts.RfcTextReadsIff: likewise; a number too large for a double is accepted here as the number it is.
- Error positions of the reader (line and column), multi-pass and wide-string readers, `Config_map` objects.
- FormatSpec.ParseIntAndAdvance: does not model `int` overflow, nor do `atoi` and the negation of a star width: numbers are unbounded there.
- The overloads of the Base64 functions on `std::string`, which only pass on.
- Format.FormatIterator.Print: takes the text of a value, `%c` and `%p` conversions included, from `Printer`, and a write of a negative length prints nothing, without the stream's error bit.
- Bits of a C++ `int`: shifts, masks and ors are modelled on non-negative numbers, as they occur.
- Format.FormatIterator.Restore: sets the whole modelled state back at once, field by field in the source.
- HttpHeaders.HeadersArrive: takes the caller's headers as a list, in the order in which its map gives them.
- HttpFormat.FormattedReply: covers the two format strings of `HTTPReply`, under the assumption that each argument prints what its type's output operator prints without width and flags.
- Http.Stream.Read: has no fields for the stream's error bits. They are set only once the data is used up, and from then on the source's reads give what reads of an empty stream give here.
- Following.ProcessedInOrder: says which heights are processed, not that each is stored; a failed fetch is processed and not stored.
- Schedule.CallFollower: does not set the block time, which only adjusts the waiting time.
- Schedule.TaskSchedule.Call: knows the genesis and the follower task only; no other kind is ever registered.
- Sleeping and the adjustment of the waiting time in `work`, and exceptions out of an RPC call, which end a run.
- Schedule.CallGenesis: heights are unbounded; the source keeps them in 64 and then 32 bits.
