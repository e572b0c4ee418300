# Relic prototype: verified models

FIO.Relic records the traces of a chain into a database. Its prototype stands on
a vendored JSON engine (RapidJSON), a small plugin runtime and an ingest writer.
This project models the state machines and the exact arithmetic of those parts
in Dafny and proves what they promise. `dafny verify dfyconfig.toml` checks it all.

The modules share one vocabulary, `Json.dfy`: trees, the events that a tree
generates, and options.

| file | part of the system |
|---|---|
| `Schema.dfy`, `SchemaMeaning.dfy`, `SchemaCompile.dfy`, `SchemaValidator.dfy` | the streaming schema validator: its step as a function, its agreement with the recursive meaning of the keywords (JSON Schema validation draft-04, sections 5.3 to 5.5), the property list that a schema is compiled into, and the validator as a tree of objects |
| `Reader.dfy`, `IterativeReader.dfy`, `GenericReader.dfy` | both JSON parsers as functions, their agreement, and the reader as an object that changes step by step |
| `Grammar.dfy`, `ParseErrors.dfy` | the grammar of JSON texts with the trees they denote (RFC 8259, and comments), that the parsers accept exactly it, and what a reported error says of the text |
| `Arithmetic.dfy`, `BigInteger.dfy` | decimal numerals and the multi-limb integers, changed in place |
| `PrettyWriter.dfy`, `PrintParse.dfy` | the pretty printer, and printing followed by parsing |
| `Document.dfy`, `MembersMap.dfy`, `FilterKey.dfy` | stored integers, building trees from events, the name index of objects, the filter-key handler |
| `Texts.dfy`, `Encodings.dfy`, `Pointer.dfy`, `Fragment.dfy`, `PointerTree.dfy` | UTF-8 and UTF-16 (RFC 3629, RFC 2781), JSON Pointer (RFC 6901), when a fragment means its decoded text, and what a pointer does to trees |
| `Allocator.dfy` | the memory pool and its shared handles |
| `AsyncParser.dfy` | the parser fed part by part by another thread |
| `Writer.dfy` | the ingest writer over committed and working tables |
| `Plugins.dfy` | the plugin life cycle |

What the source changes in place is a class here, whose methods are proved
against functions on values; the main theorems are lemmas about those functions.

## Where the code departs from what is promised

- An empty tuple `items: []` behaves as an absent keyword: allocating no bytes gives a null pointer, which is the mark of absence. A missing required property passes if its schema has a non-empty string default. A name that only `required` or `dependencies` mention enters the property list, so it is not an additional property. All three are kept; draft-04 says otherwise. `TupleAgreement`, `RequiredAgreement` and `PropertiesAgreement` say exactly when the two differ, `EmptyTupleIsIgnored`, `DefaultStandsIn` and `RequiredNameSlipsThrough` give inputs.
- `BigInteger::Difference` loses a borrow that meets an all-ones limb (internal/biginteger.h, line 204). `Difference` says exactly when the result is right, `BorrowIsLost` and `DifferenceTooLarge` give operands.
- `BigInteger::operator<<=` writes one limb above the top before it knows whether it is needed; the assertion on line 138 also admits a shift for which there is no such limb. `ShiftStaysInside` says exactly when there is room, which the precondition of `ShiftLeft` asks for; `ShiftPastTheEnd` is an instance.
- Index tokens of a JSON Pointer that do not fit 32 bits are not always refused (pointer.h, line 1031): `OversizedIsRefused` says exactly when they are, `WrappedIndex` gives one that is accepted.
- Creating a value past the end of an array pads it with nulls, so other pointers begin to resolve: `CreateKeeps` says exactly which, `PaddingResolves` gives one.
- A URI fragment is not decoded before it is read as a pointer, as section 6 of RFC 6901 has it. `FragmentMeansItsDecodedText` says exactly when the result is the same. It differs in three ways: an encoded solidus does not end a token (`EncodedSolidus`), an escape whose second character is encoded is refused (`EncodedTilde`), and so is a raw character that the parser wants encoded, such as `!` or `:` (`RawReserved`).
- Among the texts of the JSON grammar, numbers with large positive exponents are refused even if their value is zero (`ZeroIsTooBig`), and so are unpaired surrogates (`LoneSurrogate`).
- The two parsers report different errors, and only then, for a root that starts with a closing bracket, a comma or a colon.
- The writer answers a fork without removing anything while it is catching up with irreversible blocks (Writer.cpp, line 291): `ForkRemoves` is exact, `ForkWhileCatchingUp` gives a run. An acknowledged trace may then have the row of another trace that had its number: `OwnRowsCommitted` says exactly when it has its own, `StaleRowIsCommitted` gives a run.
- The parser reports a non-negative integer as unsigned, while a document sends it as signed if it fits; `PrintedParses` is stated up to this, and `BuildReread` shows that a document cannot tell.

## Model

| member | source | states |
|---|---|---|
| `SchemaMeaning.FeedValue` | prototype/externals/rapidjson/include/rapidjson/schema.h:2800-2892 | From any state of the validator in which a value may begin, feeding the events of any tree leaves it valid if and only if the enclosing value admits a value there and the tree satisfies, by the recursive meaning of the keywords, the schema chosen for it; the stack is then the one before, and every sub-validator of every enclosing context has been fed exactly these events |
| `SchemaMeaning.DocumentVerdict` | prototype/externals/rapidjson/include/rapidjson/schema.h:2842-2892 | A fresh validator fed a whole document is valid if and only if the document satisfies the root schema; its stack ends empty, as it began |
| `SchemaMeaning.RejectionIsFinal` | prototype/externals/rapidjson/include/rapidjson/schema.h:2800-2802 | Once a validator has failed, no events make it valid again |
| `SchemaMeaning.EndValueMeaning` | prototype/externals/rapidjson/include/rapidjson/schema.h:944-985 | If the sub-validators have the verdicts that their schemas deserve, the end of a value passes if and only if allOf, anyOf, oneOf (exactly one) and not are met |
| `SchemaMeaning.EndObjectMeaning` | prototype/externals/rapidjson/include/rapidjson/schema.h:1157-1203 | With the properties marked that are present, the end of an object passes if and only if required, the property counts and both kinds of dependencies are met; a missing required property with a non-empty string default passes |
| `SchemaMeaning.DependencyVerdict` | prototype/externals/rapidjson/include/rapidjson/schema.h:1488-1494 | The validator index of a schema dependency is that of its own schema among all sub-validators |
| `SchemaMeaning.SubVerdicts` | prototype/externals/rapidjson/include/rapidjson/schema.h:1460-1506 | The sub-validators made when a value begins have, when it ends, the verdicts that the value deserves under their schemas |
| `SchemaMeaning.FeedElements` | prototype/externals/rapidjson/include/rapidjson/schema.h:867-897 | Inside an array, the elements are admitted if and only if each one is allowed at its index and satisfies the list, tuple or additional-items schema for that index |
| `SchemaMeaning.FeedMembers` | prototype/externals/rapidjson/include/rapidjson/schema.h:1104-1155 | Inside an object, the members are admitted if and only if each name is allowed and each value satisfies the schema for that name; exactly the properties that occur are marked |
| `SchemaMeaning.PresentByName` | prototype/externals/rapidjson/include/rapidjson/schema.h:1509-1520 | With distinct property names, a property is marked present if and only if some member has its name |
| `SchemaMeaning.TupleAgreement` | prototype/externals/rapidjson/include/rapidjson/schema.h:757-767 | The compiled `items` and `additionalItems` admit the same elements as draft-04, section 5.3.1, if and only if it is not the case that the tuple is empty and an element fails what is asked of additional items |
| `SchemaMeaning.EmptyTupleIsIgnored` | prototype/externals/rapidjson/include/rapidjson/schema.h:762-765 | An array that draft-04 refuses and the validator admits |
| `SchemaMeaning.RequiredAgreement` | prototype/externals/rapidjson/include/rapidjson/schema.h:1159-1167 | Required properties are checked as in draft-04 if and only if it is not the case that some are missing and all missing ones have non-empty string defaults |
| `SchemaMeaning.DefaultStandsIn` | prototype/externals/rapidjson/include/rapidjson/schema.h:1159-1167 | An object that draft-04 refuses and the validator admits |
| `SchemaMeaning.TypelessAdmits` | prototype/externals/rapidjson/include/rapidjson/schema.h:549-563 | A schema without keywords admits exactly the trees whose member and element counts fit 32 bits |
| `SchemaCompile.CompiledRequired` | prototype/externals/rapidjson/include/rapidjson/schema.h:657-680 | With the property list compiled from the keywords `properties`, `required` and `dependencies`, `required` is met if and only if every name it lists is the name of a member or has a schema in `properties` with a non-empty string default |
| `SchemaCompile.CompiledPropertyDependencies` | prototype/externals/rapidjson/include/rapidjson/schema.h:719-735 | The compiled dependencies on properties are met if and only if, for each such entry whose name some member has, all names it lists are names of members |
| `SchemaCompile.CompiledSchemaDependencies` | prototype/externals/rapidjson/include/rapidjson/schema.h:736-741 | The compiled dependencies on schemas are met if and only if the object satisfies the schema of each such entry whose name some member has |
| `SchemaCompile.PropertiesAgreement` | prototype/externals/rapidjson/include/rapidjson/schema.h:646-690 | The compiled list admits the same members of an object as draft-04, section 5.4.4, if and only if it is not the case that a member whose name only `required` or `dependencies` mention fails what is asked of additional properties, while all members with other names are in order |
| `SchemaCompile.AgreesEverywhere` | prototype/externals/rapidjson/include/rapidjson/schema.h:646-690 | It agrees with draft-04 on all objects if and only if `properties` has all names that `required` and `dependencies` mention, or every value passes as an additional property |
| `SchemaCompile.RequiredNameSlipsThrough` | prototype/externals/rapidjson/include/rapidjson/schema.h:657-680 | An object that draft-04 refuses and the validator admits |
| `SchemaValidator.Validate` | prototype/externals/rapidjson/include/rapidjson/schema.h:2800-2892 | The validator as objects, run over the events of a tree, answers true if and only if the tree satisfies the schema |
| `SchemaValidator.GenericSchemaValidator.Handle` | prototype/externals/rapidjson/include/rapidjson/schema.h:2826-2892 | One event changes the tree of validator objects exactly as the step on values does, and the result is the valid flag |
| `SchemaValidator.GenericSchemaValidator.PassDown` | prototype/externals/rapidjson/include/rapidjson/schema.h:2810-2820 | Every sub-validator of every context gets the event once; the contexts themselves do not change |
| `SchemaValidator.GenericSchemaValidator.BeginValue` | prototype/externals/rapidjson/include/rapidjson/schema.h:2981-3012 | The top context chooses the schema of the next value, or refuses it |
| `SchemaValidator.GenericSchemaValidator.Finish` | prototype/externals/rapidjson/include/rapidjson/schema.h:3014-3055 | The end checks use the verdicts of the top context only; the context is popped or the validator fails |
| `SchemaValidator.GenericSchemaValidator.CreateSchemaValidators` | prototype/externals/rapidjson/include/rapidjson/schema.h:1503-1506 | One fresh sub-validator per schema, in the order of the validator indices, with state shared with no other |
| `SchemaValidator.FlatParallel` | prototype/externals/rapidjson/include/rapidjson/schema.h:2810-2820 | Passing an event to every context is passing it once to each sub-validator of the whole stack |
| `IterativeReader.ParsersAgree` | prototype/externals/rapidjson/include/rapidjson/reader.h:2192-2224 | On every text and with every combination of the flags modelled, the table-driven parser gives the same events, counts, and the same end position or error as recursive descent; the only exception is that it reports an empty document where the root starts with one of `] } , :` |
| `IterativeReader.RunValue` | prototype/externals/rapidjson/include/rapidjson/reader.h:2011-2160 | From any state in which a value may begin and with any stack below, the table-driven loop goes through one whole value and comes out with what recursive descent makes of it |
| `IterativeReader.RunElementsRest` | prototype/externals/rapidjson/include/rapidjson/reader.h:808-853 | After an element, the loop with its counter on the stack goes on as the loop of `ParseArray` does |
| `IterativeReader.RunMembersRest` | prototype/externals/rapidjson/include/rapidjson/reader.h:740-805 | After a member, the loop with its counter on the stack goes on as the loop of `ParseObject` does |
| `IterativeReader.Transit` | prototype/externals/rapidjson/include/rapidjson/reader.h:2011-2160 | Every transition that is not an error takes at least one character, so the loop ends |
| `JsonGrammar.ParsersAcceptGrammar` | prototype/externals/rapidjson/include/rapidjson/reader.h:559-590 | Both parsers accept a text if and only if it is in the JSON grammar (RFC 8259, sections 2 to 7, with comments between tokens if they are allowed, and with or without trailing commas allowed), every number is in range and no escaped surrogate is without its partner |
| `JsonGrammar.GrammarIsParsed` | prototype/externals/rapidjson/include/rapidjson/reader.h:559-590 | Every text of the grammar within those limits is parsed to its end, comments included, into the events of the tree that it denotes |
| `JsonGrammar.ParsedIsGrammatical` | prototype/externals/rapidjson/include/rapidjson/reader.h:559-590 | Every accepted text is in the grammar, with the comments that the flags allow, and denotes a tree whose events were emitted |
| `JsonGrammar.GrammarIsUnambiguous` | prototype/externals/rapidjson/include/rapidjson/reader.h:559-590 | No text within the limits denotes two trees, comments or not |
| `JsonGrammar.ZeroIsTooBig` | prototype/externals/rapidjson/include/rapidjson/reader.h:1666-1673 | A number of the grammar with the value zero that is refused because of its exponent |
| `JsonGrammar.LoneSurrogate` | prototype/externals/rapidjson/include/rapidjson/reader.h:1024-1040 | A string of the grammar that is refused because of an unpaired surrogate |
| `JsonGrammar.ValueParses` | prototype/externals/rapidjson/include/rapidjson/reader.h:1752-1765 | A value of the grammar within the limits is parsed to its end, wherever it stands before a delimiter, into the events of its tree |
| `JsonGrammar.ValueTree` | prototype/externals/rapidjson/include/rapidjson/reader.h:1752-1765 | What is accepted as a value is a value of the grammar, and its events are those of a tree |
| `JsonGrammar.NumberIsRead` | prototype/externals/rapidjson/include/rapidjson/reader.h:1468-1743 | Every number of the grammar is read to its end, as an exact integer of 64 bits or a double, if its positive exponent is at most 308 plus the fraction digits that count and it is not a double beyond the largest; it is too big otherwise |
| `JsonGrammar.NumberIsGrammatical` | prototype/externals/rapidjson/include/rapidjson/reader.h:1468-1743 | What is accepted as a number is a number of the grammar, with the value it denotes |
| `JsonGrammar.StringIsRead` | prototype/externals/rapidjson/include/rapidjson/reader.h:959-1073 | Every string of section 7 without unpaired surrogates is read into the code units that its characters and escapes stand for; `\uXXXX` stands for the number that its digits denote by their places in the two hexadecimal alphabets |
| `JsonGrammar.StringIsGrammatical` | prototype/externals/rapidjson/include/rapidjson/reader.h:959-1073 | What is accepted as a string is a string of the grammar, with the text it denotes |
| `JsonGrammar.CodeBelow` | prototype/externals/rapidjson/include/rapidjson/reader.h:906-925 | What the parser makes of four digits after `\u` is the base-16 numeral that they denote, and it refuses them if and only if one of them is in neither alphabet |
| `JsonGrammar.UnitsAre` | prototype/externals/rapidjson/include/rapidjson/encodings.h:102-121 | The code units of a decoded escape are, in order, the bytes that RFC 3629, section 3, gives its code point |
| `JsonGrammar.EscapesAre` | prototype/externals/rapidjson/include/rapidjson/reader.h:994-1021 | The parser knows exactly the eight short escapes of RFC 8259, section 7, and decodes each into the character of its table |
| `JsonGrammar.BlanksAre` | prototype/externals/rapidjson/include/rapidjson/reader.h:266-273 | Exactly the four blanks of RFC 8259, section 2, are skipped |
| `JsonGrammar.FractionDigitsAre` | prototype/externals/rapidjson/include/rapidjson/reader.h:1584-1630 | In closed form, the fraction digits that enter the significand: after how many digits the loops stop counting, for integer and for double significands |
| `JsonGrammar.GapSkipped` | prototype/externals/rapidjson/include/rapidjson/reader.h:711-736 | Over blanks and whole comments, skipping goes on as from their end |
| `JsonGrammar.Skipped` | prototype/externals/rapidjson/include/rapidjson/reader.h:711-736 | What is skipped without an error is blanks and whole comments, the last of which may be a line comment that the text ends |
| `JsonGrammar.StopsAfterValue` | prototype/externals/rapidjson/include/rapidjson/reader.h:578-586 | Parsing that stops when it is done has read a text of the grammar with nothing after its value, whatever follows |
| `ParseErrors.StringFaultAt` | prototype/externals/rapidjson/include/rapidjson/reader.h:1006-1066 | An error in a string: up to its offset there are only characters of section 7, none begins there, and the code names the reason |
| `ParseErrors.NumberFaultAt` | prototype/externals/rapidjson/include/rapidjson/reader.h:1468-1743 | An error in a number: the text up to the offset is the beginning of a number and no digit follows; or, at its start, the number is one of the grammar out of range |
| `ParseErrors.WordFaultAt` | prototype/externals/rapidjson/include/rapidjson/reader.h:856-892 | An error in null, true or false: up to its offset the text is the beginning of the word, and there it departs from it |
| `ParseErrors.SkipFaultAt` | prototype/externals/rapidjson/include/rapidjson/reader.h:711-736 | An error between tokens: after blanks and whole comments, a slash that begins no comment, or a block comment that the text leaves open |
| `GenericReaders.GenericReader.Parse` | prototype/externals/rapidjson/include/rapidjson/reader.h:559-590 | The recursive-descent parser as it runs: stream position, handler calls and parse result |
| `GenericReaders.GenericReader.IterativeParse` | prototype/externals/rapidjson/include/rapidjson/reader.h:2192-2224 | The table-driven parser as it runs does what its function says, and leaves its stack empty |
| `GenericReaders.GenericReader.Transit` | prototype/externals/rapidjson/include/rapidjson/reader.h:2011-2160 | One transition on the explicit stack, which keeps the shape in which only the outermost frame restores the start state, and never pops an empty stack |
| `GenericReaders.GenericReader.ParseArray` | prototype/externals/rapidjson/include/rapidjson/reader.h:808-853 | The loop of `ParseArray` emits what the recursive function says, with the element count |
| `GenericReaders.GenericReader.ParseObject` | prototype/externals/rapidjson/include/rapidjson/reader.h:740-805 | The loop of `ParseObject` emits what the recursive function says, with the member count |
| `GenericReaders.GenericReader.ParseStringToStream` | prototype/externals/rapidjson/include/rapidjson/reader.h:991-1073 | The decoded text of a string, or its error: escapes, surrogate pairs, control characters, the missing quotation mark |
| `GenericReaders.GenericReader.ParseHex4` | prototype/externals/rapidjson/include/rapidjson/reader.h:906-925 | The number of four hexadecimal digits, or the error at the escape |
| `Texts.HexValues` | prototype/externals/rapidjson/include/rapidjson/reader.h:906-925 | The digits of both cases have their places in `0123456789abcdef` and `0123456789ABCDEF` as their values, and there are no other digits |
| `GenericReaders.GenericReader.SkipWhitespaceAndComments` | prototype/externals/rapidjson/include/rapidjson/reader.h:711-736 | Blanks and, if allowed, comments are skipped; an unfinished comment is an error |
| `GenericReaders.GenericReader.ParseInt` | prototype/externals/rapidjson/include/rapidjson/reader.h:1494-1521 | The 32-bit accumulator never wraps: it is the number read so far, and the loop leaves off exactly when the next digit would pass the limit of the sign |
| `GenericReaders.GenericReader.ParseInt64` | prototype/externals/rapidjson/include/rapidjson/reader.h:1550-1575 | The 64-bit accumulator never wraps, and leaves off exactly when the next digit would pass the limit of the sign |
| `GenericReaders.GenericReader.ParseWhole` | prototype/externals/rapidjson/include/rapidjson/reader.h:1486-1582 | The integer digits end in the narrowest accumulator that holds their value, which is exact |
| `GenericReaders.GenericReader.ParseFraction` | prototype/externals/rapidjson/include/rapidjson/reader.h:1584-1630 | How many fraction digits enter the significand, negated, for an integer significand and for a double one |
| `GenericReaders.GenericReader.ParseNegativeExponent` | prototype/externals/rapidjson/include/rapidjson/reader.h:1646-1665 | With fewer than 2 * 10^8 fraction digits the exponent and its sum with their number stay in 32 bits; the exponent is exact, or past the bound beyond which it does not matter |
| `GenericReaders.GenericReader.ParsePositiveExponent` | prototype/externals/rapidjson/include/rapidjson/reader.h:1666-1673 | The number is too big if and only if the exponent exceeds 308 plus the number of fraction digits that count; no 32-bit overflow with fewer than 2 * 10^8 of those |
| `GenericReaders.GenericReader.ParseNumber` | prototype/externals/rapidjson/include/rapidjson/reader.h:1468-1743 | The whole of `ParseNumber`: the event with its type, or the error with its offset; for every literal, accepted or refused, with fewer than 2 * 10^8 characters before its exponent, the exponent, the fraction count and their sum stay in 32 bits |
| `PrintParse.IntegerLiteral` | prototype/externals/rapidjson/include/rapidjson/reader.h:1712-1743 | For every literal without fraction or exponent: 32-bit event if and only if the value is in [-2^31, 2^32-1], 64-bit event if and only if it is otherwise in [-2^63, 2^64-1], double beyond; the integer is exact, and the sign decides between signed and unsigned |
| `PrintParse.NumberAt` | prototype/externals/rapidjson/include/rapidjson/reader.h:1468-1743 | A number that is parsed alone is parsed alike wherever a delimiter follows it |
| `Arithmetic.DigitValues` | prototype/externals/rapidjson/include/rapidjson/reader.h:1493-1521 | The decimal digits are those of `0123456789`, with their places as their values |
| `BigIntegers.BigInteger.FromDecimals` | prototype/externals/rapidjson/include/rapidjson/internal/biginteger.h:45-58 | For every decimal string of 1 to 19 * 415 digits: exactly its value, in normal form, in no more limbs than the string has chunks of nineteen digits |
| `BigIntegers.BigInteger.AppendDecimal64` | prototype/externals/rapidjson/include/rapidjson/internal/biginteger.h:229-238 | Times ten to the number of digits, plus the chunk, exactly |
| `BigIntegers.BigInteger.Add` | prototype/externals/rapidjson/include/rapidjson/internal/biginteger.h:75-90 | Addition of a word is exact and keeps the normal form, carries included |
| `BigIntegers.BigInteger.Multiply64` | prototype/externals/rapidjson/include/rapidjson/internal/biginteger.h:92-108 | Multiplication by a word is exact and keeps the normal form |
| `BigIntegers.BigInteger.Multiply32` | prototype/externals/rapidjson/include/rapidjson/internal/biginteger.h:110-131 | Multiplication by a half-word, over halves of limbs joined by a bitwise or, is exact and keeps the normal form |
| `BigIntegers.BigInteger.ShiftLeft` | prototype/externals/rapidjson/include/rapidjson/internal/biginteger.h:133-157 | A shift by any number of bits is exact and keeps the normal form, given room for the limb that is written before it is known to be needed; the limbs assigned to are exactly those of `ShiftWrites` |
| `BigIntegers.ShiftStaysInside` | prototype/externals/rapidjson/include/rapidjson/internal/biginteger.h:136-154 | The limbs that the shift writes lie within the capacity if and only if there is room for the shifted ones, and for one more if bits cross words |
| `BigIntegers.ShiftPastTheEnd` | prototype/externals/rapidjson/include/rapidjson/internal/biginteger.h:138-147 | A shift that meets the assertion of the source and writes past the last limb |
| `BigIntegers.BigInteger.MultiplyPow5` | prototype/externals/rapidjson/include/rapidjson/internal/biginteger.h:167-187 | Multiplication by a power of five through 5^27, 5^13 and the table is exact |
| `BigIntegers.MulAdd64` | prototype/externals/rapidjson/include/rapidjson/internal/biginteger.h:255-284 | Two words that are exactly a * b + k, from four products of half-words |
| `BigIntegers.ParseUint64` | prototype/externals/rapidjson/include/rapidjson/internal/biginteger.h:246-253 | At most nineteen digits are read exactly, without wrapping |
| `BigIntegers.BigInteger.Compare` | prototype/externals/rapidjson/include/rapidjson/internal/biginteger.h:213-222 | On normal forms the comparison is the order of the numbers |
| `BigIntegers.BigInteger.Difference` | prototype/externals/rapidjson/include/rapidjson/internal/biginteger.h:191-211 | For unequal operands the sign flag is right and the result is in normal form; it is the exact difference if and only if no borrow meets an all-ones limb of the subtrahend, and too large otherwise |
| `BigIntegers.BorrowIsLost` | prototype/externals/rapidjson/include/rapidjson/internal/biginteger.h:197-206 | Two numbers for which the borrow condition fails |
| `BigIntegers.DifferenceTooLarge` | prototype/externals/rapidjson/include/rapidjson/internal/biginteger.h:191-211 | `Difference` of these numbers, 2^128 and 2^128 - 2^64 + 1, gives a result that is too large |
| `BigIntegers.SubtractNext` | prototype/externals/rapidjson/include/rapidjson/internal/biginteger.h:199-206 | One limb of the subtraction: the borrow found by comparing with the minuend limb is missed exactly when a borrow meets an all-ones limb |
| `BigIntegers.JoinParts` | prototype/externals/rapidjson/include/rapidjson/internal/biginteger.h:143-151 | The two parts of a shift that meet in a limb have no bits in common, so their bitwise or is their sum |
| `PrintParse.PrintedParses` | prototype/externals/rapidjson/include/rapidjson/prettywriter.h:208-255 | For every tree, every indentation by blanks and either array format, and whatever the parse flags: the printed text is parsed to its end into the events of the tree |
| `PrintParse.TreeAt` | prototype/externals/rapidjson/include/rapidjson/reader.h:1752-1765 | The text of a tree is parsed into its events wherever it stands before a delimiter |
| `PrintParse.StringAt` | prototype/externals/rapidjson/include/rapidjson/writer.h:383-438 | Every string, however escaped, is read back |
| `PrintParse.IntegerAlone` | prototype/externals/rapidjson/include/rapidjson/writer.h:314-349 | Every 64-bit integer, signed or unsigned, is read back as one integer event with its value |
| `PrettyWriters.PrintValue` | prototype/externals/rapidjson/include/rapidjson/prettywriter.h:123-179 | Wherever a value may begin, the events of a tree append the separator and the tree text, trip no assertion, and leave the level stack as deep as before with one more value counted |
| `PrettyWriters.DepthThroughout` | prototype/externals/rapidjson/include/rapidjson/prettywriter.h:123-179 | After every single event of a tree the level stack is as deep as the containers are nested |
| `PrettyWriters.PrintRoot` | prototype/externals/rapidjson/include/rapidjson/prettywriter.h:208-249 | A whole tree from a fresh writer leaves the level stack empty |
| `PrettyWriters.PrettyWriter.Handle` | prototype/externals/rapidjson/include/rapidjson/prettywriter.h:95-179 | One handler call changes the output, the level stack and the root flag as specified |
| `PrettyWriters.PrettyWriter.PrettyPrefix` | prototype/externals/rapidjson/include/rapidjson/prettywriter.h:208-249 | The separator, the line break and the indentation before a value, and the count on the level |
| `PrettyWriters.PrettyWriter.WriteIndent` | prototype/externals/rapidjson/include/rapidjson/prettywriter.h:252-255 | As many indentation characters as the nesting depth times the count, and no others |
| `PrettyWriters.PrettyWriter.WriteString` | prototype/externals/rapidjson/include/rapidjson/writer.h:383-438 | A string in quotation marks with the escapes of its characters |
| `PrettyWriters.Print` | prototype/externals/rapidjson/include/rapidjson/prettywriter.h:123-179 | Printing a tree with a fresh writer gives its text, which is the pieces of the events one by one, laid out as `TextLayout` says, and the writer is outside all containers again |
| `PrettyWriters.TextLayout` | prototype/externals/rapidjson/include/rapidjson/prettywriter.h:208-255 | Event by event, the text of a tree: a comma if a value of the same container came before; where the event starts a line, which it does in objects, in arrays that are not on one line and at the end of a container that is not empty, a newline and exactly as many indentation characters as containers are around it, times the count; then the token, which begins with no blank |
| `ParseErrors.EscapeIs` | prototype/externals/rapidjson/include/rapidjson/writer.h:383-438 | A character of a string is printed as it is unless it is a control character, a quotation mark or a backslash; then by its short escape if there is one, and otherwise by its code in upper-case digits |
| `Documents.StoredByValue` | prototype/externals/rapidjson/include/rapidjson/document.h:792-828 | The payload and the flags of an integer depend on its value only, not on which of the four constructors built it |
| `Documents.StoredAccepts` | prototype/externals/rapidjson/include/rapidjson/document.h:1948-1985 | What a stored integer sends to a handler is its value, as the narrowest type that holds it, signed first |
| `Documents.Replay` | prototype/externals/rapidjson/include/rapidjson/document.h:2820-2860 | Replaying the events of any tree on top of any stack of values pushes exactly that tree and leaves the rest of the stack as it was |
| `Documents.BuildReread` | prototype/externals/rapidjson/include/rapidjson/document.h:2822-2825 | What is built does not depend on which integer type an event has |
| `Documents.PrintedBuildsBack` | prototype/externals/rapidjson/include/rapidjson/document.h:2622-2629 | A tree printed, parsed and built again is the tree it was |
| `JsonGrammar.AcceptedTextBuilds` | prototype/externals/rapidjson/include/rapidjson/reader.h:559-590 | From every text that the parser accepts, whatever the flags, a document is fed the events of exactly one tree: counts right, containers nested |
| `Documents.GenericDocument.Handle` | prototype/externals/rapidjson/include/rapidjson/document.h:2820-2860 | One handler call on the stack of values |
| `Documents.GenericDocument.EndObject` | prototype/externals/rapidjson/include/rapidjson/document.h:2848-2852 | The members on top of the stack, as many as counted, become the object below them |
| `Documents.GenericDocument.Populate` | prototype/externals/rapidjson/include/rapidjson/document.h:2622-2629 | The one value that the generator built becomes the document, and the stack is empty again |
| `Documents.PrintAndParse` | prototype/externals/rapidjson/include/rapidjson/document.h:2622-2629 | Printing a tree, parsing the text and building a document gives the tree back |
| `MembersMaps.LookupIsSearch` | prototype/externals/rapidjson/include/rapidjson/document.h:2228-2288 | For distinct names, every node of a name in the map leads to the member that the linear search finds |
| `MembersMaps.ObjectData.Find` | prototype/externals/rapidjson/include/rapidjson/document.h:2228-2238 | A member of that name, or the end if and only if there is none; the first one, if names are distinct |
| `MembersMaps.ObjectData.AddMember` | prototype/externals/rapidjson/include/rapidjson/document.h:2304-2318 | The member is appended, and slot i of the iterator array is still the node of member i, with no other nodes |
| `MembersMaps.ObjectData.RemoveMember` | prototype/externals/rapidjson/include/rapidjson/document.h:2320-2342 | The last member takes the place of the removed one, and the index follows |
| `MembersMaps.ObjectData.EraseMembers` | prototype/externals/rapidjson/include/rapidjson/document.h:2344-2376 | The members of the range go, the order of the others stays, and the index follows |
| `MembersMaps.ObjectData.Reserve` | prototype/externals/rapidjson/include/rapidjson/document.h:2191-2226 | More room with the same members, iterators and index |
| `MembersMaps.ObjectData.Clear` | prototype/externals/rapidjson/include/rapidjson/document.h:2240-2250 | No members and no nodes are left |
| `MembersMaps.ObjectData.Copy` | prototype/externals/rapidjson/include/rapidjson/document.h:2379-2399 | The copy has the same members and an index of its own |
| `FilterKeys.FilterValue` | prototype/externals/rapidjson/example/filterkey/filterkey.cpp:26-106 | Outside filtered values, the events of any tree are forwarded as the events of the tree without the members of that name at any depth, with corrected object counts; the depth and the stack of key counts end as they began |
| `FilterKeys.SkipValue` | prototype/externals/rapidjson/example/filterkey/filterkey.cpp:36-93 | Below a filtered name nothing is forwarded, and the depth falls back to zero exactly at the end of its value |
| `FilterKeys.FilterKeyHandler.Handle` | prototype/externals/rapidjson/example/filterkey/filterkey.cpp:26-101 | One handler call on the depth and the stack of key counts |
| `FilterKeys.FilterTree` | prototype/externals/rapidjson/example/filterkey/filterkey.cpp:26-101 | The handler run over a whole document outputs the events of the document without the key |
| `Pointers.ParsedIsRewritten` | prototype/externals/rapidjson/include/rapidjson/pointer.h:1063-1094 | Writing the tokens of a valid string representation gives the string back (RFC 6901, sections 3 and 4) |
| `Pointers.WrittenIsReparsed` | prototype/externals/rapidjson/include/rapidjson/pointer.h:924-1054 | Parsing what was written gives the same names and indices, in the string and in the fragment representation, whenever writing succeeds |
| `Pointers.StringNeverFails` | prototype/externals/rapidjson/include/rapidjson/pointer.h:1063-1094 | The string representation is always written |
| `Pointers.FragmentRoundTrip` | prototype/externals/rapidjson/include/rapidjson/pointer.h:924-1054 | The tokens of a valid fragment can be written as a fragment, which is parsed into the same tokens (RFC 6901, section 6) |
| `Fragments.FragmentMeansItsDecodedText` | prototype/externals/rapidjson/include/rapidjson/pointer.h:924-1054 | For every fragment: it is parsed into the tokens of its percent-decoded text, read as a string representation (RFC 6901, section 6), if and only if that text is valid and the fragment has only well-formed triplets, only UTF-8 in its runs of triplets, no encoded solidus, no escape whose second character is encoded, and no raw character other than a solidus that the parser wants encoded |
| `Fragments.AcceptedFragment` | prototype/externals/rapidjson/include/rapidjson/pointer.h:924-1054 | A fragment that is accepted has the tokens of its decoded text if and only if it encodes no solidus |
| `Fragments.EncodedTilde` | prototype/externals/rapidjson/include/rapidjson/pointer.h:993-1004 | An instance: `#/%7E%31` is refused, though its decoded text `/~1` has one token |
| `Fragments.EncodedSolidus` | prototype/externals/rapidjson/include/rapidjson/pointer.h:962-983 | An instance: `#/%2F` has one token, though its decoded text `//` has two |
| `Fragments.RawReserved` | prototype/externals/rapidjson/include/rapidjson/pointer.h:985-988 | An instance: `#/!` is refused, though RFC 3986 lets a fragment hold the character and the decoded text `/!` has one token |
| `Pointers.NumeralIndex` | prototype/externals/rapidjson/include/rapidjson/pointer.h:1022-1039 | The index of a numeral is its value if and only if the value fits 32 bits |
| `Pointers.NumeralIndexIs` | prototype/externals/rapidjson/include/rapidjson/pointer.h:1026-1039 | The index of every numeral: its value as it wraps in 32 bits, unless the wrapped value of some first digits is below that without the last of them, which is the overflow that is noticed |
| `Pointers.OversizedIsRefused` | prototype/externals/rapidjson/include/rapidjson/pointer.h:1026-1039 | A numeral that does not fit 32 bits is refused as an index if and only if its overflow is noticed at one of its digits, or its wrapped value is the marker |
| `Pointers.WrappedIndex` | prototype/externals/rapidjson/include/rapidjson/pointer.h:1026-1037 | An overflow that is not noticed: 5000000000 becomes index 705032704 |
| `Pointers.NotAnIndex` | prototype/externals/rapidjson/include/rapidjson/pointer.h:1014-1024 | Empty names, digits that begin with a zero, save `0`, and names with anything but digits are no index (RFC 6901, section 4) |
| `Pointers.NameIsUnescaped` | prototype/externals/rapidjson/include/rapidjson/pointer.h:993-1010 | A name is its text with `/` for every `~1` and then `~` for every `~0` (RFC 6901, section 4) |
| `Pointers.UnreservedIsRaw` | prototype/externals/rapidjson/include/rapidjson/pointer.h:912-914 | A character need not be encoded in a fragment if and only if it is unreserved (RFC 3986, section 2.3) |
| `Pointers.TripletIs` | prototype/externals/rapidjson/include/rapidjson/pointer.h:1113-1133 | A triplet is a percent sign and two hexadecimal digits, in either case, and stands for the byte that they denote (RFC 3986, section 2.1) |
| `Pointers.PercentIs` | prototype/externals/rapidjson/include/rapidjson/pointer.h:1150-1156 | A byte is written as a percent sign and the two upper-case digits that denote it |
| `Pointers.ParseFault` | prototype/externals/rapidjson/include/rapidjson/pointer.h:945-1052 | Every parse error: what is wrong with the text at its offset is what its code says |
| `Pointers.GenericPointer.constructor` | prototype/externals/rapidjson/include/rapidjson/pointer.h:924-1054 | The tokens in the buffers are those of the source, or the error code and offset are set and there are no tokens; the name buffer never holds more characters than were read |
| `Pointers.GenericPointer.ReadToken` | prototype/externals/rapidjson/include/rapidjson/pointer.h:956-1040 | One token: its characters are appended to the name buffer behind those of the tokens before, which do not change |
| `Pointers.GenericPointer.ReadPercent` | prototype/externals/rapidjson/include/rapidjson/pointer.h:966-983 | A percent-encoded character is decoded and validated inside the buffer, or refused |
| `Pointers.CountSolidi` | prototype/externals/rapidjson/include/rapidjson/pointer.h:933-937 | The number of tokens to make room for |
| `PointerTrees.CreateExists` | prototype/externals/rapidjson/include/rapidjson/pointer.h:452-499 | Create reports that the value existed if and only if Get resolves before, and then it changes nothing |
| `PointerTrees.CreateResolves` | prototype/externals/rapidjson/include/rapidjson/pointer.h:452-499 | After Create, Get resolves to what was there before, or else to a new null, if and only if no token `-` met an array |
| `PointerTrees.CreateMakes` | prototype/externals/rapidjson/include/rapidjson/pointer.h:452-499 | What the first token makes of any value, the rest being created in its place: an index makes of a value that is no container an array of one element more than the index, nulls but for the last one; any other name makes of what is no object an object with this one member; a container that fits keeps its kind and its other members or elements, and gets a new member at its end or as many nulls as it lacks |
| `PointerTrees.SetMakes` | prototype/externals/rapidjson/include/rapidjson/pointer.h:726-728 | Setting a value makes the same of every value on the way, and puts it at the end of the pointer |
| `PointerTrees.IndexMakesArray` | prototype/externals/rapidjson/include/rapidjson/pointer.h:467-491 | An instance: creating /a/0 in an empty object gives `{"a":[null]}` |
| `PointerTrees.GetAfterSet` | prototype/externals/rapidjson/include/rapidjson/pointer.h:726-728 | Whatever is put at the created place is what Get then finds by the whole pointer, if and only if no token `-` met an array |
| `PointerTrees.SetAfterCreate` | prototype/externals/rapidjson/include/rapidjson/pointer.h:726-728 | Filling the place that Create made is filling the place that the pointer makes: nothing is made twice |
| `PointerTrees.CreateAppends` | prototype/externals/rapidjson/include/rapidjson/pointer.h:457-461 | The token `-` always appends to an array |
| `PointerTrees.CreateKeeps` | prototype/externals/rapidjson/include/rapidjson/pointer.h:463-491 | A pointer that parts from the created one at a container whose type is kept resolves as before if and only if it does not end, where they part, between the old end of an array and the created element; there it finds a null |
| `PointerTrees.PaddingResolves` | prototype/externals/rapidjson/include/rapidjson/pointer.h:472-478 | In an array of one element, creating /5 makes /3 resolve |
| `PointerTrees.EraseSucceeds` | prototype/externals/rapidjson/include/rapidjson/pointer.h:827-865 | Erase succeeds if and only if the pointer is not the root and Get resolves |
| `PointerTrees.EraseTakesOne` | prototype/externals/rapidjson/include/rapidjson/pointer.h:827-865 | The path to the erased value still resolves, to the container without that one place |
| `PointerTrees.EraseKeeps` | prototype/externals/rapidjson/include/rapidjson/pointer.h:827-865 | A pointer that parts from the erased one finds what it found, or, if it parts after it in the same array, what the next index found |
| `PointerTrees.ErasedPlace` | prototype/externals/rapidjson/include/rapidjson/pointer.h:854-864 | The next array element takes the erased place; an erased name is gone if and only if no later member has it |
| `PointerTrees.Resolve` | prototype/externals/rapidjson/include/rapidjson/pointer.h:595-623 | The loop of Get, with the first token that does not resolve |
| `PointerTrees.GetFinds` | prototype/externals/rapidjson/include/rapidjson/pointer.h:595-623 | Get by one token: the value of the first member of its name, or the element of its index; nothing in any other value |
| `PointerTrees.ElementByNumeral` | prototype/externals/rapidjson/include/rapidjson/pointer.h:606-610 | A decimal numeral finds the element that it counts |
| `Encodings.DecodeAccepts` | prototype/externals/rapidjson/include/rapidjson/encodings.h:146-176 | Decoding accepts exactly the well-formed sequences of RFC 3629, section 4, at the head of the stream |
| `Encodings.DecodeEncode` | prototype/externals/rapidjson/include/rapidjson/encodings.h:102-121 | Decoding inverts encoding on every Unicode scalar value, whatever follows |
| `Encodings.EncodeDecode` | prototype/externals/rapidjson/include/rapidjson/encodings.h:146-176 | What is decoded is a scalar value, and encoding it gives the bytes back |
| `Encodings.EncodeIsWellFormed` | prototype/externals/rapidjson/include/rapidjson/encodings.h:102-121 | Encoding a scalar value gives a well-formed sequence |
| `Encodings.EncodeUtf8Is` | prototype/externals/rapidjson/include/rapidjson/encodings.h:102-121 | The bytes encoded are those of RFC 3629, section 3, for the code point: lead byte, continuation bytes and the bits that each one carries |
| `Encodings.DecodeUtf8Is` | prototype/externals/rapidjson/include/rapidjson/encodings.h:146-176 | Decoding takes exactly the bytes that RFC 3629, section 3, gives a scalar value, and yields that value |
| `Encodings.ValidateUtf8` | prototype/externals/rapidjson/include/rapidjson/encodings.h:179-202 | Validating accepts if and only if decoding does, and copies the bytes unchanged |
| `Encodings.MaskMeaning` | prototype/externals/rapidjson/include/rapidjson/encodings.h:204-220 | The range table: which bytes each mask of classes lets through |
| `Encodings.DecodeEncodeUtf16` | prototype/externals/rapidjson/include/rapidjson/encodings.h:276-288 | UTF-16 decoding inverts encoding on every scalar value (RFC 2781, sections 2.1 and 2.2) |
| `Encodings.EncodeDecodeUtf16` | prototype/externals/rapidjson/include/rapidjson/encodings.h:307-322 | What is decoded from UTF-16 is a scalar value, and encoding it gives the units back |
| `Encodings.EncodeUtf16Is` | prototype/externals/rapidjson/include/rapidjson/encodings.h:276-288 | The units encoded are those of RFC 2781, section 2, for the scalar value: itself, or the high half of its ten-bit parts before the low one |
| `Encodings.DecodeUtf16Is` | prototype/externals/rapidjson/include/rapidjson/encodings.h:307-322 | Decoding takes exactly the units that RFC 2781, section 2, gives a scalar value, and yields that value |
| `Encodings.TranscodeToUtf16` | prototype/externals/rapidjson/include/rapidjson/encodings.h:658-683 | Transcoding succeeds if and only if the string is well-formed UTF-8, and gives the UTF-16 form of the same scalar values |
| `Encodings.TranscodeToUtf8` | prototype/externals/rapidjson/include/rapidjson/encodings.h:658-683 | Transcoding the UTF-16 form of any scalar values gives their UTF-8 form |
| `Encodings.RoundTrip` | prototype/externals/rapidjson/include/rapidjson/encodings.h:658-683 | Transcoding to UTF-16 and back succeeds on exactly the well-formed UTF-8 strings and is the identity on them |
| `Allocators.SharedData.Malloc` | prototype/externals/rapidjson/include/rapidjson/allocators.h:321-334 | A new block, aligned, inside one chunk and apart from all blocks since the last Clear: at the end of the head chunk if it has room, in a new chunk of the right capacity otherwise; none if and only if the size is zero or memory is missing |
| `Allocators.SharedData.Realloc` | prototype/externals/rapidjson/include/rapidjson/allocators.h:337-369 | Exactly when the block stays, grows in place, is copied or is refused; the first bytes of the result are the old ones, and no byte of any other block changes |
| `Allocators.SharedData.Clear` | prototype/externals/rapidjson/include/rapidjson/allocators.h:277-288 | All chunks but the first one made are given back, each once, and no block is left |
| `Allocators.SharedData.AddChunk` | prototype/externals/rapidjson/include/rapidjson/allocators.h:390-402 | An empty chunk becomes the head, or nothing changes |
| `Allocators.SharedData.Measure` | prototype/externals/rapidjson/include/rapidjson/allocators.h:293-310 | The sums of sizes and capacities, and size is at most capacity |
| `Allocators.MemoryPoolAllocator.Copy` | prototype/externals/rapidjson/include/rapidjson/allocators.h:216-223 | The copy joins the pool: one more handle, one more reference |
| `Allocators.MemoryPoolAllocator.Assign` | prototype/externals/rapidjson/include/rapidjson/allocators.h:224-233 | The handle leaves its pool and joins the other, whose blocks and chunks do not change; the pool left keeps its own for the handles that remain, or is cleared and given back if there are none; assigning from the same pool changes nothing |
| `Allocators.HandOver` | prototype/externals/rapidjson/include/rapidjson/allocators.h:216-233 | Copying a handle and assigning it another pool puts the copy in its place, with all blocks and chunks of both pools as they were |
| `Allocators.Outlive` | prototype/externals/rapidjson/include/rapidjson/allocators.h:216-274 | Malloc, copy, assignment and destruction together: a block outlives the handle that asked for it as long as its pool has another one, and the pool is given back exactly when no handle is left |
| `Allocators.MemoryPoolAllocator.Destroy` | prototype/externals/rapidjson/include/rapidjson/allocators.h:259-274 | The reference count is the number of live handles; the pool is cleared and released if and only if the last one goes |
| `AsyncParsers.EveryRunIsSafe` | prototype/externals/rapidjson/example/parsebyparts/parsebyparts.cpp:34-128 | In every interleaving: the characters taken are a prefix of the parts put together; until completion they and the buffer are the parts submitted, followed by one terminator at the end; a sleeping feeder implies a non-empty buffer and an unfinished parse, a sleeping parser an empty buffer, so they never sleep at once; a join implies that the parser ended |
| `AsyncParsers.StepLeavesLess` | prototype/externals/rapidjson/example/parsebyparts/parsebyparts.cpp:55-112 | Every step but a wake-up without notification leaves less work, so runs end |
| `AsyncParsers.NoDeadlock` | prototype/externals/rapidjson/example/parsebyparts/parsebyparts.cpp:34-80 | Until the feeder has joined, some step other than such a wake-up can be taken |
| `AsyncParsers.AsyncDocumentParser.ParsePart` | prototype/externals/rapidjson/example/parsebyparts/parsebyparts.cpp:55-70 | The critical section is one step: wait, give up because parsing is complete, or hand over the part |
| `AsyncParsers.AsyncDocumentParser.Terminate` | prototype/externals/rapidjson/example/parsebyparts/parsebyparts.cpp:38-50 | The destructor waits, or hands over the terminator |
| `AsyncParsers.AsyncDocumentParser.Peek` | prototype/externals/rapidjson/example/parsebyparts/parsebyparts.cpp:87-95 | The next character of all that was submitted, or a wait on an empty buffer |
| `AsyncParsers.AsyncDocumentParser.Take` | prototype/externals/rapidjson/example/parsebyparts/parsebyparts.cpp:97-112 | The next character of all that was submitted is taken and counted; an empty buffer wakes the feeder |
| `AsyncParsers.AsyncDocumentParser.Complete` | prototype/externals/rapidjson/example/parsebyparts/parsebyparts.cpp:76-79 | Completion wakes the feeder |
| `Writers.AcknowledgedIsCommitted` | prototype/Writer.cpp:342-425 | After any messages, a completed block that is acknowledged with a commit leaves the three buffers empty, and for every trace saved since the last fork or disconnect a row of its sequence number and rows of the keys of all its receipts are committed |
| `Writers.OwnRowsCommitted` | prototype/Writer.cpp:150-151 | In any run, the committed row of a saved and acknowledged trace is its own if and only if, when it was saved, no row and no buffered trace had its number or had it with the same contents; and likewise for its receipts |
| `Writers.StaleRowIsCommitted` | prototype/Writer.cpp:291-292 | A run in which a trace is acknowledged while the rows of its number and its receipt are those of another trace |
| `Writers.RowsSinceFork` | prototype/Writer.cpp:283-315 | In any run with a fork past the early return, whatever follows: every row at or above the fork, in the open transaction or committed, and every buffered row, comes from a trace saved after the fork |
| `Writers.RowsSinceDisconnect` | prototype/Writer.cpp:228-231 | In any run with a disconnect, whatever follows: every row, in the open transaction or committed, was committed when the connection was lost, or was buffered then and has survived the roll-back, or comes from a trace saved later |
| `Writers.BufferedOutlivesDisconnect` | prototype/Writer.cpp:228-231 | And these rows do appear: a number or a key that was committed or buffered when the connection was lost has that row, the first buffered one counting, after the next acknowledgement that commits, if no message in between forgets traces |
| `Writers.LastNumbersCommitted` | prototype/Writer.cpp:566-631 | In any run, after an acknowledgement that commits, the number committed for a receiver is that of its last action among the traces saved since the start or since a fork past the early return; since a disconnect, among those left in the buffers and those saved later; a receiver without such an action keeps the number it had then, committed before the disconnect or written before the fork |
| `Writers.NumberIsUpdated` | prototype/Writer.cpp:152 | An instance: a receiver with the committed number 5 acts with number 6, and 6 is committed |
| `Writers.IrreversibleAdvances` | prototype/Writer.cpp:355-358 | After any messages the known irreversible block is the largest one told of so far, and it never goes back |
| `Writers.AcksFollowHead` | prototype/Writer.cpp:352-353 | After any messages, every block is acknowledged if some completed block was reversible, and in the steps set at the start otherwise |
| `Writers.AcknowledgedIsConfirmed` | prototype/Writer.cpp:403-425 | What is acknowledged is at most the confirmed block, but for a fork met while catching up; a commit confirms what it acknowledges, and a block is left without an answer only within the step |
| `Writers.RunKeeps` | prototype/Writer.cpp:266-425 | After any messages, every saved trace is in the buffers or in the open transaction, and receipts are buffered only with transactions |
| `Writers.ForkClears` | prototype/Writer.cpp:283-315 | A fork past the early return empties the buffers, sets both counters to the block before the fork, and leaves committed exactly the rows below the fork |
| `Writers.ForkRemoves` | prototype/Writer.cpp:288-315 | After a fork message no committed row is at or above the fork if and only if the confirmed block is past the irreversible one or there was no such row |
| `Writers.ForkWhileCatchingUp` | prototype/Writer.cpp:291-292 | A run in which a fork is cut short and keeps both a row and a buffered trace of an abandoned block |
| `Writers.DeliveredAgain` | prototype/Writer.cpp:576-637 | Flushing a batch that was flushed before changes no table |
| `Writers.TransactionsInserted` | prototype/Writer.cpp:150-152 | Inserting with IGNORE leaves rows that were there, has a row for every number of the batch, and adds nothing else |
| `Writers.Writer.SendTracesBatch` | prototype/Writer.cpp:576-637 | The three loops move the buffers into the open transaction, unless there is no transaction to insert |
| `Writers.Writer.SaveTrace` | prototype/Writer.cpp:549-574 | The trace, its receipts and the last sequence number per receiver are buffered |
| `Writers.Writer.ProcessFork` | prototype/Writer.cpp:283-315 | A fork message: early return or the whole roll-back |
| `Writers.Writer.ProcessCompleted` | prototype/Writer.cpp:342-425 | A completed block: flush, then one of the three acknowledgements |
| `Writers.Writer.ProcessData` | prototype/Writer.cpp:281-520 | Any message: the new state and the acknowledgement |
| `Plugins.Application.Run` | prototype/externals/appbase/application_base.cpp:181-190 | For every acyclic requirement graph, request order, moment of quitting and set of plugins that throw: exactly what was asked for and what it requires is initialized, each once and after its requirements; exactly the first part of that list up to the quit or the first failure is started; it is stopped in the reverse order, each once |
| `Plugins.Application.Initialize` | prototype/externals/appbase/include/appbase/application_instance.hpp:25-34 | A plugin and all that it requires, and nothing else, joins the list after its requirements |
| `Plugins.Application.Startup` | prototype/externals/appbase/include/appbase/application_instance.hpp:38-49 | A plugin runs after all that it requires; one that throws is listed as running before it does |
| `Plugins.Application.InitializeAll` | prototype/externals/appbase/application_base.cpp:397-415 | The plugins initialized are those that the requests bring with them |
| `Plugins.Application.StartupAll` | prototype/externals/appbase/application_base.cpp:181-190 | The plugins started are the first part of the initialized list, in its order, up to the quit or the first one that throws; in the last case they are all stopped again |
| `Plugins.Application.Shutdown` | prototype/externals/appbase/application_base.cpp:442-470 | Every running plugin is stopped once, the last one started first, and the lists are emptied |
| `Plugins.ReversedBackwards` | prototype/externals/appbase/application_base.cpp:445-454 | Going backwards over a list in which requirements come first stops each plugin before anything that it requires |
| `Plugins.OrderedHasClosure` | prototype/externals/appbase/include/appbase/application_instance.hpp:25-34 | A list in which requirements come first contains, with a plugin, everything that it requires directly or not |

## Left out

### The JSON engine

- Schema keywords `enum`, `uniqueItems` (decided by hashes), `patternProperties`, the numeric and string-length keywords, `readOnly` and `writeOnly`, `$ref`, and the compilation of the other keywords from JSON: large, and dependent on hashing, regular expressions and URIs.
- SchemaMeaning.TupleAgreement: is about trees whose counts fit a SizeType.
- SchemaCompile.PropertiesAgreement: is about such trees too; of entries with the same name in `properties` or `dependencies` the first one counts, and entries that are no strings where names are expected are left out.
- Continue-on-error mode, error reports and the output handler of the validator: the validator stops at the first violation and has no output handler.
- SchemaMeaning.FeedValue: a validator that has failed is modelled without its stack, which no later event reads; assertions that an event sequence outside any tree would trip are modelled as a rejection.
- Handlers that refuse an event: every handler modelled accepts what it is sent.
- Parse flags for NaN and infinity, numbers as strings, escaped apostrophes, encoding validation, in-situ parsing and full precision, the token-by-token interface, and the SIMD scanning paths: options and variants of the same loops.
- GenericReaders.GenericReader.ParseNumber: a double is its literal text, and whether it is beyond the largest double is a parameter; only the count of digits that enter its significand is modelled, because the conversion is floating-point arithmetic.
- PrintParse.PrintedParses: a double prints as a literal that the parser takes as one double, because the conversion in both directions is floating-point arithmetic; indentation is by blanks, as the source asserts.
- JsonGrammar.ParsersAcceptGrammar: is about texts without null characters, which end a stream. Whether a double is beyond the largest one is a parameter; an unpaired surrogate is taken to stand for the code units of its code.
- Strings are sequences of UTF-8 code units, one character each; in texts and events they are not validated, as with the default flags.
- Member and element counts are unbounded numbers in place of the 32-bit `SizeType`.
- Frames of the table-driven parser pair the state and the count, which the source pushes one after the other on a byte stack.
- BigIntegers.BigInteger.FromDecimals: longer strings than 19 * 415 digits are not covered; the 416 limbs of the source hold one more chunk, but the intermediate shift needs a spare limb.
- BigIntegers.BigInteger.Difference: the result object must be distinct from both operands, as it is at its one call.
- Equality of values, number equality across signs, strings in place, 48-bit pointer packing, convenience overloads and iterators of `GenericValue`.
- MembersMaps.ObjectData.Find: map nodes are numbered and a name with several nodes may lead to any of them, which the source leaves to the multimap.
- PointerTrees.CreateExists: trees are values, so an operation returns the new tree; the reference into the tree that the source returns and changes in place is not modelled. Pointers made by appending tokens, Swap and GetWithDefault are left out.
- Encodings other than UTF-8 and UTF-16, byte order marks and the byte streams.
- Encodings.TranscodeToUtf8: says nothing about ill-formed UTF-16, which the round trip does not meet.
- Allocators.SharedData.Realloc: the block must be live and at least as large as the old size says, as callers must see to; a null pointer is Malloc. Sizes are unbounded numbers, so rounding up to the alignment does not wrap.
- Allocators.MemoryPoolAllocator.Assign: two pools are supposed to share no chunk. Move construction and assignment, a user-supplied first buffer and its alignment, and the addresses that the base allocator returns are left out: a pointer is a chunk and an offset.

### The other parts

- AsyncParsers.NoDeadlock: progress is stated up to wake-ups without a notification, which a condition variable may give for ever; the reader is supposed not to take the terminator, and its own parsing is the reader modelled above.
- The writer as a slave (backup rows, pruning), the takeover of mastership (prototype/Writer.cpp, lines 427-501), the master check before each message, `noTraces`, hooks, counters and messages that do not parse. The head row of SYNC is not written, because its statement is filled but never executed. The database is two sets of tables with commit, rollback, insert-ignore, upsert and delete by block.
- Websockets, the database driver, JSON field extraction from messages, logging and `Cleaner.cpp`: plumbing over libraries that are not part of this model.
- Plugins.Application.Run: exceptions come from a given set of plugins during their own startup only, and a request to quit is the number of turns after which it is seen. Options, signals, the executor, channels and methods are left out.
