# Verified core of the parking camera firmware

A Dafny model of the parts of the firmware that compute rather than talk to devices, and proofs
about them. `dafny verify dfyconfig.toml` checks everything.

**CRC-64** (`LinearRegister`, `Gf2Matrix`, `Crc64Reference`, `Crc64Polynomial`, `Crc64Slices`,
`Crc64Engine`, `Crc64Combine`). The reference is a register fed one bit at a time; it is proved to hold
the remainder by the ECMA-182 polynomial, given by its exponents. The table generator, the slice-by-eight loops of both endiannesses and `combine` are
methods over arrays, each proved equal to the reference. The algebra is proved once for an abstract
linear register and an abstract GF(2) matrix and instantiated. `Crc16` does the same for the
constant table of `storage/crc16.cpp`.

**JSON** (`JsonValue`, `JsonLexer`, `JsonNumber`, `JsonString`, `JsonEscapes`, `JsonParser`,
`JsonTokens`, `JsonGrammar`, `JsonReader`, `JsonWriter`, `JsonStyledText`, `JsonLayout`,
`JsonStyledWriter`, `JsonRoundTrip`, `JsonCut`, `BatchAllocator`). `JsonLexer.Lex`
is the tokenizer as a function, `JsonParser` the parser over token sequences, `JsonTokens.Tokens`
the tokens a tree stands for. `JsonGrammar` is the language that is accepted, as a grammar, and
`JsonLayout` judges a styled text by a scanner of its own. The class `Reader` has the cursor, the node stack and the error list
and is proved to compute the functions; the two writer classes are proved to emit text whose tokens
are the tree's. The round trip follows, with its exact range. Texts are sequences of bytes held as
characters.

**Lights** (`IntrusiveList`, `Pool`, `LightLists`, `LightRuns`, `LightManager`, `WhiteLight`,
`WhiteDaemon`, `LightSignals`).
`IntrusiveList` is pointer memory and what the list operations do to rings. `LightLists` and
`WhiteLight` are state machines on values, over which whole runs are reasoned about; the classes
`Manager` and `WhiteLightDaemon` work on pointers and are proved to take those steps.

**Shared records** (`RefHandle`, `FanOut`, `Publisher`). Publishers, the message queue and consumers as atomic
steps of any number of threads in any order, with sends that fail and error returns that forget a
reference. What is held is counted from the threads and the queue, independently of the counters.
`Publisher` has the publishing loop and the handlers as code whose executions are runs of it.

**Parking history** (`ParkJson`, `ParkHistory`). The ring of ten, its dump through the styled
writer and its reload through the reader, over whole lives of the program with restarts.

**Base 64** (`Base64`, section 4 of RFC 4648, against one stream of bits) and the **configuration
index** (`JsonConfig`, against linear search).

Where the code does something else than its comments or names suggest, the model follows the code,
and says when the two agree:

- `readArray` accepts any token as a separator between elements; its test for a bad one can never
  be true (lib/Json/source/json_reader.cpp:566-567). `JsonTokens.AnySeparatorReads` and
  `CommasExactly`; `JsonRoundTrip.ColonSeparates` at the text `[1:2]`.
- `decodeNumber` takes a lone minus sign for zero (`JsonNumber.LoneMinusIsZero`), and stops being
  exact at ten times its threshold, not at the end of the integer range
  (lib/Json/source/json_reader.cpp:597-606; `DecodeNumberExactly`, `LastDecadeIsDouble`).
- A comma after the last member of an object is an error, except when that member's name is empty
  (lib/Json/source/json_reader.cpp:492; `JsonGrammar.NameExpected`, `JsonRoundTrip.TrailingComma`).
- A switch-on of the white light by day is consumed and lost (ve/dev/light.c:434-442;
  `WhiteLight.FirstPassDecides`).
- A strict root may be null as well as an array or an object (`JsonRoundTrip.NullRootAccepted`; the
  helper `StrictRootExactly` beside it unfolds the test).
- A stream is read up to the first byte 0xFF (lib/Json/source/json_reader.cpp:146), so a dumped
  history with that byte in a text cannot be loaded again (`JsonCut.StreamReadsExactly`,
  `ParkHistory.KeepsAllExactly`, `StopByteForgets`).
- `BatchAllocator` counts the end of a page in objects but advances by whole allocations. It is
  sound exactly when one divides the other (`BatchAllocator.SoundExactly`); the pages of array items
  (8 and 255) are not such a case (`ArrayPagesOverrun`).
- A failed registration of a light returns with the mutex held (ve/dev/light.c:158-167).
  `LightRuns.RunSticksExactly` says which runs that ends; `TwiceSticks` gives one.
- `ext2fs_crc16` returns its 32-bit argument unchanged, high half included, for an empty buffer
  (`Crc16.ExtCrc16`).
- `vmq_sendto_tpzehin` returns 0 even when the send failed, so the publisher cannot give the
  reference back; `process_park_records` also forgets one when the pictures cannot be analysed.
  Both are steps of `FanOut`, and `FanOut.LeftOverExactly` says what they cost.

## Model

| member | source | states |
|---|---|---|
| `Crc64Combine.Combine` | oss/include/oss_c_sdk/aos_crc64.c:238-288 | For every start value and all byte strings A and B: from crc(A), crc(B) and the length of B it returns crc(A followed by B) |
| `Crc64Combine.ApplyZeroBytes` | oss/include/oss_c_sdk/aos_crc64.c:263-283 | The alternating even/odd loop advances the first CRC by exactly 8 * len2 zero bits, for every length |
| `Crc64Combine.SquareAndApply` | oss/include/oss_c_sdk/aos_crc64.c:266-270 | One half of the loop: squaring doubles the operator's power, and spending a bit of the length keeps the total |
| `Crc64Combine.MatrixTimes` | oss/include/oss_c_sdk/aos_crc64.c:213-225 | The loop over the set bits is the GF(2) product of the 64-column matrix and the vector |
| `Crc64Combine.MatrixSquare` | oss/include/oss_c_sdk/aos_crc64.c:227-233 | Overwrites the target with the square, leaving the operand alone |
| `Crc64Combine.FillOneZeroBit` | oss/include/oss_c_sdk/aos_crc64.c:249-255 | Fills the operator for one zero bit |
| `Crc64Combine.OneZeroBitAdvances` | oss/include/oss_c_sdk/aos_crc64.c:249-255 | That matrix, applied to any register, is one bit-serial step |
| `Crc64Combine.SquareComposes` | oss/include/oss_c_sdk/aos_crc64.c:227-233 | The squared matrix is the operator applied twice, on every vector |
| `Crc64Combine.SquareDoubles` | oss/include/oss_c_sdk/aos_crc64.c:257-261 | Squaring an operator for n zero bits gives the one for 2n |
| `Crc64Combine.CombineMeansConcatenation` | oss/include/oss_c_sdk/aos_crc64.c:235-288 | The value `Combine` computes is the CRC of the concatenation whenever its arguments are CRCs of the two parts |
| `Crc64Reference.CombineLaw` | oss/include/oss_c_sdk/aos_crc64.c:235-238 | Advancing crc(A) by the length of B and adding crc(B) gives crc(A followed by B), in terms of the bit-serial definition only |
| `Crc64Reference.CrcIncremental` | oss/include/oss_c_sdk/aos_crc64.c:197-203 | Feeding a buffer in pieces, each with the previous result, equals feeding it whole |
| `Crc64Reference.BitStepXor` | oss/include/oss_c_sdk/aos_crc64.c:64-65 | The shift-and-tap step is linear over exclusive or |
| `Crc64Reference.ByteStep` | oss/include/oss_c_sdk/aos_crc64.c:69-75 | Eight steps of a register are the table entry of its low byte plus the shifted rest |
| `Crc64Reference.FeedByte` | oss/include/oss_c_sdk/aos_crc64.c:61-67 | Feeding the eight bits of a byte one by one is mixing the byte in and stepping eight times |
| `Crc64Reference.FeedIsRegisterFeed` | oss/include/oss_c_sdk/aos_crc64.c:61-67 | The bit-serial definition over a byte string is the general linear register's |
| `Crc64Polynomial.RegisterIsRemainder` | oss/include/oss_c_sdk/aos_crc64.c:42-65 | From zero, the register after any bits is the one word whose 64 bits, put after them, make a multiple of the ECMA-182 polynomial, given by its exponents |
| `Crc64Polynomial.ZeroExactlyForMultiples` | oss/include/oss_c_sdk/aos_crc64.c:42-65 | Any bits leave the register at zero if and only if their polynomial is a multiple of that one |
| `Crc64Polynomial.BytesRemainder` | oss/include/oss_c_sdk/aos_crc64.c:42-65 | The same for messages of bytes, the lowest bit of each first |
| `Crc64Polynomial.GeneratorFeedsToZero` | oss/include/oss_c_sdk/aos_crc64.c:42-45 | The polynomial's own 65 coefficients, highest first, lead from zero to zero |
| `Crc64Polynomial.CheckValue` | oss/include/oss_c_sdk/aos_crc64.c:134-165 | The CRC of the digits 1 to 9 from zero is the published check value |
| `LinearRegister.FeedAffine` | oss/include/oss_c_sdk/aos_crc64.c:263-287 | For any linear register, feeding is affine in the start value |
| `LinearRegister.CombineRule` | oss/include/oss_c_sdk/aos_crc64.c:235-288 | For any linear register with complemented ends, the combination law holds |
| `LinearRegister.StepsLinear` | oss/include/oss_c_sdk/aos_crc64.c:64-65 | Any number of steps of a linear register is linear |
| `Gf2Matrix.ProductLinear` | oss/include/oss_c_sdk/aos_crc64.c:213-225 | A matrix product distributes over exclusive or |
| `Gf2Matrix.ProductMapped` | oss/include/oss_c_sdk/aos_crc64.c:227-233 | Mapping every column through a linear map is composing with it |
| `Gf2Matrix.ProductOfDoubling` | oss/include/oss_c_sdk/aos_crc64.c:250-255 | A matrix whose columns are successive doublings multiplies like the doubling itself |
| `Crc64Slices.SlicesAre64Steps` | oss/include/oss_c_sdk/aos_crc64.c:148-155 | The eight little-endian table lookups together are 64 bit-serial steps |
| `Crc64Slices.ReversedSlicesAre64Steps` | oss/include/oss_c_sdk/aos_crc64.c:179-186 | So are they in the order of the big-endian loop |
| `Crc64Slices.LittleByteStep` | oss/include/oss_c_sdk/aos_crc64.c:143-143 | The one-byte table step equals eight fed bits |
| `Crc64Slices.WordStep` | oss/include/oss_c_sdk/aos_crc64.c:146-158 | Mixing in a little-endian word and stepping 64 times equals feeding its eight bytes |
| `Crc64Slices.BigByteStep` | oss/include/oss_c_sdk/aos_crc64.c:174-174 | The byte-reversed one-byte step equals eight fed bits of the reversed register |
| `Crc64Slices.BigWordLookups` | oss/include/oss_c_sdk/aos_crc64.c:177-186 | The byte-reversed lookups give the byte-reversed register after 64 steps |
| `Crc64Slices.BigLoad` | oss/include/oss_c_sdk/aos_crc64.c:178-178 | Mixing in a big-endian load is the reversal of mixing in a little-endian one |
| `Crc64Slices.Rev8Involution` | oss/include/oss_c_sdk/aos_crc64.c:86-96 | rev8 is its own inverse |
| `Crc64Slices.Rev8Bytes` | oss/include/oss_c_sdk/aos_crc64.c:86-96 | rev8 puts the eight bytes in the opposite order |
| `Crc64Slices.Rev8Xor` | oss/include/oss_c_sdk/aos_crc64.c:86-96 | rev8 distributes over exclusive or |
| `Crc64Engine.SingleByte` | oss/include/oss_c_sdk/aos_crc64.c:63-66 | The inner loop computes the CRC register of one byte |
| `Crc64Engine.FillColumn` | oss/include/oss_c_sdk/aos_crc64.c:69-76 | Each further row holds the byte followed by one more zero byte; other columns are untouched |
| `Crc64Engine.Init` | oss/include/oss_c_sdk/aos_crc64.c:56-77 | Every one of the 8 by 256 entries is the byte followed by k zero bytes |
| `Crc64Engine.InitReversed` | oss/include/oss_c_sdk/aos_crc64.c:98-108 | The big-endian table holds the byte-reversed entries |
| `Crc64Engine.Tables.constructor` | oss/include/oss_c_sdk/aos_crc64.c:47-53 | The tables start unfilled |
| `Crc64Engine.Tables.CrcLittle` | oss/include/oss_c_sdk/aos_crc64.c:136-164 | For every buffer, start value and alignment: the bit-serial CRC |
| `Crc64Engine.Tables.CrcBig` | oss/include/oss_c_sdk/aos_crc64.c:167-195 | The same, on byte-reversed tables and register |
| `Crc64Engine.Tables.Crc64` | oss/include/oss_c_sdk/aos_crc64.c:203-209 | Whichever endianness is detected, the result is the bit-serial CRC |
| `Crc16.LookupCorrect` | storage/crc16.cpp:12-46 | Each of the 256 constants is eight steps of bit-serial reflected division by 0x8005 |
| `Crc16.TableStepFeeds` | storage/crc16.cpp:60-68 | The loop body in 32-bit arithmetic feeds one byte, whatever the high half of the argument held |
| `Crc16.ExtCrc16` | storage/crc16.cpp:56-70 | For every buffer, the bit-serial CRC of the low 16 bits; an empty buffer returns the argument unchanged |
| `Crc16.CrcIncremental` | storage/crc16.cpp:48-54 | Incremental over concatenation |
| `Crc16.CrcOfCodewordIsZero` | storage/crc16.cpp:48-70 | Appending the result, low byte first, gives zero |
| `JsonValue.LessIsStrictTotalOrder` | lib/Json/source/json_value.cpp:564-606 | operator< is irreflexive, asymmetric and transitive on all trees, strings without a pointer included, and incomparable means equal by operator== |
| `JsonValue.LessMeans` | lib/Json/source/json_value.cpp:564-606 | Numbers by value, false before true, a null string first, shorter arrays and objects first, and those of one size by their first difference, in both directions |
| `JsonValue.StrLessMeans` | lib/Json/source/json_value.cpp:217-223 | A name is below another if and only if it is a proper beginning of it or lower at the first different character |
| `JsonValue.LessPairMeans` | lib/Json/source/json_value.cpp:589-596 | Members by name, and by value for the same name |
| `JsonValue.KindsInOrder` | lib/Json/include/json/value.h:23-33 | Values of different kinds in the order of the enumeration |
| `JsonValue.LessTrichotomy` | lib/Json/source/json_value.cpp:564-606 | Exactly one of less, equal, greater, by mutual induction over nested arrays and objects |
| `JsonValue.LessTransitive` | lib/Json/source/json_value.cpp:564-606 | Transitive through arrays and objects of any depth |
| `JsonValue.EqualIsIdentity` | lib/Json/source/json_value.cpp:626-668 | operator== holds exactly of identical trees; a string without a pointer is not an empty one |
| `JsonValue.StrLessTotal` | lib/Json/source/json_value.cpp:217-223 | The key order is total |
| `JsonValue.ResolveAfterPut` | lib/Json/source/json_value.cpp:1021-1042 | Assigning a member changes what that name resolves to and no other |
| `JsonValue.ResolveFinds` | lib/Json/source/json_value.cpp:1021-1042 | Resolving is looking the name up, null when it is absent |
| `JsonValue.PutKeepsSorted` | lib/Json/source/json_value.cpp:1021-1042 | Members stay in strictly ascending key order |
| `JsonNumber.UintToString` | lib/Json/source/json_writer.cpp:30-40 | The backwards-filled buffer ends with the decimal digits and a NUL, in at most 11 places |
| `JsonNumber.IntToString` | lib/Json/source/json_writer.cpp:42-54 | The decimal text of every 32-bit integer, the smallest included |
| `JsonNumber.UIntToString` | lib/Json/source/json_writer.cpp:57-64 | The decimal text of every 32-bit unsigned integer |
| `JsonNumber.AccumulateExactly` | lib/Json/source/json_reader.cpp:597-608 | On digit strings of any length the loop gives the exact magnitude if it is below ten times the threshold, and falls back otherwise |
| `JsonNumber.AccumulateBound` | lib/Json/source/json_reader.cpp:599-608 | The accumulator never exceeds its bound, so 32 bits never overflow |
| `JsonNumber.AccumulateLoop` | lib/Json/source/json_reader.cpp:599-608 | The loop with a 32-bit accumulator, without overflow, computes that |
| `JsonNumber.DecodeNumberExactly` | lib/Json/source/json_reader.cpp:581-616 | On every digit string, the empty one included: exact integer precisely up to 4294967289 (non-negative) or 2147483639 (negative), up to leading zeros; signed up to 2147483647 |
| `JsonNumber.LoneMinusIsZero` | lib/Json/source/json_reader.cpp:593-610 | A minus sign alone decodes to zero |
| `JsonNumber.LastDecadeIsDouble` | lib/Json/source/json_reader.cpp:597-606 | The integers of the last partial decade fall back to doubles |
| `JsonNumber.RealTokens` | lib/Json/source/json_reader.cpp:581-643 | A token with a point, an exponent or an inner sign is the real that sscanf reads, or an error if it reads none |
| `JsonNumber.DecodeIntText` | lib/Json/source/json_reader.cpp:581-616 | Inverts the text of every int from -2147483639 |
| `JsonNumber.DecodeUIntText` | lib/Json/source/json_reader.cpp:581-616 | Inverts the text of every uint in [2147483648, 4294967289] |
| `JsonNumber.DecodedIntegersAreExact` | lib/Json/source/json_reader.cpp:597-614 | No text decodes to an integer outside these ranges |
| `JsonString.QuotedStringEmits` | lib/Json/source/json_reader.cpp:463-476 | A quoted string followed by anything is one token, ending at its own closing quote |
| `JsonString.DecodeQuoted` | lib/Json/source/json_reader.cpp:657-701 | Every NUL-free byte string, escaped and quoted, decodes to itself |
| `JsonString.DecodeUnicodeEscapes` | lib/Json/source/json_reader.cpp:703-756 | Any sequence of scalar values written as u-escapes, with surrogate pairs and digits of either case, decodes to its UTF-8 form |
| `JsonString.UnicodeEscape` | lib/Json/source/json_reader.cpp:703-731 | Every scalar value has such an escape |
| `JsonString.Utf8IsWellFormed` | lib/Json/source/json_reader.cpp:69-103 | The encoding of every scalar value is decoded by the byte ranges of section 4 of RFC 3629 to that value and length |
| `JsonEscapes.DecodesExactly` | lib/Json/source/json_reader.cpp:657-731 | The text between two quotes is decoded if and only if it is made of plain characters, the eight short escapes, u-escapes and pairs, and then to what section 7 of RFC 8259 gives for them |
| `JsonEscapes.EscapesAre` | lib/Json/source/json_writer.cpp:111-172 | What is written for each character: seven short escapes, u00 and two digits for other control characters, all others as they are |
| `JsonEscapes.DigitTexts` | lib/Json/source/json_writer.cpp:158-160 | The decimal and hexadecimal digits by their characters |
| `JsonLexer.TokenAt` | lib/Json/source/json_reader.cpp:273-345 | Every token consumes input; at the end there is only the end of the stream |
| `JsonLexer.NumberEmits` | lib/Json/source/json_reader.cpp:451-459 | A number before a delimiter is one token |
| `JsonLexer.WordEmits` | lib/Json/source/json_reader.cpp:316-327 | true, false and null are one token each |
| `JsonLexer.SpacesEmit` | lib/Json/source/json_reader.cpp:348-359 | White space yields no token |
| `JsonLexer.SpacesAre` | lib/Json/source/json_reader.cpp:348-359 | White space is space, tab, line feed and carriage return |
| `JsonLexer.BlockCommentEmits` | lib/Json/source/json_reader.cpp:426-436 | A block comment is one token, up to the first end mark |
| `JsonLexer.LineCommentEmits` | lib/Json/source/json_reader.cpp:438-448 | A line comment is one token, up to the end of its line |
| `JsonParser.ParseFailsIffErrors` | lib/Json/source/json_reader.cpp:151-191 | parse returns false exactly when an error was recorded |
| `JsonParser.ReadValueErrors` | lib/Json/source/json_reader.cpp:194-242 | So does readValue, through objects, arrays and recovery |
| `JsonParser.Recover` | lib/Json/source/json_reader.cpp:773-787 | Recovery only moves forward |
| `JsonTokens.ReadTokens` | lib/Json/source/json_reader.cpp:194-242 | Reading the tokens of a well-formed tree, followed by anything, gives the tree back and leaves what follows |
| `JsonTokens.ReadValueWellFormed` | lib/Json/source/json_reader.cpp:479-616 | Whatever the input, the tree that is built is well formed: members sorted and unique, integers in the exact ranges |
| `JsonTokens.AnySeparatorReads` | lib/Json/source/json_reader.cpp:538-578 | For all well-formed elements and all separators but comments and closing brackets, the array is read without an error |
| `JsonTokens.CommasExactly` | lib/Json/source/json_reader.cpp:566-573 | Those tokens are the ones section 5 of RFC 8259 allows if and only if every separator is a comma |
| `JsonGrammar.AcceptsExactly` | lib/Json/source/json_reader.cpp:194-242 | readValue succeeds if and only if the tokens begin with a derivation tree of the grammar, and then takes exactly its tokens and gives its value |
| `JsonGrammar.DocumentExactly` | lib/Json/source/json_reader.cpp:151-191 | So does the reader with a document; a strict one demands an array, an object or null besides |
| `JsonGrammar.NameExpected` | lib/Json/source/json_reader.cpp:485-535 | After any members and a comma, anything but a name is exactly the error about a missing brace or name; a closing brace passes only after an empty name |
| `JsonGrammar.ColonExpected` | lib/Json/source/json_reader.cpp:501-507 | After a name, anything but a colon is exactly the error about a missing colon |
| `JsonGrammar.CommaExpected` | lib/Json/source/json_reader.cpp:515-524 | After a member, anything but a comma, a brace or a comment is exactly the error about a missing comma |
| `JsonGrammar.ElementExpected` | lib/Json/source/json_reader.cpp:549-577 | After elements and a comma, a token that begins no value, such as the closing bracket, is exactly the error about a missing value |
| `JsonGrammar.RecoverSkips` | lib/Json/source/json_reader.cpp:773-787 | Recovery reads on after the first token of the wanted kind, and to the end if there is none |
| `JsonReader.DecodeHex` | lib/Json/source/json_reader.cpp:733-756 | The loop over four hexadecimal digits gives their value or fails |
| `JsonReader.DecodeCodePoint` | lib/Json/source/json_reader.cpp:703-731 | One escape or a surrogate pair gives its code point or fails |
| `JsonReader.DecodeStringToken` | lib/Json/source/json_reader.cpp:657-701 | The decoding loop computes the string's value or fails |
| `JsonReader.DecodeNumberToken` | lib/Json/source/json_reader.cpp:581-643 | The scan and the digit loop compute the number's value or fail |
| `JsonReader.Reader.constructor` | lib/Json/source/json_reader.cpp:109-118 | A reader with nothing read |
| `JsonReader.Reader.GetNextChar` | lib/Json/source/json_reader.cpp:807-813 | Never moves past the end |
| `JsonReader.Reader.SkipSpaces` | lib/Json/source/json_reader.cpp:348-359 | Moves to the first character that is not white space |
| `JsonReader.Reader.Match` | lib/Json/source/json_reader.cpp:362-374 | Moves only on a full match |
| `JsonReader.Reader.ReadString` | lib/Json/source/json_reader.cpp:463-476 | Stops after the first unescaped quote, or at the end |
| `JsonReader.Reader.ReadComment` | lib/Json/source/json_reader.cpp:377-448 | Both comment styles, within bounds |
| `JsonReader.Reader.ReadToken` | lib/Json/source/json_reader.cpp:273-345 | Reads the next token; the cursor stays in bounds and advances unless at the end |
| `JsonReader.Reader.RecoverFromError` | lib/Json/source/json_reader.cpp:773-787 | Terminates at the wanted token or the end |
| `JsonReader.Reader.ReadName` | lib/Json/source/json_reader.cpp:485-507 | The name and the colon of a member, the end of the object, or an error and recovery |
| `JsonReader.Reader.ReadValue` | lib/Json/source/json_reader.cpp:194-242 | Terminates on every input, cursor in bounds, node stack as deep as before and changed only at its top, errors as the pure parser says |
| `JsonReader.Reader.ReadObject` | lib/Json/source/json_reader.cpp:479-535 | The same for objects, with recovery |
| `JsonReader.Reader.ReadArray` | lib/Json/source/json_reader.cpp:538-578 | The same for arrays; any separator is accepted, as the code does |
| `JsonReader.Reader.Parse` | lib/Json/source/json_reader.cpp:151-191 | The whole reader computes the pure parser's result, value and errors |
| `JsonWriter.ValueToQuotedString` | lib/Json/source/json_writer.cpp:111-172 | Quotes and escapes; the short cut gives the same text |
| `JsonWriter.FastTextEmits` | lib/Json/source/json_writer.cpp:207-263 | The text of a tree tokenises to the tree's tokens before any delimiter |
| `JsonWriter.FastDocumentLexes` | lib/Json/source/json_writer.cpp:197-204 | The whole document tokenises to exactly the tree's tokens |
| `JsonWriter.FastTextIsTokens` | lib/Json/source/json_writer.cpp:207-263 | The text is the token texts and nothing else, but a space after each colon for YAML |
| `JsonWriter.FastWriter.constructor` | lib/Json/source/json_writer.cpp:184-194 | An empty document, with or without YAML compatibility |
| `JsonWriter.FastWriter.WriteValue` | lib/Json/source/json_writer.cpp:207-263 | Appends the text of the tree, whatever was there before |
| `JsonWriter.FastWriter.Write` | lib/Json/source/json_writer.cpp:197-204 | The text of the tree and a newline |
| `JsonStyledWriter.StyledWriter.constructor` | lib/Json/source/json_writer.cpp:269-273 | A writer with empty buffers |
| `JsonStyledWriter.StyledWriter.PushValue` | lib/Json/source/json_writer.cpp:435-442 | Into the buffer or the document, never both |
| `JsonStyledWriter.StyledWriter.WriteIndent` | lib/Json/source/json_writer.cpp:445-457 | Adds a line break and the indentation, unless the document ends in a space, or in a line break, or is empty |
| `JsonStyledWriter.StyledWriter.WriteValue` | lib/Json/source/json_writer.cpp:290-348 | Appends exactly the styled text of the value at the current depth, to the document or, for a leaf, to the buffer |
| `JsonStyledWriter.StyledWriter.WriteArrayValue` | lib/Json/source/json_writer.cpp:351-401 | The same for arrays on one line or several, through the shared buffer |
| `JsonStyledWriter.StyledWriter.IsMultilineArray` | lib/Json/source/json_writer.cpp:404-432 | True exactly for the arrays that do not fit on a line; the buffer then holds nothing or every element |
| `JsonStyledWriter.StyledWriter.Write` | lib/Json/source/json_writer.cpp:276-287 | The styled text and a newline: it has exactly the tree's tokens, and everything in it is in its place |
| `JsonStyledText.StyledDocumentLexes` | lib/Json/source/json_writer.cpp:276-457 | The styled text of any tree tokenises to exactly the tree's tokens |
| `JsonLayout.StyledIsLaidOut` | lib/Json/source/json_writer.cpp:290-457 | Judged on the text alone: every line begins with three spaces for each bracket open before it, members and elements of a broken array have lines of their own, and single spaces stand only where they belong |
| `JsonLayout.BreaksExactly` | lib/Json/source/json_writer.cpp:404-432 | An array is broken into lines if and only if it has 25 elements or more, one of them has content, or its line would have 74 characters or more |
| `JsonRoundTrip.FastRoundTrip` | lib/Json/source/json_writer.cpp:197-263 | Parsing what FastWriter writes gives back the same tree, for every well-formed tree without reals |
| `JsonRoundTrip.RoundTripExactly` | lib/Json/source/json_writer.cpp:197-263 | Among trees without reals, exactly the well-formed ones come back |
| `JsonRoundTrip.ReadingNormalises` | lib/Json/source/json_reader.cpp:151-191 | The tree left by reading any document, even a broken one, is written and read back unchanged |
| `JsonRoundTrip.StyledThenRead` | lib/Json/source/json_writer.cpp:276-457 | StyledWriter's text has FastWriter's tokens, so both parse to the same value |
| `JsonRoundTrip.PairReads` | lib/Json/source/json_reader.cpp:549-577 | Two integers with any punctuation but a closing bracket between them parse to an array of the two |
| `JsonRoundTrip.ColonSeparates` | lib/Json/source/json_reader.cpp:566-573 | So does the text [1:2] |
| `JsonRoundTrip.TrailingComma` | lib/Json/source/json_reader.cpp:492-495 | The text of an object with a comma after its last member is an error, if and only if that member's name is not empty |
| `JsonRoundTrip.NullRootAccepted` | lib/Json/source/json_value.cpp:1312-1316 | It accepts the text null, because null counts as an array |
| `JsonCut.StreamReadsExactly` | lib/Json/source/json_reader.cpp:133-148 | A document read from a stream gives the value back if no string or name holds the byte 0xFF, and fails if one does |
| `JsonCut.GetLine` | lib/Json/source/json_reader.cpp:145-146 | The text up to the first byte 0xFF |
| `JsonCut.CutFails` | lib/Json/source/json_reader.cpp:194-242 | Any proper prefix of a well-formed value's tokens, followed by a bad token, is an error, through all nesting |
| `JsonCut.LexCut` | lib/Json/source/json_reader.cpp:273-345 | A text cut within a string has some of its tokens and then a bad one |
| `JsonCut.TokensStop` | lib/Json/source/json_writer.cpp:207-263 | The written tokens hold the byte exactly if a string or a name does |
| `BatchAllocator.SoundExactly` | lib/Json/source/json_batchallocator.h:30-110 | Over every run of allocations and releases blocks stay inside their pages and apart, and all batches but the current one full, if and only if the width divides the page |
| `BatchAllocator.OverrunsPage` | lib/Json/source/json_batchallocator.h:74-76 | Otherwise perPage + 1 allocations run out of the page's memory |
| `BatchAllocator.ArrayPagesOverrun` | lib/Json/source/json_internalarray.inl:137-138 | The instantiation with 8 items and 255 per page is such a layout |
| `BatchAllocator.AllocateInv` | lib/Json/source/json_batchallocator.h:53-77 | An allocation returns a block that is not live, whatever the layout; and inside its page when the width divides it |
| `BatchAllocator.ReleaseInv` | lib/Json/source/json_batchallocator.h:81-86 | So does releasing a live block |
| `BatchAllocator.InvSound` | lib/Json/source/json_batchallocator.h:53-110 | The invariant of dividing layouts means no overlap, inside the page, free blocks not live, other batches full |
| `BatchAllocator.CutsArePeak` | lib/Json/source/json_batchallocator.h:53-86 | Over every run and for every layout, each block cut from a page is live or free, and exactly as many are cut as were live at once at most |
| `BatchAllocator.ReleasedComesBack` | lib/Json/source/json_batchallocator.h:55-86 | An allocation right after a release gives the same block and undoes it |
| `BatchAllocator.Search` | lib/Json/source/json_batchallocator.h:61-66 | The search stops at the first batch with space, or at the end |
| `BatchAllocator.Allocator.constructor` | lib/Json/source/json_batchallocator.h:30-40 | A dummy page without objects, for every layout the assertions allow |
| `BatchAllocator.Allocator.Allocate` | lib/Json/source/json_batchallocator.h:53-77 | The code with its free list threaded through the blocks, for every layout; a block that was not live, and inside its page when the width divides it |
| `BatchAllocator.Allocator.Release` | lib/Json/source/json_batchallocator.h:81-86 | Pushes the block on the free list |
| `BatchAllocator.Allocator.Overwrite` | lib/Json/source/json_batchallocator.h:51-53 | Whatever the caller writes into a block it holds, the allocator is unaffected |
| `IntrusiveList.AddTailRing` | include/list.h:81-84 | list_add_tail puts the node last in the ring |
| `IntrusiveList.AddFrontRing` | include/list.h:67-70 | list_add puts it first |
| `IntrusiveList.DeleteRing` | include/list.h:107-111 | list_del takes out exactly that node |
| `IntrusiveList.MoveTailAcross` | include/list.h:169-174 | list_move_tail between two rings changes exactly the two |
| `IntrusiveList.MoveTailWithin` | include/list.h:169-174 | Within one ring it moves the node to the end |
| `IntrusiveList.MoveTailFrame` | include/list.h:169-174 | Any third ring is left alone |
| `IntrusiveList.EmptyAndSingular` | include/list.h:128-140 | On a ring the two pointer tests mean empty and one entry |
| `IntrusiveList.ListMemory.ListAdd_` | include/list.h:48-56 | The four pointer writes |
| `IntrusiveList.ListMemory.ListDel` | include/list.h:107-111 | The neighbours joined and the node's own pointers cleared |
| `IntrusiveList.ListMemory.ListMoveTail` | include/list.h:169-174 | The composition, on pointers |
| `Pool.Pool.constructor` | sys/pool.c:21-37 | The free list holds the buffer's entries in order; other rings are untouched; the counters add up |
| `Pool.Pool.GetFromPool` | sys/pool.c:49-63 | The entry free longest, or nothing exactly when none is free; counters and free list stay in step |
| `Pool.Pool.PutIntoPool` | sys/pool.c:74-82 | The entry goes behind the others |
| `LightLists.RunKeepsOrder` | ve/dev/light.c:85-296 | Over every run of registrations, controls and daemon passes each light is on exactly one of the four lists, ids are unique and the counters add up |
| `LightLists.DaemonPass` | ve/dev/light.c:257-296 | A pass sets each steady light exactly once, in order, appends them in that order to idle, and toggles exactly the due flashing lights |
| `LightLists.SteadyCallsExact` | ve/dev/light.c:267-272 | The driver calls are one per steady light, with its value |
| `LightLists.BlinkExact` | ve/dev/light.c:279-291 | Exactly the due lights change, each once |
| `LightLists.FindCorrect` | ve/dev/light.c:128-145 | Finding walks the three lists and finds the registered light with the id, if any |
| `LightLists.RegisterInv` | ve/dev/light.c:147-176 | Registering keeps the invariant |
| `LightLists.PutIdInv` | ve/dev/light.c:178-212 | A control keeps it |
| `LightLists.CtrlPut` | ve/dev/light.c:230-255 | A whole control message keeps the invariant |
| `LightRuns.CtrlPutExactly` | ve/dev/light.c:230-255 | It takes effect on exactly the lights asked for before the first id nobody registered: their values, their lists, and nothing else |
| `LightRuns.CtrlPutReports` | ve/dev/light.c:230-255 | It reports success exactly when there is no such id |
| `LightSignals.SignalAfterControl` | ve/dev/light.c:187-294 | What a driver sees after a control message, over every run without another one for its light: the value once if there is no interval, and otherwise the value and zero in turn, one each time the clock says so |
| `LightSignals.RunSignal` | ve/dev/light.c:261-298 | Over every such run the driver sees exactly what the light's list, value and state decide |
| `LightRuns.RegisterSticksExactly` | ve/dev/light.c:156-167 | A registration keeps the mutex if and only if the id is taken or no light is free |
| `LightRuns.RunSticksExactly` | ve/dev/light.c:147-176 | A run from the start loses the mutex if and only if it registers an id twice or more ids than there are lights |
| `LightRuns.TwiceSticks` | ve/dev/light.c:156-159 | Registering one id twice is such a run |
| `LightRuns.InitialBlank` | ve/dev/light.c:85-101 | The initial state is a start for these runs |
| `LightLists.StuckForever` | ve/dev/light.c:156-167 | Once the mutex is lost nothing ever changes again |
| `LightLists.InitialInv` | ve/dev/light.c:85-101 | The invariant holds at the start |
| `LightManager.MoveTailRings` | include/list.h:169-174 | Moving a node in the manager's memory moves it between the lists it stands for |
| `LightManager.Manager.constructor` | ve/dev/light.c:85-101 | Four free lights, three empty lists |
| `LightManager.Manager.LightFindFromList` | ve/dev/light.c:113-126 | The pointer walk finds the first light with the id |
| `LightManager.Manager.LightFind` | ve/dev/light.c:128-145 | Idle, then steady, then flash |
| `LightManager.Manager.LightRegst` | ve/dev/light.c:147-176 | The step of the state machine, failures included |
| `LightManager.Manager.LightCtrlPutId` | ve/dev/light.c:178-212 | The step of the state machine, on pointers |
| `LightManager.Manager.LightCtrlPut` | ve/dev/light.c:230-255 | The loop over the mask |
| `LightManager.Manager.SettleSteadyLights` | ve/dev/light.c:267-272 | Nodes leave the list while it is walked; the saved successor keeps the walk right |
| `LightManager.Manager.BlinkFlashing` | ve/dev/light.c:279-291 | The toggling loop |
| `LightManager.Manager.LightCtrlDaemon` | ve/dev/light.c:257-296 | The whole pass |
| `WhiteLight.StatusIsLastCommand` | ve/dev/light.c:316-544 | Over every run, whatever the modes, daylight, brightness and coil events, status is ON iff the last white command was on |
| `WhiteLight.DriverFollowsStatus` | ve/dev/light.c:257-544 | With the white light registered and controlled by nobody else: whenever it is idle, its driver was last told 255 if ON and 0 if OFF |
| `WhiteLight.DaemonLeavesIdle` | ve/dev/light.c:257-311 | Each daemon pass leaves it idle, so the driver follows within one round |
| `WhiteLight.RegisterDrives` | ve/dev/light.c:147-176 | Registering the white light while no driver has been called yet starts such a run |
| `WhiteLight.StableInOnePass` | ve/dev/light.c:363-419 | With inputs held, night-on and always-on reach their status in one pass and after two passes nothing changes |
| `WhiteLight.FirstPassDecides` | ve/dev/light.c:425-449 | In coil mode the first pass after an event decides: on exactly if on was asked for and it is night or the light was on; until the next event no pass changes that, whatever the daylight |
| `WhiteLight.CoilPass` | ve/dev/light.c:425-449 | The status after a coil event and one pass |
| `WhiteLight.PassCommands` | ve/dev/light.c:353-462 | What one pass commands in every mode: a changed brightness of a lit light in night mode, and each change of status once |
| `WhiteLight.PassFollowsCommands` | ve/dev/light.c:523-544 | One pass keeps status and commands together, through every handler |
| `WhiteDaemon.WhiteLightDaemon.constructor` | ve/dev/light.c:100-101 | The light starts off, with the white light registered |
| `WhiteDaemon.WhiteLightDaemon.WhiteLightSet` | ve/dev/light.c:316-327 | A control message for the white light alone |
| `WhiteDaemon.WhiteLightDaemon.CmWhiteLightSet` | ve/dev/light.c:337-349 | A coil event counts only in run mode 2 |
| `WhiteDaemon.WhiteLightDaemon.WhiteLightAlways` | ve/dev/light.c:363-378 | The always-on handler |
| `WhiteDaemon.WhiteLightDaemon.WhiteLightNight` | ve/dev/light.c:380-419 | The night-on handler, with its brightness memory |
| `WhiteDaemon.WhiteLightDaemon.WhiteLightNightCoil` | ve/dev/light.c:421-449 | The coil handler, which consumes a switch-on by day |
| `WhiteDaemon.WhiteLightDaemon.UpdateStatus` | ve/dev/light.c:452-461 | Keeps the previous status on a change only |
| `WhiteDaemon.WhiteLightDaemon.Daemon` | ve/dev/light.c:464-544 | The mode tables, video mode without a coil handler; afterwards status, last command and driver agree again |
| `WhiteDaemon.WhiteLightDaemon.LightThreadRound` | ve/dev/light.c:298-314 | One round of the thread; by its end the white driver has been told the status the round began with |
| `WhiteDaemon.WhiteLightDaemon.ListsPass` | ve/dev/light.c:257-296 | The lists' pass tells the white driver the status |
| `WhiteDaemon.WhiteLightDaemon.OtherCtrlPut` | ve/dev/light.c:230-255 | Controlling other lights keeps status, last command and driver in agreement |
| `WhiteDaemon.WhiteLightDaemon.OtherRegst` | ve/dev/light.c:147-176 | So does registering another light, unless the mutex is lost |
| `FanOut.EveryInterleaving` | storage/park_records_process.cpp:80-375 | In every interleaving of any number of publishers and consumers each count is the number of references held, queued or lost, no block is freed twice, and no thread can touch a freed block |
| `FanOut.FreedUnreferenced` | tpi/inc/refhandle.h:197-219 | A block is freed only when nobody holds or has queued a reference to it |
| `FanOut.StepKeepsInv` | tpi/inc/refhandle.h:185-219 | Every step a thread can take is safe and keeps the invariant |
| `FanOut.LeftOverExactly` | vmq/src/vd_msg_queue.cpp:107-121 | When all threads are idle, what is still allocated is exactly what a reference was lost to, as by a failed send |
| `FanOut.Drains` | storage/park_records_process.cpp:267-290 | From any reachable state the threads can finish, and then every block without a lost reference is freed |
| `FanOut.RunsEnd` | storage/park_records_process.cpp:318-375 | Once nothing new is published every order of steps ends, within a bound known in advance |
| `FanOut.NeverBlocked` | storage/park_records_process.cpp:318-375 | Until then some step is always possible |
| `RefHandle.MemoryStepsFreeOnce` | tpi/inc/refhandle.h:164-219 | Every primitive keeps each block created once and freed at most once, although addresses are reused |
| `RefHandle.Handles.RefHandleCreate` | tpi/inc/refhandle.h:164-182 | Count one, or null |
| `RefHandle.Handles.RefHandleRetain` | tpi/inc/refhandle.h:185-194 | One more, or zero for null |
| `RefHandle.Handles.RefHandleRelease` | tpi/inc/refhandle.h:197-219 | One less; freed and nulled exactly at zero |
| `Publisher.Process.Publish` | storage/park_records_process.cpp:242-265 | Create, notify every platform, release: undisturbed, the record is left with one reference for each platform that queues it, and is freed at once if there is none |
| `Publisher.Process.NotifyAll` | storage/park_records_process.cpp:258-262 | The loop over the platforms sends each one's message in order, with or without the record |
| `Publisher.Process.Notify` | storage/park_records_process.cpp:258-262 | One platform: nothing, the record queued, or a copy and a message without it |
| `Publisher.Process.NotifyByQueue` | tpi/park/http/src/park_http.cpp:53-105 | Retain and queue the record |
| `Publisher.Process.NotifyByCopy` | tpi/park/zehin/src/park_zehin.cpp:180-215 | Retain, copy, release, then queue a message without the record |
| `Publisher.Process.NotifyAndCopy` | tpi/park/bitcom/src/park_bitcom.cpp:59-130 | Retain, copy, queue a message without the record, then release |
| `Publisher.Process.Consume` | tpi/park/http/src/http_pthread.cpp:307-356 | A handler takes a message and releases its reference, if it has one |
| `Publisher.Process.Release` | tpi/inc/refhandle.h:197-219 | The decrement and, at zero, the free, as two steps of the state machine |
| `Publisher.Process.Send` | vmq/src/vd_msg_queue.cpp:107-121 | A message; or, when the queue is full, a lost reference if the message had the record |
| `Publisher.PublishedCount` | storage/park_records_process.cpp:242-265 | What is left of a publication, from the counting invariant alone |
| `Publisher.Process.constructor` | storage/park_records_process.cpp:80-375 | From here on what the code does is a run of the state machine; every method keeps that |
| `Publisher.Extend` | storage/park_records_process.cpp:80-375 | A run followed by any step a thread can take is a run, and the step is safe |
| `ParkHistory.Live` | park_status/src/park_status.cpp:154-378 | After any passages, light changes and restarts the file parses to the saved status and records; as long as no restart loses records (by the condition of KeepsAllExactly, on the events), there is a file as soon as something was written, with exactly the min(n, 10) most recent ones, newest first, and a car with its plate exactly if the newest drove in |
| `ParkHistory.KeepsAllExactly` | park_status/src/park_status.cpp:161-165 | The program has all records ever pushed if and only if no restart comes after a passage while a text of the ten newest passages holds the byte 0xFF, or the space code in the file does (the one configured at the last restart before the last write, if that restart could load a file) |
| `ParkHistory.PlainTextsAreKept` | park_status/src/park_status.cpp:161-165 | So it has when no text of any event holds that byte |
| `ParkHistory.StopByteForgets` | park_status/src/park_status.cpp:218-222 | One picture name with that byte, and a restart, lose the record |
| `ParkHistory.ShownStreams` | park_status/src/park_status.cpp:326-333 | A dumped file is read back if and only if none of its texts holds that byte |
| `ParkHistory.FillRepresents` | park_status/src/park_status.cpp:184-228 | Taking the next place of the ring makes the record the newest and drops the oldest of ten |
| `ParkHistory.ParkStatus.constructor` | park_status/src/park_status.cpp:80-94 | An empty history |
| `ParkHistory.ParkStatus.PushRecord` | park_status/src/park_status.cpp:174-228 | The newest records, at most ten, and the status of the passage |
| `ParkHistory.ParkStatus.DumpHistory` | park_status/src/park_status.cpp:274-304 | The loop lists every record the ring stands for once, newest first, numbered from one |
| `ParkHistory.ParkStatus.DumpToFile` | park_status/src/park_status.cpp:259-314 | The text has the tokens of the status and the history |
| `ParkHistory.ParkStatus.ParseHistory` | park_status/src/park_status.cpp:367-377 | The loop takes one place of the ring for each item, the last item first |
| `ParkHistory.RefillRepresents` | park_status/src/park_status.cpp:367-377 | The records of the file come before those that were there, in the file's order, and the oldest beyond ten drop out |
| `ParkHistory.ParkStatus.Take` | park_status/src/park_status.cpp:382-387 | One place on, around the end of the array, and nothing else changes |
| `ParkHistory.ParkStatus.LoadFromFile` | park_status/src/park_status.cpp:316-338 | A text that does not parse, up to the byte 0xFF, changes nothing and returns -1; from any other, whoever wrote it, the status and the items are taken over, given the types and lengths of ParseFromJson |
| `ParkHistory.ParkStatus.ParseFromJson` | park_status/src/park_status.cpp:340-378 | The status and the items of any tree whose values have the types and lengths that the conversions and arrays demand |
| `ParkHistory.Load` | park_status/src/park_status.cpp:316-338 | A blank object holds exactly the records and the status that the file tells |
| `ParkHistory.DumpTells` | park_status/src/park_status.cpp:259-378 | What is dumped can be read, and tells the same records and status, with the configured space code |
| `ParkHistory.StartUp` | park_status/src/park_status.cpp:161-165 | A new process continues where a readable file left off, and is blank otherwise |
| `ParkHistory.Change` | park_status/src/park_status.cpp:167-230 | A light change or a passage, and the file shows the result |
| `ParkJson.ItemRoundTrip` | park_status/src/park_status.cpp:380-424 | A record written as a JSON object and read back is the same record |
| `ParkJson.StatusRoundTrip` | park_status/src/park_status.cpp:340-365 | So is the status, the light through its name table; the space code comes from the configuration |
| `ParkJson.HistoryRoundTrip` | park_status/src/park_status.cpp:367-377 | So is the array of records |
| `ParkJson.RootHolds` | park_status/src/park_status.cpp:268-293 | The dumped tree holds the byte 0xFF exactly if one of its texts does |
| `ParkJson.LightName` | park_status/src/park_status.cpp:26-66 | The table of names inverts the search in it |
| `ParkJson.LightNameIs` | park_status/src/park_status.cpp:26-34 | The seven names by their characters |
| `ParkJson.DriveTextIs` | park_status/src/park_status.cpp:287-291 | The two texts of a record's state by their characters |
| `ParkJson.RootFieldsRead` | park_status/src/park_status.cpp:268-293 | What the dumped tree holds under each name |
| `ParkJson.ItemFieldsRead` | park_status/src/park_status.cpp:279-290 | What the tree of a record holds under each name |
| `Base64.DecodeInvertsEncode` | sys/base64.c:126-209 | Every byte string, encoded, terminated and followed by anything, decodes to itself |
| `Base64.UnpaddedBits` | sys/base64.c:179-209 | The digits of an encoding are the bits of the bytes, filled with zeros to a whole digit |
| `Base64.BytesAreBits` | sys/base64.c:126-169 | Decoding any run of digits, well formed or not, gives the whole octets of their bits |
| `Base64.BytesLength` | sys/base64.c:135-168 | As many bytes as there are whole octets |
| `Base64.GroupInverse` | sys/base64.c:141-150 | Four digits and three bytes are inverse |
| `Base64.SixOfBasis` | sys/base64.c:89-109 | The two tables are inverse on the 64 digits |
| `Base64.AlphabetIs` | sys/base64.c:171-172 | Each digit is written as the character at its place in the alphabet of section 4 of RFC 4648, and read so |
| `Base64.TestVectors` | sys/base64.c:179-209 | Three test vectors of section 10 of RFC 4648 |
| `Base64.EncodeLength` | sys/base64.c:174-177 | The text and its NUL have exactly the announced length |
| `Base64.Base64Encode` | sys/base64.c:179-209 | Writes the encoding and a NUL, returns the announced length, touches nothing else |
| `Base64.Base64DecodeLen` | sys/base64.c:111-124 | Enough for the decoded bytes and a NUL |
| `Base64.Base64Decode` | sys/base64.c:126-169 | For every terminated text: writes the decoded bytes and a NUL within the announced length, returns the bytes before the NUL, touches nothing else |
| `JsonConfig.JsonCfg.Find` | ve/config/json_cfg.c:50-69 | The last item with the field, or null, exactly as a linear search would |
| `JsonConfig.JsonCfg.Init` | ve/config/json_cfg.c:37-48 | Builds the index whatever the items' links held before |
| `JsonConfig.JsonCfg.AddItem` | ve/config/json_cfg.c:29-35 | One more item in its bucket |
| `JsonConfig.JsonCfg.HlistAddHead` | include/list.h:336-344 | The four pointer writes |
| `JsonConfig.AddKeepsIndex` | include/list.h:336-344 | Adding at the head keeps every chain, forwards and backwards |
| `JsonConfig.BucketSearch` | ve/config/json_cfg.c:50-69 | Searching the field's own bucket finds what searching everything would, whatever collides |
| `JsonConfig.HashPosition` | ve/config/json_cfg.c:13-27 | The hash in wrapping 32-bit arithmetic, reduced to a bucket |
| `JsonConfig.PositionIs` | ve/config/json_cfg.c:13-27 | The bucket is the sum of the bytes weighted with powers of 37, modulo 8: neither the wrap-around nor the sign of char matters |

## Left out

- Devices, sockets, brokers, shell commands, SQLite, pictures and character-set conversion: nothing to prove without the other side; their results are parameters where they matter.
- Real numbers in JSON: `sscanf` and `printf` of doubles are parameters (`scan` in the parser's configuration, `realText` in the writers, of which only that it looks like a number is used); the buffer `decodeDouble` copies into is not modelled, and reals are compared as mathematical reals.
- JsonReader.Reader.ReadComment: comments are skipped as the reader skips them, but not collected or placed.
- JsonReader.Reader.ReadValue: collected comments are not attached to values.
- JsonReader.Reader.Parse: neither comments after the root nor the positions of errors are modelled.
- JsonStyledWriter.StyledWriter.WriteValue: for values without comments.
- JsonStyledWriter.StyledWriter.WriteArrayValue: for elements without comments.
- JsonStyledWriter.StyledWriter.Write: for documents without comments; like the other writer's methods it demands that every string has a pointer, because `valueToQuotedString` follows it. The texts and tokens that `FastText` and `Tokens` give a string without one are those of an empty string, and describe no code.
- Error locations in JSON: an error is its message kind and token; the failures inside a string share one kind, and line and column are not computed.
- Sparse arrays, `Path`, `StyledStreamWriter`, `resize`, `removeMember`, the internal-map variant of `Value`: not modelled; arrays are dense.
- Aliasing of JSON nodes: the reader's stack holds values, not pointers into the tree; a child is written back into its parent when it is popped.
- `-value` of the smallest int in `valueToString` is taken as two's complement gives it.
- ONCE in aos_crc64.c: the two tables are filled on first use by one thread; the spin of a second thread is not modelled.
- `Base64encode` with a negative length, and lengths beyond a 32-bit int.
- Flash timing: the outcome of the clock arithmetic is a parameter, one truth value for each light and pass.
- LightLists.CtrlPut: its own contract is the invariant; what a message does is `LightRuns.CtrlPutExactly`.
- LightLists.StuckForever: says that a lost mutex stays lost; which runs lose it is `LightRuns.RunSticksExactly`.
- WhiteLight.StatusIsLastCommand: once the lights' mutex is lost only coil events still happen; a white pass already waiting for the mutex at that moment has changed at most its pending action and brightness memory.
- `light_ctrl_show`, the status texts and the other log output.
- FanOut.EveryInterleaving: one life of the process; messages that a System V queue still holds after a restart, and the wrap-around of a count at 2 to the power of the word size, are not modelled. The message type a consumer waits for is carried but any message may be received.
- ParkHistory.Live: texts must be shorter than their arrays, as for PushRecord.
- ParkHistory.ParkStatus.LoadFromFile: the parsed value must meet the demands of ParseFromJson.
- ParkHistory.ParkStatus.ParseFromJson: the library throws on values of other types, and a text as long as its array is written past the end of it; both are outside the model. The temporaries whose `c_str()` outlives them are taken as values, and so is a space code of 32 bytes, whose terminator lands in the plate behind it.
- ParkHistory.ParkStatus.PushRecord: texts must be shorter than their arrays. The copies of the time and the picture names are unchecked and demand it; the plate is the converted one, and a conversion that fails or does not fit (which leaves in the status what was there before, or a cut text without a terminator) is not modelled. Expiry of pictures and the database row are left out.
- The size computation of `allocateBatch` and a failing `malloc` there.
- `enum2str` and `str2enum`: plain searches of a small table.
- Sunrise times, record reclaim, configuration field handlers, light priorities, LED and audio framing: field copying, floating point, or code whose other half is not in the repository.
