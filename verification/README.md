# Verification of the engines under the Livox SDK

This project models the parts of the SDK whose correctness rests on more than one line, and proves properties of
the models with Dafny. `dafny verify dfyconfig.toml` checks everything.

- **Frame checksums** (`Bits`, `Crc`, `FastCrc`): table-driven, sliced and byte-swapped CRC code against
  bit-at-a-time polynomial division, and what such a checksum detects.
- **JSON reading** (`Streams`, `Utf8`, `Utf16`, `JsonText`, `JsonGrammar`, `JsonAutomaton`, `JsonReaders`,
  `Reader`, `JsonSpelling`): the recursive and the table-driven reader of RapidJSON, which share their scanners, the
  exact integer arithmetic of the number scanner, and which texts are strings and numbers and what they stand for.
- **JSON writing** (`Writer`, `Itoa`, `PrettyWriter`, `PrettyRoundTrip`, `Reformat`): the digit routines, the
  indenting writer and its level stack, that its output reads back, and that any text read and written stays the same
  from then on.
- **JSON values** (`Json`, `Permutations`, `Dom`, `DomEquality`, `DomRoundTrip`): trees and the events that announce
  them, number flags, the value stack of a document, equality, and values written as text and read back.
- **JSON schema** (`Hasher`, `HashCodes`, `SchemaValidation`, `SchemaMeaning`, `SchemaStreaming`, `SchemaKeywords`,
  `SchemaOrder`, `SchemaValidator`): the streaming validator with its nested parallel validators against a recursive
  meaning of schemas over trees, and that against what each keyword says; what hash codes tell apart.
- **JSON Pointer** (`PointerText`, `Pointer`, `PointerAccess`, `PointerFrame`, `PointerOrder`): both text forms,
  resolution, creation and deletion with what they leave alone, and the order of pointers.
- **Memory and files** (`Allocators`, `FileReadStream`): the pool allocator and the buffered file stream.
- **Device channels** (`DeviceManager`): who owns which socket, over every run of the SDK.

Characters are 8-bit code units. An object that the code updates in place is a class whose methods are proved
against functions on its state; the theorems are about those functions. Handlers are assumed to accept every
event. What a stream still holds is a string, as a pointer into a zero-terminated buffer is. Machine words of the
checksums and of the hash codes are sequences of bits, lowest first.

Two places where equality is not what its documentation or arithmetic says, and the model follows the code:

- `operator==` (3rdparty/rapidjson/document.h:1104-1107) is documented as false for every object with a repeated
  member name. On the left that is so exactly when two members of one name have different values
  (`Dom.DuplicatesDiffer`, for member values without doubles and repeated names; `Dom.EqualToSome` for all values);
  on the right always, if the left has no repeated name (`Dom.DuplicatesOnTheRight`). So the order of the operands
  matters: `{"a":null,"a":null}` equals `{"a":null,"a":true}`, but not the other way round. `Dom.OrderMatters` says
  exactly when equality can be turned round, and `Dom.RepeatedNames` holds such objects.
- Whole numbers are compared as 64-bit patterns, so that -1 equals 18446744073709551615 (`Dom.IntegersModulo`).

Three properties hold only under a condition, which is stated exactly:

- `Accept` into a document rebuilds an identical value if and only if no number in it was made from the bare
  number type (`Dom.AcceptRebuilds`).
- `Get` after `Create` or `Set` finds the value if and only if no step of the creation appended to an array
  through the token "-" (`PointerAccess.GetAfterCreate`), that is, if no token "-" of the pointer meets an array that
  was there before the call (`PointerAccess.AppendsToWhatIsThere`).
- A numeral too large for 32 bits is no array index if and only if some digit makes the wrapped number smaller, or
  the wrapped number is the invalid index (`PointerText.NumeralIsIndex`); `10000000000` is taken for 1410065408
  (`PointerText.TooLargeYetAnIndex`).

## Model

| member | source | states |
|---|---|---|
| `Crc.TableStepDivides` | 3rdparty/FastCRC/FastCRCsw.cpp:192-195 | one table lookup per byte is eight steps of the division, for reflected registers and for byte-swapped MSB-first ones |
| `Crc.FeedDivides` | 3rdparty/FastCRC/FastCRCsw.cpp:186-211 | the byte-wise table loop over a whole message is the division, seen through the byte swap of the register |
| `Crc.TableRow` | 3rdparty/FastCRC/FastCRC_tables.h:1006-1264 | row k of the generated tables advances a byte through k + 1 zero bytes |
| `Crc.PeelByte` | 3rdparty/FastCRC/FastCRCsw.cpp:174-178 | the low byte of a register can be looked up in a later row and the rest advanced on its own |
| `Crc.Slice32Feeds` | 3rdparty/FastCRC/FastCRCsw.cpp:435-439 | the four-table macro on a loaded word equals four single-byte steps |
| `Crc.SliceSmallFeeds` | 3rdparty/FastCRC/FastCRCsw.cpp:441-453 | the small-table macro on a loaded word equals four single-byte steps |
| `Crc.Slice16Feeds` | 3rdparty/FastCRC/FastCRCsw.cpp:174-178 | the 16-bit macro on a loaded word equals four single-byte steps |
| `FastCrc.FastCRC16.Update` | 3rdparty/FastCRC/FastCRCsw.cpp:228-253 | prologue, 16-byte blocks and tail advance the seed by exactly the message, at every address alignment |
| `FastCrc.FastCRC32.Update` | 3rdparty/FastCRC/FastCRCsw.cpp:459-493 | the same for 32 bits, with the big or the small tables |
| `FastCrc.FastCRC16.CcittUpd` | 3rdparty/FastCRC/FastCRCsw.cpp:186-211 | the result is the MSB-first division by 0x1021 continued from the unswapped seed, and the seed is its byte swap |
| `FastCrc.FastCRC16.Ccitt` | 3rdparty/FastCRC/FastCRCsw.cpp:213-218 | the same started from 0xffff |
| `FastCrc.FastCRC16.Mcrf4xxUpd` | 3rdparty/FastCRC/FastCRCsw.cpp:228-253 | the result is the reflected division by 0x1021 continued from the seed |
| `FastCrc.FastCRC32.Crc32Upd` | 3rdparty/FastCRC/FastCRCsw.cpp:459-493 | the seed is the reflected division by 0x04C11DB7, the result its complement (section 8 of RFC 1952) |
| `FastCrc.FastCRC32.CksumUpd` | 3rdparty/FastCRC/FastCRCsw.cpp:513-546 | the result is the complement of the MSB-first division by 0x04C11DB7 |
| `FastCrc.CcittInChunks` | 3rdparty/FastCRC/FastCRCsw.cpp:186-218 | any sequence of update calls, each at its own address, gives the checksum of the concatenation |
| `FastCrc.Crc32InChunks` | 3rdparty/FastCRC/FastCRCsw.cpp:459-500 | the same for crc32 |
| `Crc.WindowIsInjective` | 3rdparty/FastCRC/FastCRCsw.cpp:186-211 | different bytes in a window no longer than the register lead to different registers |
| `Crc.BurstIsDetected` | 3rdparty/FastCRC/FastCRCsw.cpp:459-500 | messages that differ only inside such a window have different checksums, for every reversible generator |
| `FastCrc.FrameBurstIsDetected` | samples/lidar_cmd_observer/main.cpp:65-71 | ccitt detects every change inside 2 consecutive bytes and crc32 every change inside 4 |
| `Utf8.DecodeInvertsEncode` | 3rdparty/rapidjson/encodings.h:108-125 | decoding the encoding of a scalar value gives it back and stops behind it |
| `Utf8.EncodeInvertsDecode` | 3rdparty/rapidjson/encodings.h:148-211 | whatever the decoder accepts is the encoding of its result, a scalar value (section 4 of RFC 3629) |
| `Utf8.Decode` | 3rdparty/rapidjson/encodings.h:148-211 | the decoder's switch is the table of masks by byte class |
| `Utf8.ValidateAgrees` | 3rdparty/rapidjson/encodings.h:214-267 | the validator accepts what the decoder accepts and copies exactly the bytes it takes, also when it rejects |
| `Utf8.MasksMean` | 3rdparty/rapidjson/encodings.h:269-298 | which continuation bytes each mask admits |
| `Utf8.DecodeAllInvertsEncodeAll` | 3rdparty/rapidjson/encodings.h:108-211 | the same for sequences of scalar values |
| `Utf8.EncodeAllInvertsDecodeAll` | 3rdparty/rapidjson/encodings.h:108-211 | the well-formed texts are exactly the encodings of sequences of scalar values |
| `Utf16.DecodeInvertsEncode` | 3rdparty/rapidjson/encodings.h:355-402 | UTF-16 decoding inverts encoding |
| `Utf16.EncodeInvertsDecode` | 3rdparty/rapidjson/encodings.h:355-402 | whatever the UTF-16 decoder accepts is the encoding of its result |
| `Utf16.TranscodeRoundTrip` | 3rdparty/rapidjson/encodings.h:108-402 | a code point taken from UTF-8 to UTF-16 and back gives the same bytes |
| `Reader.GenericReader.SkipWhitespaceAndComments` | 3rdparty/rapidjson/reader.h:769-795 | white space and comments are skipped, malformed comments are errors |
| `Reader.GenericReader.ParseStringToStream` | 3rdparty/rapidjson/reader.h:1058-1125 | the text of a string with its escapes and surrogate pairs decoded, or an error |
| `JsonSpelling.StringsAreSpelled` | 3rdparty/rapidjson/reader.h:1058-1125 | the scanner accepts exactly the strings of section 7 of RFC 8259 (and lone low surrogates), and reads each character, short escape, code unit and surrogate pair as the bytes it stands for |
| `JsonSpelling.EscapedScalarReads` | 3rdparty/rapidjson/reader.h:1080-1106 | the escapes of the UTF-16 code units of any scalar value, in digits of either case, are read as its UTF-8 bytes |
| `JsonSpelling.ShortEscape` | 3rdparty/rapidjson/reader.h:1062-1071 | the eight short escapes and the codes they stand for; no other letter is one |
| `JsonSpelling.Hex4Numeral` | 3rdparty/rapidjson/reader.h:967-988 | four characters are accepted exactly when they are hexadecimal digits, of either case, and give that number |
| `Reader.GenericReader.ParseInteger` | 3rdparty/rapidjson/reader.h:1598-1701 | the value is exact in 32 or 64 bits wherever it fits, without any overflow on the way |
| `Reader.GenericReader.ParseFraction` | 3rdparty/rapidjson/reader.h:1710-1759 | the scale is minus the number of fraction digits that entered the significand |
| `Reader.GenericReader.ParseExponent` | 3rdparty/rapidjson/reader.h:1762-1807 | a positive exponent is exact, and too big exactly when it exceeds 308 minus the scale; a negative one is exact up to the bound and clamped to a prefix beyond it; up to 2*10^8 fraction digits nothing overflows |
| `Reader.Clamped` | 3rdparty/rapidjson/reader.h:1769-1788 | a clamped exponent is the spelled one unless that exceeds the bound, and then exceeds the bound itself |
| `Reader.GenericReader.ParseNumber` | 3rdparty/rapidjson/reader.h:1584-1868 | one event with the number the literal denotes, or an error; up to 2*10^8 fraction digits no `int` overflows |
| `JsonSpelling.LiteralReads` | 3rdparty/rapidjson/reader.h:1584-1868 | any number of section 6 of RFC 8259 is read whole: exact if it is an integer that fits, too big if its exponent is, and otherwise the double of its text with its sign |
| `Writer.IntegerLiterals` | 3rdparty/rapidjson/reader.h:1853-1863 | an integer literal gives `Uint`, `Uint64`, `Int` or `Int64` with its exact value by the limits 2^32, 2^64, -2^31 and -2^63, and a double beyond |
| `Reader.GenericReader.ParseValue` | 3rdparty/rapidjson/reader.h:1872-1898 | the events of the value that the grammar finds, and the text after it |
| `Reader.GenericReader.ParseObject` | 3rdparty/rapidjson/reader.h:797-865 | the events of the object, with the count of its members |
| `Reader.GenericReader.ParseArray` | 3rdparty/rapidjson/reader.h:868-913 | the events of the array, with the count of its elements |
| `Reader.GenericReader.Parse` | 3rdparty/rapidjson/reader.h:615-646 | accepts exactly the documents of the grammar and announces their value, whatever happened to the reader before |
| `JsonAutomaton.TransitKeeps` | 3rdparty/rapidjson/reader.h:2192-2350 | every transition that is no error consumes input and keeps the discipline of the stack of states and counts |
| `JsonReaders.ValueFollows` | 3rdparty/rapidjson/reader.h:2012-2350 | from any state that wants a value, the automaton does what the grammar does for the value, and returns to the state after it |
| `JsonReaders.ElementsFollow` | 3rdparty/rapidjson/reader.h:2012-2350 | inside an array the automaton announces the elements the grammar finds and counts them |
| `JsonReaders.MembersFollow` | 3rdparty/rapidjson/reader.h:2012-2350 | inside an object it announces the members the grammar finds and counts them |
| `JsonReaders.ReadersAgree` | 3rdparty/rapidjson/reader.h:2401-2433 | for all flags the two readers accept the same texts, with the same events and counts, and stop at the same place |
| `Reader.GenericReader.Transit` | 3rdparty/rapidjson/reader.h:2192-2350 | the transition on the reader's own stack and stream is the automaton's |
| `Reader.GenericReader.IterativeParse` | 3rdparty/rapidjson/reader.h:2401-2433 | the loop terminates, and has the contract of `Parse` |
| `Writer.StringReadsBack` | 3rdparty/rapidjson/writer.h:437-520 | any string, whatever its bytes, is read back from its escaped form |
| `Writer.WriteString` | 3rdparty/rapidjson/writer.h:437-520 | the characters written are the quoted and escaped string |
| `JsonSpelling.WriterSpells` | 3rdparty/rapidjson/writer.h:437-520 | each character is written with its short escape (the solidus excepted), else with four hexadecimal digits in capitals if it is a control character, else as it is |
| `Writer.NumberReadsBack` | 3rdparty/rapidjson/writer.h:367-402 | an integer is read back with its value in the narrowest type |
| `Itoa.SplitEight` | 3rdparty/rapidjson/internal/itoa.h:74-109 | a numeral is that of the upper digits with eight more digits, zeros included |
| `Itoa.U32toa` | 3rdparty/rapidjson/internal/itoa.h:46-111 | the pairs of digits from the table, with the leading zeros left out, are the decimal numeral, in at most 10 characters |
| `Itoa.U64toa` | 3rdparty/rapidjson/internal/itoa.h:124-272 | the same for 64 bits, in at most 20 characters |
| `Itoa.I32toa` | 3rdparty/rapidjson/internal/itoa.h:113-122 | the sign and the numeral of the magnitude, for the least integer too |
| `Itoa.I64toa` | 3rdparty/rapidjson/internal/itoa.h:274-283 | the same for 64 bits |
| `Itoa.WriteInteger` | 3rdparty/rapidjson/writer.h:367-402 | the characters written for an integer event; no buffer overflows |
| `Itoa.WrittenReadsBack` | 3rdparty/rapidjson/writer.h:367-402 | what is written for an integer is read back with its value in the narrowest type |
| `Writer.ScalarReadsBack` | 3rdparty/rapidjson/writer.h:340-520 | every scalar is read back when a delimiter follows |
| `PrettyWriter.PrettyWriter.PrettyPrefix` | 3rdparty/rapidjson/prettywriter.h:263-303 | what goes before a value, by the top level and its count |
| `PrettyWriter.PrettyWriter.EndObject` | 3rdparty/rapidjson/prettywriter.h:180-205 | an empty object closes on its line, another one on a line of its own |
| `PrettyWriter.PrettyWriter.EndArray` | 3rdparty/rapidjson/prettywriter.h:214-234 | the same for arrays, by the layout |
| `PrettyWriter.WriteValue` | 3rdparty/rapidjson/prettywriter.h:163-311 | the events of a value put out its rendering at the present depth, count as one value, and leave the other levels alone |
| `PrettyRoundTrip.ReadValue` | 3rdparty/rapidjson/prettywriter.h:163-311 | a rendered value is read back, whatever delimiter follows, at every depth and in every layout |
| `PrettyRoundTrip.PrettyRoundTrip` | 3rdparty/rapidjson/prettywriter.h:163-311 | the text written for a value parses to that value with either reader and any flags |
| `Reformat.Reformatted` | 3rdparty/rapidjson/prettywriter.h:163-311 | whatever text is read, its value can be written; the new text is read as the same value, integers in their narrowest types, and writing that value gives the new text again |
| `Reformat.OnlyZeroNarrows` | 3rdparty/rapidjson/reader.h:1852-1864 | of the numbers read only a negative zero changes its type when it is written and read again |
| `Reformat.HypothesisOnDoubles` | 3rdparty/rapidjson/prettywriter.h:163-311 | the hypothesis of the round trips holds exactly when the text of every announced double is taken back, and so for every value without doubles |
| `Hasher.HashValue` | 3rdparty/rapidjson/schema.h:241-355 | hashing the events of a value pushes exactly one code, that of the tree |
| `Hasher.XorPermuted` | 3rdparty/rapidjson/schema.h:298-306 | the exclusive or of codes does not depend on their order |
| `Hasher.ReorderedCodes` | 3rdparty/rapidjson/schema.h:289-319 | trees that differ only in the order of object members, at any depth, have equal codes |
| `HashCodes.HashMultiplies` | 3rdparty/rapidjson/schema.h:350-354 | the FNV-1a step is the multiplication by its prime modulo 2^64 |
| `HashCodes.HashIsInjective` | 3rdparty/rapidjson/schema.h:350-354 | the step loses neither of its arguments |
| `HashCodes.ChangeIsSeen` | 3rdparty/rapidjson/schema.h:241-355 | trees that differ in one place, by one byte of a string or name or by another of null, true and false, have different codes |
| `HashCodes.NumberBytesMean` | 3rdparty/rapidjson/schema.h:250-339 | the first eight hashed bytes of a number spell its whole part, truncated toward zero, in two's complement, and the rest are those of the double |
| `HashCodes.TagsInOrder` | 3rdparty/rapidjson/rapidjson.h:707-715 | the type tags are the positions in the enumeration |
| `Hasher.Hasher.EndObject` | 3rdparty/rapidjson/schema.h:298-306 | the loop over the popped codes is the fold of the specification |
| `Hasher.Hasher.EndArray` | 3rdparty/rapidjson/schema.h:309-316 | the same for elements, in order |
| `Hasher.Hasher.WriteBuffer` | 3rdparty/rapidjson/schema.h:341-348 | the loop over the bytes is the FNV-1a code of the type and the bytes |
| `SchemaStreaming.StreamingIsMeaning` | 3rdparty/rapidjson/schema.h:2247-2342 | feeding the events of a tree to a new validator leaves it valid exactly when the schema accepts the tree |
| `SchemaKeywords.StreamingDecidesKeywords` | 3rdparty/rapidjson/schema.h:744-1096 | that is exactly when the tree satisfies each keyword of the schema, stated in its own terms |
| `SchemaKeywords.MeaningIsKeywords` | 3rdparty/rapidjson/schema.h:744-1096 | the recursive meaning is what the keywords say: kinds, members by their first property, elements by position, combinators, required names, limits |
| `SchemaKeywords.TypeKeyword` | 3rdparty/rapidjson/schema.h:857-940 | the keyword `type` alone admits exactly the values of the kinds it lists |
| `SchemaKeywords.TypelessAccepts` | 3rdparty/rapidjson/schema.h:744-764 | the schema without keywords admits every value without 2^32 elements or members in one container |
| `SchemaStreaming.ValueRun` | 3rdparty/rapidjson/schema.h:2430-2512 | the same inside any run: the verdict on one value, what it records for uniqueness, and what every context below has seen |
| `SchemaStreaming.ElementsRun` | 3rdparty/rapidjson/schema.h:1070-1096 | the elements of an array are judged by their position and by the codes before them |
| `SchemaStreaming.MembersRun` | 3rdparty/rapidjson/schema.h:962-1016 | the members of an object are judged by their names |
| `SchemaStreaming.RequiredDecided` | 3rdparty/rapidjson/schema.h:1018-1026 | the marks left by the keys decide which required properties are missing |
| `SchemaMeaning.SlotsDecide` | 3rdparty/rapidjson/schema.h:769-855 | the validators of a context decide allOf, anyOf, oneOf and not, and the hash code decides enum |
| `SchemaMeaning.OpeningForwarded` | 3rdparty/rapidjson/schema.h:1301-1339 | validators created for a value see every event of it from its first on |
| `SchemaOrder.OrderIndependent` | 3rdparty/rapidjson/schema.h:744-1096 | no verdict depends on the order in which objects list their members |
| `SchemaOrder.EnumAdmitsReordering` | 3rdparty/rapidjson/schema.h:805-812 | on a listed value, and on any reordering of it, the streaming verdict is the one without `enum` |
| `SchemaOrder.EnumDecides` | 3rdparty/rapidjson/schema.h:805-812 | `enum` adds exactly the test of the hash code to the other keywords |
| `SchemaOrder.StreamingIgnoresOrder` | 3rdparty/rapidjson/schema.h:2247-2342 | the streaming verdicts on a value and on a reordering of it are the same |
| `SchemaOrder.DistinctNames` | 3rdparty/rapidjson/schema.h:1342-1356 | with different property names a property is declared by its own name alone |
| `SchemaValidator.GenericSchemaValidator.Open` | 3rdparty/rapidjson/schema.h:2247-2311 | the method on the object's own stack is the event handler of the specification |
| `SchemaValidator.GenericSchemaValidator.Key` | 3rdparty/rapidjson/schema.h:2313-2320 | the same for keys |
| `SchemaValidator.GenericSchemaValidator.EndObject` | 3rdparty/rapidjson/schema.h:2322-2328 | the same for the end of an object |
| `SchemaValidator.GenericSchemaValidator.EndArray` | 3rdparty/rapidjson/schema.h:2336-2342 | the same for the end of an array |
| `SchemaValidator.GenericSchemaValidator.Parallel` | 3rdparty/rapidjson/schema.h:2247-2269 | the nested loops forward an event to the hasher and the validators of every context, each once |
| `SchemaValidator.GenericSchemaValidator.EndValue` | 3rdparty/rapidjson/schema.h:2466-2512 | the loop over the recorded codes finds a duplicate exactly when there is one |
| `PointerText.PointerRoundTrip` | 3rdparty/rapidjson/pointer.h:1150-1180 | parsing what a parsed pointer prints gives it back: in the plain form always, as a fragment when the names are UTF-8 (sections 3, 4 and 6 of RFC 6901) |
| `PointerText.ParseInvertsStringify` | 3rdparty/rapidjson/pointer.h:1013-1142 | whatever prints, in either form, parses to the same tokens |
| `PointerText.FragmentPrints` | 3rdparty/rapidjson/pointer.h:1166-1174 | the fragment form prints exactly when every name is UTF-8 |
| `PointerText.PercentDecodeInvertsEncode` | 3rdparty/rapidjson/pointer.h:1187-1252 | decoding percent triplets inverts encoding, one code point at a time |
| `PointerText.TokenPerSolidus` | 3rdparty/rapidjson/pointer.h:1021-1028 | a parsed pointer has as many tokens as its source has solidi |
| `PointerText.NumeralIsIndex` | 3rdparty/rapidjson/pointer.h:1108-1126 | a numeral without leading zeros is the index it spells if that fits 32 bits, and is rejected exactly when some digit makes the wrapped number smaller or leaves the invalid index |
| `PointerText.IndexIsWrapped` | 3rdparty/rapidjson/pointer.h:1108-1126 | otherwise the index is the value of the numeral in 32 bits |
| `PointerText.TooLargeYetAnIndex` | 3rdparty/rapidjson/pointer.h:1108-1126 | ten to the tenth is too large, but the code's test takes it for the index 1410065408 |
| `PointerText.NameIsNoIndex` | 3rdparty/rapidjson/pointer.h:1108-1126 | no other name is an index: empty, with another character, or with a leading zero |
| `PointerText.FragmentAlphabet` | 3rdparty/rapidjson/pointer.h:1158-1176 | what is printed of a name in the fragment form is made of unreserved characters and percent signs (section 2.3 of RFC 3986) |
| `PointerText.UnreservedMeans` | 3rdparty/rapidjson/pointer.h:997-1000 | the characters that need no percent encoding, by their codes |
| `Pointer.GenericPointer.Parse` | 3rdparty/rapidjson/pointer.h:1013-1142 | the tokens in the filled buffer are those of the grammar; all writes stay in the buffer of the source's length, on the error paths too |
| `Pointer.ValidatePercent` | 3rdparty/rapidjson/pointer.h:1054-1072 | a percent-encoded code point is decoded into the buffer within its bounds, or rejected |
| `Pointer.GenericPointer.ParseIndex` | 3rdparty/rapidjson/pointer.h:1108-1126 | the index is the one the name spells, as computed with the wrap-around test of the code |
| `Pointer.GenericPointer.Stringify` | 3rdparty/rapidjson/pointer.h:1150-1180 | the text written is that of the specification, and failure is its failure |
| `Utf8.ZeroEndsName` | 3rdparty/rapidjson/pointer.h:1166-1173 | the stream that reads on behind a name in the buffer decodes what it would from the name alone, because of the terminating zero |
| `PointerAccess.FindValue` | 3rdparty/rapidjson/pointer.h:622-649 | the loop ends at the value the tokens lead to, or at the first token that does not resolve |
| `PointerAccess.CreateExisting` | 3rdparty/rapidjson/pointer.h:539-585 | `alreadyExist` is true exactly when `Get` finds the value, and then the tree is unchanged |
| `PointerAccess.GetAfterCreate` | 3rdparty/rapidjson/pointer.h:539-585 | `Get` then finds the created value, exactly unless "-" appended to an array on the way |
| `PointerAccess.AppendsToWhatIsThere` | 3rdparty/rapidjson/pointer.h:539-585 | such an appending can be seen before the call: a token "-" after a part of the pointer that leads to an array |
| `PointerAccess.NoDashNeverAppends` | 3rdparty/rapidjson/pointer.h:544-549 | a pointer without the token "-" never appends that way |
| `PointerAccess.GetAfterSet` | 3rdparty/rapidjson/pointer.h:781-784 | `Get` after `Set` finds the value that was set |
| `PointerAccess.SetWhatIsThere` | 3rdparty/rapidjson/pointer.h:781-784 | setting what is already there changes nothing |
| `PointerAccess.SetTwice` | 3rdparty/rapidjson/pointer.h:781-784 | the second of two settings wins |
| `PointerFrame.SetIsPut` | 3rdparty/rapidjson/pointer.h:539-585 | the whole tree after `Set`: a member replaced or added last, an element replaced, appended for "-", or put behind enough nulls, other values replaced by a new container |
| `PointerFrame.CreateIsPut` | 3rdparty/rapidjson/pointer.h:539-585 | `Create` makes the same tree with the value that was there, or with a null |
| `PointerFrame.PutKeepsChildren` | 3rdparty/rapidjson/pointer.h:546-581 | a step keeps the positions, names and values of all other children |
| `PointerFrame.SetKeepsOthers` | 3rdparty/rapidjson/pointer.h:781-784 | `Set` leaves every value alone whose path leaves the pointer's at a container that was there |
| `PointerFrame.CreateKeepsOthers` | 3rdparty/rapidjson/pointer.h:539-585 | so does `Create` |
| `PointerFrame.SetAppends` | 3rdparty/rapidjson/pointer.h:546-549 | through "-" the value goes to the end of the array |
| `PointerAccess.EraseWhatIsThere` | 3rdparty/rapidjson/pointer.h:914-951 | `Erase` succeeds exactly where `Get` finds a value other than the root |
| `PointerFrame.EraseTakesOut` | 3rdparty/rapidjson/pointer.h:914-951 | `Erase` takes that value out of its container; those before it stay, those behind it move up by one |
| `PointerFrame.EraseKeepsOthers` | 3rdparty/rapidjson/pointer.h:914-951 | and leaves every value off the pointer's path alone |
| `PointerAccess.EraseAfterSet` | 3rdparty/rapidjson/pointer.h:914-951 | erasing a member that was newly set gives the object before |
| `PointerOrder.StrictTotalOrder` | 3rdparty/rapidjson/pointer.h:471-490 | `operator<` is a strict order in which only equal pointers, or two invalid ones, are incomparable |
| `PointerOrder.LessThan` | 3rdparty/rapidjson/pointer.h:471-490 | the loop decides that order |
| `Allocators.NewBlockIsSound` | 3rdparty/rapidjson/allocators.h:208-220 | a new block lies in one chunk, a multiple of 8 from its start, apart from all others |
| `Allocators.LastBlock` | 3rdparty/rapidjson/allocators.h:235-244 | the address test of `Realloc` is true only of the last block of the head chunk at its true size |
| `Allocators.GrownBlockIsSound` | 3rdparty/rapidjson/allocators.h:235-244 | growing that block in place keeps it apart from all others |
| `Allocators.FreeFirst` | 3rdparty/rapidjson/allocators.h:178-184 | giving back the head chunk leaves exactly the others outstanding |
| `Allocators.MemoryPoolAllocator.Malloc` | 3rdparty/rapidjson/allocators.h:208-220 | where the block lies, which chunks there are, and exactly when null is returned |
| `Allocators.MemoryPoolAllocator.Realloc` | 3rdparty/rapidjson/allocators.h:223-255 | exactly when null is returned, the address and size of the block, the chunks, its old bytes kept, and no other byte changed |
| `Allocators.MemoryPoolAllocator.AddChunk` | 3rdparty/rapidjson/allocators.h:268-281 | a chunk goes to the front of the list when the base allocator returned one |
| `Allocators.MemoryPoolAllocator.Clear` | 3rdparty/rapidjson/allocators.h:178-187 | every owned chunk is given back once, the user's buffer is kept empty |
| `Allocators.MemoryPoolAllocator.Size` | 3rdparty/rapidjson/allocators.h:201-205 | the sum of the chunk sizes, at most the sum of their capacities |
| `FileReadStream.FileReadStream.Take` | 3rdparty/rapidjson/filereadstream.h:62-67 | the stream over the file behaves as one over its bytes in memory |
| `FileReadStream.FileReadStream.Read` | 3rdparty/rapidjson/filereadstream.h:90-105 | one character further, refilling the buffer where it ends |
| `FileReadStream.FileReadStream.Peek4` | 3rdparty/rapidjson/filereadstream.h:85-87 | four characters exactly when the buffer holds four bytes of the file from here on |
| `FileReadStream.TakeMany` | 3rdparty/rapidjson/filereadstream.h:48-70 | after k takes `Peek` is byte k or zero, and `Tell` the smaller of k and the length |
| `Dom.FlagsOfValue` | 3rdparty/rapidjson/document.h:858-905 | flags and bytes of a whole number do not depend on the constructor used |
| `Dom.FlagsMean` | 3rdparty/rapidjson/document.h:858-905 | each flag says that the number fits that type, and a double has no flag but its own |
| `Dom.NumberRebuilt` | 3rdparty/rapidjson/document.h:2317-2329 | a number is announced in the first type that fits, with its value, and built from that event it has the same flags and bytes |
| `Dom.DocumentsAreWellMade` | 3rdparty/rapidjson/document.h:2926-3001 | after any events every number in a document is one that a numeric constructor made, so the theorems below apply to it |
| `Dom.RebuildValue` | 3rdparty/rapidjson/document.h:2926-3000 | the events of a value push exactly one value and leave the stack below alone |
| `Dom.AcceptRebuilds` | 3rdparty/rapidjson/document.h:2286-2331 | that value is identical to the original, exactly unless it holds a number made from the bare type |
| `DomRoundTrip.DocumentRoundTrip` | 3rdparty/rapidjson/document.h:2286-2331 | a value printed by `Accept` into the indenting writer and parsed into a new document comes back identical, exactly unless it holds a number made from the bare type |
| `DomRoundTrip.NarrowAlike` | 3rdparty/rapidjson/document.h:858-905 | a reader may announce a number in a narrower type than the writer was given, and the document built is the same |
| `Dom.GenericDocument.Handle` | 3rdparty/rapidjson/document.h:2926-3000 | each handler method is the stack step of the specification |
| `Dom.ArrayData.PushBack` | 3rdparty/rapidjson/document.h:1956-1965 | appends, grows by half, and in any run copies at most three elements for each one appended |
| `Dom.Reflexive` | 3rdparty/rapidjson/document.h:1110-1147 | `operator==` is reflexive on values without doubles and repeated names |
| `Dom.Symmetric` | 3rdparty/rapidjson/document.h:1110-1147 | it is symmetric on them |
| `Dom.Transitive` | 3rdparty/rapidjson/document.h:1110-1147 | it is transitive on them |
| `DomEquality.EqualIsSame` | 3rdparty/rapidjson/document.h:1110-1147 | on them it is sameness: identical scalars, elements in order, members up to a permutation |
| `DomEquality.DoublesEqual` | 3rdparty/rapidjson/document.h:1136-1140 | with a double on either side numbers are compared as doubles |
| `Dom.DuplicatesDiffer` | 3rdparty/rapidjson/document.h:1104-1124 | an object equals no object, as documented of those with a repeated name, exactly when two of its members have one name and different values |
| `Dom.EqualToSome` | 3rdparty/rapidjson/document.h:1114-1124 | for all values: an object equals some object exactly when the values of each name have a common equal |
| `Dom.DuplicatesOnTheRight` | 3rdparty/rapidjson/document.h:1104-1124 | an object without a repeated name never equals one with a repeated name |
| `Dom.OrderMatters` | 3rdparty/rapidjson/document.h:1110-1124 | of two objects where the first equals the second, the second equals the first exactly when it does not contradict itself and all its names are in the first |
| `Dom.RepeatedNames` | 3rdparty/rapidjson/document.h:1110-1124 | instances: objects with a repeated name that differ from themselves, equal themselves, and equal another in one order only |
| `Dom.IntegersModulo` | 3rdparty/rapidjson/document.h:1141-1142 | whole numbers are equal exactly when they are congruent modulo 2^64 |
| `DeviceManager.DeviceManager.CreateDetectionChannel` | sdk_core/device_manager.cpp:265-290 | from any state: exactly which sockets lose their owner, and exactly when the command channels stop agreeing with the channels |
| `DeviceManager.DeviceManager.CreateCmdSocket` | sdk_core/device_manager.cpp:367-409 | a command channel exists afterwards, agrees with the channels, and is no multicast key; nothing else changes, the socket is listened to, and a failure opens nothing |
| `DeviceManager.DeviceManager.CreateDataSocket` | sdk_core/device_manager.cpp:411-437 | the same for data channels |
| `DeviceManager.DeviceManager.CreateCommandChannel` | sdk_core/device_manager.cpp:310-365 | all invariants are kept whichever creation fails; unless one does, the channels for status, commands, multicast, faults and logs exist as far as device and settings ask for them, and one more broadcast socket for the types that have one |
| `DeviceManager.DeviceManager.Init` | sdk_core/device_manager.cpp:120-184 | succeeds exactly unless it cannot start or a creation fails, and then every configured device is known by its handle and has all its channels and sockets |
| `DeviceManager.DeviceManager.OnDiscovery` | sdk_core/device_manager.cpp:508-590 | in view mode, for a known device, or for one without a configured type, nothing changes; another one gets its configuration, and unless a creation fails all configured devices have all their channels and sockets |
| `DeviceManager.DeviceManager.HandleDetectionData` | sdk_core/device_manager.cpp:592-652 | exactly when the addresses of a device are asked for, its record is used or a change reported; a device whose addresses were asked for always has a record of them |
| `DeviceManager.DeviceManager.AddViewLidar` | sdk_core/device_manager.cpp:674-744 | the record has the ports of the last parameters that carry them, or those of the type, and is stored before the device counts as asked |
| `DeviceManager.DeviceManager.ReadPorts` | sdk_core/device_manager.cpp:702-714 | the walk over the parameters finds the last one of each key |
| `DeviceManager.DeviceManager.GetCmdChannel` | sdk_core/device_manager.cpp:811-822 | a channel that is found is the open socket of the device's key; it is found for every known device with an address and a port once all devices have their channels |
| `DeviceManager.DeviceManager.Destory` | sdk_core/device_manager.cpp:866-958 | every owned socket is closed, in order, and nothing of the session is left, so that a repeat closes nothing |
| `DeviceManager.ClosedOnce` | sdk_core/device_manager.cpp:899-918 | what teardown closes has no repetition and is, with what was leaked before, exactly what was open |
| `DeviceManager.RunSdk` | sdk_core/livox_lidar_sdk.cpp:77-138 | over any run of initialisation, discovery, view-mode and teardown steps with arbitrary failures no socket is leaked, and none is open after teardown |
| `DeviceManager.KeyTextIsInjective` | sdk_core/device_manager.cpp:374-380 | different channels have different keys |

## Left out

- DeviceManager.RunSdk: sockets are assumed fresh and positive when creation succeeds; threads, locks, logging, packet contents and the poll loop's delegates are not modelled.
- DeviceManager.DeviceManager.AddViewLidar: the response is a list of parameters, of which those with ports have 8 bytes at least, not bytes in memory; with more than 255 parameters the loop of the code does not end, since its counter has 8 bits.
- Reader.GenericReader.ParseNumber: the value of a double is a parameter (`Flags.toDouble`, of the text and of the sign), since it depends on floating-point rounding; with more than 2*10^8 fraction digits the model's integers do not wrap around as an `int` may.
- JsonReaders.ReadersAgree: error codes and offsets are not compared (a root `]` is reported differently by the two readers), and neither are the events announced before an error.
- Writer.NumberReadsBack: the digits that `dtoa` writes for a double are a parameter, and that they read back to the same double is a condition.
- PrettyRoundTrip.PrettyRoundTrip: numbers that are infinite or not a number, which the writer refuses by default, have no place in the model.
- SchemaStreaming.StreamingIsMeaning: schemas without `patternProperties`, `dependencies`, `$ref`, `pattern`, `minLength`, `maxLength`, `minimum`, `maximum`, `multipleOf` and malformed sub-schemas; equality for `enum` and `uniqueItems` is equality of hash codes, as in the code; the bytes of a double are a parameter.
- SchemaValidator.GenericSchemaValidator.Parallel: the validators nested inside a context are values that the loop replaces, not objects of their own.
- PointerAccess.GetAfterCreate: trees are values and references are paths, so that update in place and aliasing are not represented.
- Pointer.GenericPointer.ParseIndex: that a numeral too large for 32 bits is no index is not promised, as it is false of the code; `PointerText.NumeralIsIndex` says exactly when.
- Pointer.GenericPointer.Stringify: where the last name of the buffer ends in the first byte of a longer sequence, the code reads up to two bytes past the buffer; they are zeros here, and by `Utf8.ZeroEndsName` do not matter for the result.
- Allocators.MemoryPoolAllocator.Malloc: sizes so near 2^64 that rounding them up wraps around, and machines with 4-byte `size_t`; the answer of the base allocator is a parameter.
- Allocators.MemoryPoolAllocator.Realloc: chunk headers are records of a list, not bytes of the memory.
- Dom.AcceptRebuilds: where the characters of a string are stored (inline, copied or referenced) and spare capacity.
- FastCrc.FastCRC16.Update: modbus, kermit, xmodem and x25 repeat this loop with other tables and are not listed one by one; words are loaded low byte first.
- The in-situ, full-precision, numbers-as-strings, NaN-and-infinity and encoding-validation flags of the reader, handlers that stop a parse, the SIMD scanners, and `IterativeParseNext`.
- The 7- and 8-bit checksums and the hardware CRC unit.
- `sdk_core/parse_cfg_file.cpp` and `sdk_core/params_check.cpp`: field-by-field checks that would add only easy members.
