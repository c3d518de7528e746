# A verified model of the value layer of Xmlrpc-c

These Dafny modules model the part of Xmlrpc-c that holds, prints, reads and takes apart
XML-RPC values, and the repository's own multi-server call, and prove what they are for.
`dafny verify dfyconfig.toml` checks everything.

Each component has specification functions, methods that follow the source step by step
and are proved equal to those functions, and theorems about the functions. The modules
whose names end in `Syntax`, `Forms`, `Tokens` or `Layout` describe each language once
more, by what is written and what that means, without a reader or a printer, and prove
that the reader takes exactly that and the printer writes exactly that.

- **Values and texts.** `Values`, `Text`, `Numerals`, `Utf8Text`, `Base64Text`: values
  as trees, decimal and hexadecimal numerals, UTF-8 and base64; `NumeralForms`,
  `Base64Forms`, `Base64Layout`.
- **Reference counting.** `Cells`, `Structs`, `ValueStores` (file `ValueStore.dfy`),
  `StoreRuns`, `Reachability`, `Trees`: one memory of reference-counted objects with
  arrays and hash-accelerated structs; the DECREF cascade; whole runs of operations;
  values under construction.
- **JSON.** `JsonLexer`, `JsonStrings`, `JsonGrammar` (file `JsonParser.dfy`),
  `JsonReader`, `JsonPrinter`, `JsonRoundTrip`; `JsonTokens`, `JsonSyntax`, `JsonLayout`.
- **XML.** `XmlText`, `XmlPrinter`, `XmlReader` (a reference reader for the XML that is
  emitted), `TreeBuilder` (the event handlers), `XmlGrammar` (file `XmlParser.dfy`),
  `XmlValueParser`, `XmlReadBack`, `XmlRoundTrip`; `XmlSyntax`, `XmlDialects`,
  `XmlLayout`; whole messages in `Messages`, `MessagePrinter`, `MessageParser`,
  `MessageRoundTrip`, `MessageSyntax`.
- **Scalars as text.** `Doubles` over exact reals, `Datetimes`, `Lines`; `DoubleForms`,
  `DatetimeForms`, `LineForms`.
- **Format strings.** `Formats`, `Decompose`, `Decomposer`, `Rollback`, `Build`, `Builder`,
  `BuildInMemory`; `FormatForms`, `BuildForms`, `Rebuild`, `Excess`; `Sharing` for what
  is built on top of values passed in.
- **Multi-server call.** `MultiCall`.

How things are represented: a byte string is a Dafny `string`, one `char` for each byte,
and a document ends at its first NUL. Memory is a sequence of cells whose index stands
for a pointer, and a freed cell is never used again. XML elements and call records are
kept the same way. Allocation succeeds, and so does growing a memory block. Only the code
of a fault is modelled, not its text or the position it reports. Routines whose bodies
are not part of this model (`%e`, `strtod`, Unix times, datetime strings and wide strings
in formats) are parameters, and each theorem names what it assumes of them.

Where the code and its comments differ, the model follows the code:

- No number with an exponent is a JSON token (json.c:288-289), so a printed double is
  never read back; a lone minus sign is an integer token that the conversion refuses; a
  prefix of a keyword counts as the keyword; a comma may end a list or object, and a list
  may end with the document; the character 0x1F is printed unescaped.
- The second datetime expression takes a backslash where a zone sign may stand.
- The loop over parameters goes on after a fault, and a later element of the wrong name
  replaces the fault code (xmlrpc_parse.c:130-135).
- From 16 whole digits on the double printer can fail its assertion; exactly when says
  `Doubles.PrintableIffNear`.
- Texts that the serializer prints can be refused when read back: the UTF-8 validator
  knows no character beyond U+FFFD (utf8.c:137-169 and 217-233), and the JSON parser, for
  one, makes strings without validating them.
- No text at all is the number zero for xmlrpc_parse_int64(), which its callers keep from
  it.
- All threads of a multi-server call share one fault flag, so one failed start can make
  another thread destroy a call record that is still in use, or destroy it twice, or not
  make one at all.
- The rollback of a decomposition reads back the caller's variables, so what was
  overwritten there is not given back; exactly when the rollback is right says
  `Rollback.FaultRollbackExact`.

Names used below: a value is *printable* when it has no C pointer or dead value in it
and, for XML, no double or datetime that fails an assertion; the *normal form* is the
value with what the text cannot tell apart made equal: for JSON, integers widened to 64
bits and datetimes and byte strings as the strings printed for them; for XML, line
delimiters as LF, doubles as precise as they print, and keys that have become equal
sharing one member.

## Model

| member | source | states |
|---|---|---|
| JsonLexer.IsInteger | xmlrpc-c/src/json.c:235-256 | true exactly for an optional minus sign and digits only, which a lone minus sign also is |
| JsonLexer.IsFloat | xmlrpc-c/src/json.c:260-307 | true exactly for digits with at most one point and at least one digit; no exponent is ever accepted, although the comment above the function says so |
| JsonLexer.ClassifyWord | xmlrpc-c/src/json.c:438-453 | the type of a word: integer, float, or the first keyword it is a prefix of |
| JsonLexer.Tokenizer.SkipHex4 | xmlrpc-c/src/json.c:200-213 | goes on exactly past four hexadecimal digits, or not at all |
| JsonLexer.Tokenizer.FinishStringToken | xmlrpc-c/src/json.c:177-231 | a string token is accepted exactly when its escapes are well formed and its quote is closed before the document ends, and then ends at that quote |
| JsonLexer.Tokenizer.FinishWordToken | xmlrpc-c/src/json.c:323-332 | a word token is the maximal run of word characters |
| JsonLexer.Tokenizer.AdvancePastComments | xmlrpc-c/src/json.c:362-372 | stops where no comment starts, having passed blanks only |
| JsonLexer.Tokenizer.AdvanceToNextToken | xmlrpc-c/src/json.c:376-390 | stops at the first character that is in no white space and no comment |
| JsonLexer.Tokenizer.ReadToken | xmlrpc-c/src/json.c:403-462 | the token at the cursor has the type and extent of the specification, or there is a fault exactly when there is no token |
| JsonLexer.Tokenizer.GetToken | xmlrpc-c/src/json.c:394-463 | moves to the first token of the unread text; on success its type, text, size and place are those of the specification |
| JsonLexer.TokensCover | xmlrpc-c/src/json.c:345-463 | for every document tokenizing ends; the tokens are disjoint and in order; the text between them is only white space and comments; without a bad token they reach the end of the document |
| JsonTokens.WordExact | xmlrpc-c/src/json.c:235-453 | exactly these words mean a value: signed digits that fit 64 bits, signed digits with a point, and what a keyword starts with |
| JsonTokens.GapSkipped | xmlrpc-c/src/json.c:345-390 | white space and comments, written in any order, are passed over |
| JsonTokens.EndRead | xmlrpc-c/src/json.c:345-410 | what counts as the end is a gap, perhaps a last comment, and then NUL or nothing |
| JsonTokens.BodyScanned | xmlrpc-c/src/json.c:177-231 | a string body spelled from plain characters and the nine escapes, four hexadecimal digits in either case, ends where it is spelled and stands for what they stand for |
| JsonTokens.BodyRead | xmlrpc-c/src/json.c:177-231 | every body that is scanned is spelled so |
| Utf8Text.Utf8RoundTrip | xmlrpc-c/src/json.c:471-497 | decoding by the table of RFC 3629 section 3 gives back the character number, for every number the encoder takes, and uses exactly the octets written |
| Utf8Text.DecodeMultibyte | xmlrpc-c/lib/libutil/utf8.c:181-251 | a sequence of the length its first octet tells is a character of UCS-2 in its shortest form, or refused |
| Utf8Text.DecodeUtf8 | xmlrpc-c/lib/libutil/utf8.c:257-330 | decodes the texts that are all characters of UCS-2, and refuses all others; this is what xmlrpc_validate_utf8() accepts |
| Utf8Text.WcsToUtf8 | xmlrpc-c/lib/libutil/utf8.c:377-435 | encodes characters of 16 bits without overrunning three octets for each, and refuses a longer character |
| Utf8Text.DecodeUndoesEncode | xmlrpc-c/lib/libutil/utf8.c:257-435 | characters of 16 bits come back from their octets if and only if each is one of UCS-2, and are refused otherwise |
| Utf8Text.EncodeUndoesDecode | xmlrpc-c/lib/libutil/utf8.c:257-435 | a text that is accepted is the encoding of its characters, so no two texts decode to the same |
| Base64Text.Base64Encode | xmlrpc-c/lib/libutil/base64.c:152-241 | the shifting loops write the encoding, in lines of 57 octets or without lines; the line buffer is never overrun |
| Base64Text.Base64Decode | xmlrpc-c/lib/libutil/base64.c:255-333 | the shifting loop decodes the text or refuses it; the buffer, sized beforehand, is never overrun |
| Base64Text.Base64RoundTrip | xmlrpc-c/lib/libutil/base64.c:152-333 | octets come back from their encoding, also after its line delimiters were normalised and an empty line put in front |
| Base64Layout.LineAt | xmlrpc-c/lib/libutil/base64.c:174-206 | each character of an encoded line, by its place: six bits of three octets read as one number of 24 bits, or padding |
| Base64Layout.EncodedAt | xmlrpc-c/lib/libutil/base64.c:152-228 | the exact length of an encoding, and each character of it: lines of 76 characters, CR and LF behind each |
| Base64Forms.Decode64Exact | xmlrpc-c/lib/libutil/base64.c:255-333 | a text decodes to octets if and only if its characters that count, at most two of them padding, make whole groups of four, and read in base 64 are the number that the octets write in base 256, with one octet more at the end for each padding character |
| JsonStrings.GetBackslashSequence | xmlrpc-c/src/json.c:501-567 | an escape the scanner accepted never faults, yields what it stands for, and consumes its own length |
| JsonStrings.UnescapeString | xmlrpc-c/src/json.c:571-623 | never faults on the body of a token the scanner accepted; the cursor lands exactly on the closing quote; the result is the plain runs with every escape replaced |
| JsonStrings.ScannerAndUnescaperAgree | xmlrpc-c/src/json.c:177-231 | every body the scanner accepts can be unescaped |
| JsonStrings.MakeJsonString | xmlrpc-c/src/json.c:1117-1159 | appends the escaped form of any byte string |
| JsonStrings.EscapeRoundTrip | xmlrpc-c/src/json.c:1077-1159 | unescaping the escaped form of any byte string gives that string |
| JsonStrings.EscapeScans | xmlrpc-c/src/json.c:177-231 | the scanner takes the escaped form of any byte string as one token body, whatever follows the quote |
| JsonReader.MakeUtf8String | xmlrpc-c/src/json.c:627-652 | the value of a string token is the string it stands for |
| JsonReader.IntegerTokenValue | xmlrpc-c/src/json.c:682-709 | an integer token gives its 64-bit value, or a fault exactly when it is none |
| JsonReader.ParseListElement | xmlrpc-c/src/json.c:727-756 | parses, appends and gives back one item, and consumes the comma or bracket after it |
| JsonReader.ParseList | xmlrpc-c/src/json.c:760-788 | the array of the items up to the bracket, or up to the end of the document; on a fault nothing is held that was not held before |
| JsonReader.ParseObjectMemberValue | xmlrpc-c/src/json.c:792-810 | the value after the colon is set under the key and given back |
| JsonReader.ParseObjectMember | xmlrpc-c/src/json.c:815-851 | a member is set as by a map update that keeps the order; the key is given back on every path |
| JsonReader.ParseObject | xmlrpc-c/src/json.c:856-910 | the struct of the members up to the brace, a comma before it allowed; on a fault nothing is held that was not held before |
| JsonReader.ParseValue | xmlrpc-c/src/json.c:916-971 | the value that the grammar gives to the text from the current token on, and the unread text it leaves, or a fault exactly when the grammar has none |
| JsonReader.ParseJsonText | xmlrpc-c/src/json.c:975-1008 | the result is the value the grammar gives to the document; on a fault every value created has been freed; on success the one new reference is to the root; earlier memory is untouched |
| JsonSyntax.WrittenIsRead | xmlrpc-c/src/json.c:916-971 | whatever is spelled by the grammar, at any depth and with any gaps, is read as what it means, before anything that may follow a value |
| JsonSyntax.ReadWasDoc | xmlrpc-c/src/json.c:975-1008 | whatever document is read was spelled by the grammar and means that value |
| JsonSyntax.ParsesExactly | xmlrpc-c/src/json.c:727-1008 | a document is read as a value if and only if it is a way to write that value |
| JsonSyntax.PointIsRead | xmlrpc-c/src/json.c:260-307 | digits with a point are the double they write, and with a minus sign in front the negative of it, wherever a value stands |
| JsonSyntax.DoubleDocument | xmlrpc-c/src/json.c:260-307 | such a numeral alone is a document, signed or not |
| JsonSyntax.PrintedDoubleIsRead | xmlrpc-c/src/json.c:954-956 | below 10^15 what the XML printer writes for a double is read by the JSON parser as a double within the tolerance, if there is a point in it |
| JsonPrinter.SerializeArray | xmlrpc-c/src/json.c:1306-1341 | appends the items with their separators and indentation |
| JsonPrinter.SerializeStruct | xmlrpc-c/src/json.c:1363-1399 | appends the members with their separators and indentation |
| JsonPrinter.SerializeValue | xmlrpc-c/src/json.c:1403-1466 | appends the text of the value, and fails exactly when a C pointer or dead value is somewhere in it |
| JsonPrinter.PrintThen | xmlrpc-c/src/json.c:1403-1466 | what is printed after a value does not change the value's own text |
| JsonLayout.EscapeIsPieces | xmlrpc-c/src/json.c:1077-1159 | the escape chosen for each character |
| JsonLayout.PrintedAsLaid | xmlrpc-c/src/json.c:1306-1466 | what is printed for a value, at any depth, is its layout: the words, the strings with their escapes, the indentation, the line ends and the number handed to `%e` |
| JsonLayout.DocumentLaid | xmlrpc-c/src/json.c:1403-1476 | the same for the whole document |
| JsonRoundTrip.JsonRoundTrip | xmlrpc-c/src/json.c:727-1476 | for every printable value with distinct keys, parsing its printed text gives the value in normal form, members in order; with a double anywhere in it, parsing always fails |
| JsonRoundTrip.SameIffStable | xmlrpc-c/src/json.c:1183-1302 | exactly the values without 32-bit integers, datetimes and byte strings come back as they were |
| ValueStores.ValueStore.New | xmlrpc-c/src/xmlrpc_data.c:359-384 | a new value has one reference, held by the caller, and nothing else changes |
| ValueStores.ValueStore.Incref | xmlrpc-c/src/xmlrpc_data.c:120-132 | one reference more on one value |
| ValueStores.ValueStore.Release | xmlrpc-c/src/xmlrpc_data.c:136-156 | one reference less; at zero the value's own references go too, as the cascade says; those of others stay accounted for |
| ValueStores.ValueStore.DestroyValue | xmlrpc-c/src/xmlrpc_data.c:50-109 | releases everything a dying container holds, then frees it, which comes to freeing it first |
| ValueStores.ValueStore.Decref | xmlrpc-c/src/xmlrpc_data.c:136-156 | keeps the law of reference counting and every struct invariant, and gives up exactly one held reference |
| ValueStores.ValueStore.AppendItem | xmlrpc-c/src/xmlrpc_array.c:102-126 | the item is last in the array with one reference more, and a value that is no array is left alone |
| ValueStores.ValueStore.ReadItem | xmlrpc-c/src/xmlrpc_array.c:130-159 | the item with a reference for the caller, or the type or index fault with nothing changed |
| ValueStores.ValueStore.GetItem | xmlrpc-c/src/xmlrpc_array.c:163-183 | reads the item and leaves all counts as they were |
| ValueStores.ValueStore.FindMember | xmlrpc-c/src/xmlrpc_struct.c:122-164 | search by hash, then by text, finds what plain linear search by text finds |
| ValueStores.ValueStore.FindValue | xmlrpc-c/src/xmlrpc_struct.c:225-300 | the value under a key with a reference for the caller; a missing key is no fault (xmlrpc_struct_find_value(), for keys without NUL, and xmlrpc_struct_find_value_v(), for all) |
| ValueStores.ValueStore.ReadValue | xmlrpc-c/src/xmlrpc_struct.c:340-356 | as before, but a missing key is an index fault |
| ValueStores.ValueStore.ReadMember | xmlrpc-c/src/xmlrpc_struct.c:550-584 | key and value of a member, with a reference to each |
| ValueStores.ValueStore.SetValue | xmlrpc-c/src/xmlrpc_struct.c:509-542 | an existing member takes the value, a new one is added last; a key that is no string changes nothing |
| ValueStores.ValueStore.ChangeMemberValue | xmlrpc-c/src/xmlrpc_struct.c:457-475 | the new value is retained before the old one is released, so they may be the same object |
| ValueStores.ValueStore.AddNewMember | xmlrpc-c/src/xmlrpc_struct.c:479-505 | the member is last, with its hash, and key and value have one reference more |
| Structs.HashStructKey | xmlrpc-c/src/xmlrpc_struct.c:101-118 | the shifting, wrapping loop computes the 32-bit Bernstein hash |
| Structs.HashIsNumber | xmlrpc-c/src/xmlrpc_struct.c:101-118 | the hash is the key read as a number in base 33, characters being signed, wrapped at 32 bits |
| Structs.HashesCollide | xmlrpc-c/src/xmlrpc_struct.c:101-118 | every key shares its hash with another one |
| Structs.NeighboursCollide | xmlrpc-c/src/xmlrpc_struct.c:101-118 | in front of any key, two characters can be changed for two others with the hash unchanged |
| Structs.ChangeMemberConserves | xmlrpc-c/src/xmlrpc_struct.c:457-475 | replacing a value keeps the law of reference counting, also by the very object already there |
| Cells.DropTotal | xmlrpc-c/src/xmlrpc_data.c:136-156 | the cascade never adds to the total of all counts, by which it terminates |
| Cells.DropThen | xmlrpc-c/src/xmlrpc_data.c:136-156 | releasing two lists one after the other is releasing their concatenation |
| Cells.DropConserves | xmlrpc-c/src/xmlrpc_data.c:50-156 | the cascade keeps every count equal to the slots and held references, and leaves no slot with a freed value |
| Reachability.NoGarbage | xmlrpc-c/src/xmlrpc_data.c:50-156 | without containment cycles exactly the reachable values are live |
| Reachability.GarbageIsRings | xmlrpc-c/src/xmlrpc_data.c:50-156 | live and reachable are the same if and only if no ring is lost: no set of unreachable live values each held by one of them |
| Reachability.DropExactIff | xmlrpc-c/src/xmlrpc_data.c:136-156 | a DECREF frees exactly the values no longer reachable from a held reference if and only if no ring of unreachable values is there; what survives keeps its contents, whether or not other containers hold themselves |
| Reachability.DropIsExact | xmlrpc-c/src/xmlrpc_data.c:136-156 | so when containment is acyclic a DECREF always frees exactly the values no longer reachable |
| Reachability.SelfHoldingArrayLeaks | xmlrpc-c/src/xmlrpc_data.c:136-156 | an array that holds itself outlives its last reference: the smallest such ring |
| StoreRuns.ApplySound | xmlrpc-c/src/xmlrpc_data.c:120-156 | each operation keeps counts conserved, containers free of freed values, struct hashes right and keys distinct |
| StoreRuns.RunsAreSound | xmlrpc-c/src/xmlrpc_data.c:120-156 | the same after every sequence of create, append, set, read, INCREF and DECREF |
| StoreRuns.RunsFindGoodStructs | xmlrpc-c/src/xmlrpc_struct.c:101-164 | in every run each struct an operation works on has right hashes and distinct keys |
| StoreRuns.LookupIsMapLookup | xmlrpc-c/src/xmlrpc_struct.c:122-164 | lookup agrees with the map of the struct for every key, even under hash collisions |
| StoreRuns.SetIsMapUpdate | xmlrpc-c/src/xmlrpc_struct.c:509-542 | setting is map update that keeps member order and never makes a duplicate key |
| Trees.DenoteAgrees | xmlrpc-c/src/xmlrpc_data.c:359-384 | a live value means the same in any two memories that agree on what is live above it |
| Trees.AppendBuilds | xmlrpc-c/src/xmlrpc_array.c:102-126 | appending to an array under construction appends to the value it denotes |
| Trees.SetBuilds | xmlrpc-c/src/xmlrpc_struct.c:509-542 | setting in a struct under construction sets in the value it denotes |
| Trees.NothingLeft | xmlrpc-c/src/parse_value.c:38-265 | when nothing is held beyond what was held before, every value created since is freed |
| Doubles.Buffer.Concat | xmlrpc-c/src/double.c:32-48 | the text grows by the character, over reallocations |
| Doubles.FloatWhole | xmlrpc-c/src/double.c:79-117 | appends the decimal digits of the whole amount, and returns it with the precision left |
| Doubles.FloatFractionPart | xmlrpc-c/src/double.c:121-150 | appends the digits of a fraction; no assertion fails and the loop ends |
| Doubles.FloatFraction | xmlrpc-c/src/double.c:154-187 | appends the digits of a number below one, leading zeros first; no assertion fails and both loops end |
| Doubles.FormatFloat | xmlrpc-c/src/double.c:191-234 | gives the text, except exactly where an assertion fails |
| Doubles.FractionFits | xmlrpc-c/src/double.c:121-133 | when there is a fraction to print, the assertion that it is below one holds exactly for printable numbers |
| Doubles.WholeIsClose | xmlrpc-c/src/double.c:79-117 | with at most 15 whole digits less than one is left over |
| Doubles.WholeIsFloor | xmlrpc-c/src/double.c:79-117 | up to 15 whole digits, the whole part printed is the number biased up by its precision and cut, but never more digits than the number has |
| Doubles.PrintableIffNear | xmlrpc-c/src/double.c:99-133 | a number prints if and only if it has at most 15 whole digits or is as near as its precision to a number with zeros after its 15th digit; otherwise the assertion fails |
| Doubles.SixteenDigitsFail | xmlrpc-c/src/double.c:99-107 | the assertion fails for 1000000000000005, which has sixteen digits |
| Doubles.SixteenDigits | xmlrpc-c/src/double.c:99-133 | of the whole numbers of 16 digits those print whose last digit is within two of a multiple of ten that has 16 digits |
| Doubles.FloatTextAccurate | xmlrpc-c/src/double.c:191-234 | every printed text is a strict numeral within the tolerance of the number |
| Doubles.PrintedReadsBack | xmlrpc-c/src/double.c:191-234 | below 10^15 every number prints, is accepted by the strict parser, and comes back within DBL_EPSILON times ten to the number of whole digits, or within DBL_EPSILON of itself below one |
| DoubleForms.NoDigitTooMany | xmlrpc-c/src/double.c:121-187 | no printed fraction ends in a zero |
| DoubleForms.FractionShort | xmlrpc-c/src/double.c:154-187 | how many digits a fraction has at most, and when it has none |
| Doubles.ScanAndValidateDoubleString | xmlrpc-c/src/parse_value.c:351-392 | accepts exactly an optional sign and digits with at most one point, and locates its parts |
| Doubles.ParseDoubleString | xmlrpc-c/src/parse_value.c:404-461 | the exact value of a strict numeral, or a fault exactly when it is none or too large |
| NumeralForms.StrictDoubleExact | xmlrpc-c/src/parse_value.c:351-461 | exactly the signed decimal numerals within the range of a double are read, each as the number it writes |
| NumeralForms.Int64Exact | xmlrpc-c/lib/libutil/string_number.c:21-46 | exactly the signed numerals that fit 64 bits are read, each as the number it writes |
| Lines.CopyLines | xmlrpc-c/src/xmlrpc_string.c:580-656 | the copy is the normalised text and NUL, never longer than the source length plus one |
| Lines.LineDelimCount | xmlrpc-c/src/xmlrpc_string.c:156-173 | counts the LFs |
| Lines.CopyAndConvertLfToCrlf | xmlrpc-c/src/xmlrpc_string.c:177-210 | fills exactly the predicted length with the CR LF form |
| Lines.StaysIffCrFree | xmlrpc-c/src/xmlrpc_string.c:580-656 | normalising changes nothing exactly when there is no CR |
| Lines.NormaliseTwice | xmlrpc-c/src/xmlrpc_string.c:580-656 | normalising is idempotent |
| Lines.CrlfRoundTrip | xmlrpc-c/src/xmlrpc_string.c:177-210 | copying the CR LF form back is the identity exactly on text without CR |
| LineForms.NormaliseLines | xmlrpc-c/src/xmlrpc_string.c:580-656 | a text of lines, each ended by LF, CR LF or CR, is copied as the same lines ended by LF |
| LineForms.CrlfLines | xmlrpc-c/src/xmlrpc_string.c:177-210 | the same lines are read out ended by CR LF |
| LineForms.LinesKept | xmlrpc-c/src/xmlrpc_string.c:177-656 | every text is a text of lines, and storing and reading it keeps them |
| Datetimes.DigitStringValue | xmlrpc-c/src/parse_datetime.c:25-45 | the decimal value of a run of digits |
| Datetimes.DigitStringMillionths | xmlrpc-c/src/parse_datetime.c:52-75 | the first six digits of a fraction, filled up with zeros |
| Datetimes.SubParse | xmlrpc-c/src/parse_datetime.c:81-113 | the fields at the places that matched |
| Datetimes.ParseDatetimeString | xmlrpc-c/src/parse_datetime.c:430-467 | the datetime a text of either form denotes, if its fields are in range |
| Datetimes.DatetimeRoundTrip | xmlrpc-c/src/parse_datetime.c:139-164 | exactly the datetimes in range with a year of four digits survive printing and parsing |
| DatetimeForms.MillionthsExact | xmlrpc-c/src/parse_datetime.c:52-75 | the millionths of a fraction are its value times 10^6, cut: for n digits, the number they write times 10^6 divided by 10^n |
| DatetimeForms.DatetimeExact | xmlrpc-c/src/parse_datetime.c:139-206 | a text is read as a datetime if and only if it is written in one of the forms, says that datetime and has every field in range |
| DatetimeForms.PrintedForm | xmlrpc-c/src/xmlrpc_serialize.c:280-316 | which of these forms is printed: no dashes, colons, `T`, and a fraction of six digits only if it is not zero |
| XmlText.EscapedSize | xmlrpc-c/src/xmlrpc_serialize.c:112-133 | the length of the escaped text |
| XmlText.EscapeForXml | xmlrpc-c/src/xmlrpc_serialize.c:137-213 | the write loop fills exactly that length with the escaped text |
| XmlText.EscapedIsTame | xmlrpc-c/src/xmlrpc_serialize.c:137-213 | escaped text has no raw <, > or CR, and an ampersand only where one of the four references starts |
| XmlText.ExpandUndoesEscape | xmlrpc-c/src/xmlrpc_serialize.c:137-213 | expanding the references gives back every byte string |
| XmlPrinter.SerializeDatetime | xmlrpc-c/src/xmlrpc_serialize.c:280-316 | appends the element, with microseconds when there are some, or fails the assertion on them |
| XmlPrinter.SerializeStructMember | xmlrpc-c/src/xmlrpc_serialize.c:320-344 | appends the element of one member |
| XmlPrinter.SerializeStruct | xmlrpc-c/src/xmlrpc_serialize.c:348-377 | appends the element of a struct, members in order |
| XmlPrinter.SerializeArray | xmlrpc-c/src/xmlrpc_serialize.c:381-410 | appends the element of an array, items in order |
| XmlPrinter.FormatValueContent | xmlrpc-c/src/xmlrpc_serialize.c:414-507 | appends the content for the type and dialect, and fails exactly for values that cannot be printed |
| XmlPrinter.SerializeValue2 | xmlrpc-c/src/xmlrpc_serialize.c:511-533 | the bytes appended are those of the value's markup, for both dialects |
| XmlLayout.ValuePrinted | xmlrpc-c/src/xmlrpc_serialize.c:280-533 | the exact text of the element of every value, for both dialects |
| XmlDialects.PrefixIsApache | xmlrpc-c/src/xmlrpc_serialize.c:414-507 | which names belong to which dialect: none with the prefix ex: outside the Apache dialect, and there neither i8 nor nil without it |
| XmlDialects.EventsInDialect | xmlrpc-c/src/xmlrpc_serialize.c:414-533 | every start and end tag that an XML parser meets in printed markup has a name of the dialect |
| XmlDialects.CallKeeps | xmlrpc-c/src/xmlrpc_serialize.c:608-651 | in a printed call all names are of the dialect, and one with the prefix ex: occurs only if the root declares it, which it does exactly in the Apache dialect |
| XmlDialects.ResponseKeeps | xmlrpc-c/src/xmlrpc_serialize.c:667-698 | the same for a response |
| XmlDialects.FaultKeeps | xmlrpc-c/src/xmlrpc_serialize.c:712-748 | the same for a fault, which declares nothing |
| XmlDialects.PrintedShows | xmlrpc-c/src/xmlrpc_serialize.c:414-533 | at all depths the element around a value has the name of its type and dialect, by a table of their own, with items and members in order |
| XmlDialects.DocumentShows | xmlrpc-c/src/xmlrpc_serialize.c:414-533 | the same of the element read back from the bytes |
| XmlReadBack.DocumentReadsBack | xmlrpc-c/src/xmlrpc_serialize.c:511-533 | a document printed from any well-formed markup reads back as the element the markup describes |
| XmlRoundTrip.ValueReadsBack | xmlrpc-c/src/parse_value.c:690-741 | for both dialects the element of a printed value parses to the value in normal form, or gives the first fault there is in it |
| XmlRoundTrip.ReadFaultSplit | xmlrpc-c/src/parse_value.c:690-741 | there is no fault in a value if and only if it nests no deeper than maxRecursion and its texts are valid UTF-8 of UCS-2; if only the one is not so, the fault says which |
| XmlRoundTrip.ValidIffBasicPlane | xmlrpc-c/lib/libutil/utf8.c:257-330 | a text of legal XML characters is accepted if and only if none of them takes four octets |
| XmlRoundTrip.XmlRoundTrip | xmlrpc-c/src/xmlrpc_serialize.c:280-533 | through the bytes and for both dialects: a printed value reads back as its normal form if and only if it is not too deep and its texts are valid, and gives the parse fault or the UTF-8 fault otherwise |
| XmlRoundTrip.SameIffStable | xmlrpc-c/src/xmlrpc_serialize.c:280-533 | exactly the values without CR, with distinct keys and with doubles that print exactly come back as they were |
| XmlValueParser.StringText | xmlrpc-c/src/xmlrpc_string.c:685-717 | valid UTF-8 is stored with its line delimiters normalised |
| XmlValueParser.ParseDouble | xmlrpc-c/src/parse_value.c:495-533 | the strict form first, then the fallback |
| XmlValueParser.ParseSimpleValueCdata | xmlrpc-c/src/parse_value.c:605-663 | the value of a simple element by its name |
| XmlValueParser.GetChild | xmlrpc-c/src/parse_value.c:131-175 | the first child with the name |
| XmlValueParser.ParseArrayDataChild | xmlrpc-c/src/parse_value.c:38-60 | parses, appends and gives back one item |
| XmlValueParser.ParseArray | xmlrpc-c/src/parse_value.c:64-107 | the array of a data element; on a fault nothing is held that was not held before |
| XmlValueParser.ParseMember | xmlrpc-c/src/parse_value.c:179-214 | key and value of a member with a reference to each, and on a fault neither |
| XmlValueParser.ParseStructMember | xmlrpc-c/src/parse_value.c:240-259 | a member is set as by a map update that keeps the order, and both references given back |
| XmlValueParser.ParseStruct | xmlrpc-c/src/parse_value.c:218-265 | the struct of the members; on a fault nothing is held that was not held before |
| XmlValueParser.ParseValue | xmlrpc-c/src/parse_value.c:690-741 | the value of the element, depth limit included; on a fault every value created has been freed; on success the one new reference is to the root |
| XmlSyntax.DoubleExact | xmlrpc-c/src/parse_value.c:495-533 | a double is the strict numeral, or else the very number of the fallback |
| XmlSyntax.SimpleExact | xmlrpc-c/src/parse_value.c:269-663 | what each simple element means, by its name and text: a table with one line for each name, both names of i8 and nil included |
| XmlSyntax.WrittenIsRead | xmlrpc-c/src/parse_value.c:690-741 | whatever element is spelled by the grammar and nests no deeper than allowed is read as what it means |
| XmlSyntax.ReadWasWritten | xmlrpc-c/src/parse_value.c:690-741 | whatever element is read was spelled by the grammar |
| XmlSyntax.ParsesExactly | xmlrpc-c/src/parse_value.c:38-741 | an element is read as a value if and only if it is a way to write that value within the depth |
| XmlSyntax.RefusedCode | xmlrpc-c/src/parse_value.c:38-741 | an element that is refused gives the parse fault, or the UTF-8 fault, which takes a text in it that is not valid |
| XmlSyntax.FirstBadItem | xmlrpc-c/src/parse_value.c:38-107 | of the items of an array the first bad one tells the fault |
| XmlSyntax.FirstBadMember | xmlrpc-c/src/parse_value.c:179-265 | of the members of a struct the first bad one tells the fault, its name before its value |
| XmlSyntax.SimpleFault | xmlrpc-c/src/parse_value.c:605-663 | of the simple elements a string with text that is not valid, and no other, gives the UTF-8 fault |
| XmlSyntax.UntypedIsString | xmlrpc-c/src/parse_value.c:715-722 | a value element with text alone means what the string element with that text means: the text with its line delimiters as LF, or the UTF-8 fault exactly when it is not valid |
| XmlSyntax.UntypedReadsBack | xmlrpc-c/src/parse_value.c:715-722 | the same through the bytes of a document |
| TreeBuilder.ParseContext.StartElement | xmlrpc-c/src/xmlrpc_expat.c:256-302 | the new element is the root, or the last child of the current one, and becomes current |
| TreeBuilder.ParseContext.EndElement | xmlrpc-c/src/xmlrpc_expat.c:306-336 | the parent becomes current |
| TreeBuilder.ParseContext.CharacterData | xmlrpc-c/src/xmlrpc_expat.c:340-363 | the text is added to the current element |
| TreeBuilder.ParseContext.Drive | xmlrpc-c/src/xmlrpc_expat.c:410-460 | every event goes to its handler, in order |
| TreeBuilder.InnerRuns | xmlrpc-c/src/xmlrpc_expat.c:206-363 | the events inside an element add exactly its text and its children, and change no other element |
| TreeBuilder.HandlersBuildTheTree | xmlrpc-c/src/xmlrpc_expat.c:256-363 | for every well-nested stream with one root: no assertion fails, the tree built is the one denoted, each text is the concatenation of its own pieces, parent links match the lists of children, and nothing is current at the end |
| MessageParser.XmlParse | xmlrpc-c/src/xmlrpc_expat.c:410-502 | the element a document denotes |
| MessageParser.ConvertParam | xmlrpc-c/src/xmlrpc_parse.c:130-154 | one round of the loop, which goes on after a fault |
| MessageParser.ConvertParams | xmlrpc-c/src/xmlrpc_parse.c:101-160 | the array of the parameters, or the last fault set, with nothing left held |
| MessageParser.ParseCallElement | xmlrpc-c/src/xmlrpc_parse.c:164-276 | method name and parameters with one new reference; on a fault nothing created is left |
| MessageParser.ParseCallText | xmlrpc-c/src/xmlrpc_parse.c:280-320 | the same from the bytes, with the size limit |
| MessageParser.InterpretFaultValue | xmlrpc-c/src/xmlrpc_parse.c:361-400 | code and text of a fault struct, with all references given back on every path |
| MessageParser.ParseFaultElement | xmlrpc-c/src/xmlrpc_parse.c:404-441 | the fault of a response, leaving nothing held |
| MessageParser.ParseParamsElement | xmlrpc-c/src/xmlrpc_parse.c:445-486 | the one result, with a reference of its own, and the array given back |
| MessageParser.ParseMethodResponseElt | xmlrpc-c/src/xmlrpc_parse.c:490-519 | a result or a fault, and on neither nothing created is left |
| MessageParser.ParseResponseText | xmlrpc-c/src/xmlrpc_parse.c:523-584 | the same from the bytes, with the size limit |
| MessageSyntax.ParamsExact | xmlrpc-c/src/xmlrpc_parse.c:101-160 | the parameters that are read are exactly those of the param elements, each with one value |
| MessageSyntax.ParamsFault | xmlrpc-c/src/xmlrpc_parse.c:130-154 | which code is left: that of the first bad parameter, unless an element of another name follows |
| MessageSyntax.CallExact | xmlrpc-c/src/xmlrpc_parse.c:164-276 | an element is a call if and only if it has a method name that is valid and, unless the name is its only child, parameters |
| MessageSyntax.FaultExact | xmlrpc-c/src/xmlrpc_parse.c:361-400 | a struct tells a fault if and only if it has a 32-bit code and a text under the two keys |
| MessageSyntax.ResponseExact | xmlrpc-c/src/xmlrpc_parse.c:404-519 | an element is a response if and only if it holds one parameter, or one fault |
| MessageSyntax.ParseCallExact | xmlrpc-c/src/xmlrpc_parse.c:280-320 | bytes are read as a call if and only if they are within the size limit and hold such an element |
| MessageSyntax.ParseResponseExact | xmlrpc-c/src/xmlrpc_parse.c:523-584 | the same for a response |
| MessageSyntax.NameOnlyReadsBack | xmlrpc-c/src/xmlrpc_parse.c:254-260 | through the bytes: a call with a method name and no params element reads as that call with no parameters, or gives the UTF-8 fault exactly when the name is not valid |
| MessagePrinter.SerializeParams2 | xmlrpc-c/src/xmlrpc_serialize.c:547-585 | appends the parameter list |
| MessagePrinter.SerializeCall2 | xmlrpc-c/src/xmlrpc_serialize.c:608-651 | appends the document of a call |
| MessagePrinter.SerializeResponse2 | xmlrpc-c/src/xmlrpc_serialize.c:667-698 | appends the document of a response |
| MessagePrinter.SerializeFault | xmlrpc-c/src/xmlrpc_serialize.c:712-748 | appends the document of a fault; it fails exactly when the text is not valid |
| XmlLayout.CallPrinted | xmlrpc-c/src/xmlrpc_serialize.c:547-651 | the exact text of a call, for both dialects |
| XmlLayout.ResponsePrinted | xmlrpc-c/src/xmlrpc_serialize.c:667-698 | the exact text of a response |
| XmlLayout.FaultPrinted | xmlrpc-c/src/xmlrpc_serialize.c:712-748 | the exact text of a fault |
| MessageRoundTrip.CallRoundTrip | xmlrpc-c/src/xmlrpc_serialize.c:608-651 | a printed call within the size limit reads back as the same method name and parameters if and only if none is too deep and all texts are valid, and otherwise gives the first fault there is |
| MessageRoundTrip.ResponseRoundTrip | xmlrpc-c/src/xmlrpc_serialize.c:667-698 | a printed response within the size limit reads back as a result if and only if it is not too deep and its texts are valid, and never as a fault of the server |
| MessageRoundTrip.FaultRoundTrip | xmlrpc-c/src/xmlrpc_serialize.c:712-748 | a printed fault within the limits reads back as that code and text, and never as a result |
| Formats.Compiler.LeafNode | xmlrpc-c/src/xmlrpc_decompose.c:937-1014 | the node of a specifier without branches, with its arguments taken in order |
| Formats.Compiler.BuildArrayDecompBranch | xmlrpc-c/src/xmlrpc_decompose.c:680-736 | the items up to the parenthesis, at most 16, with the asterisk noted |
| Formats.Compiler.ProcessArraySpecTail | xmlrpc-c/src/xmlrpc_decompose.c:651-676 | an asterisk only just before the parenthesis |
| Formats.Compiler.MemberBranch | xmlrpc-c/src/xmlrpc_decompose.c:854-877 | one member: key specifier, colon, value and comma |
| Formats.Compiler.BuildStructDecompBranch | xmlrpc-c/src/xmlrpc_decompose.c:818-894 | the members up to the asterisk and brace, at most 16 |
| Formats.Compiler.CreateDecompTreeNext | xmlrpc-c/src/xmlrpc_decompose.c:898-1035 | the branch for the first value described, with both cursors just behind it |
| Formats.Compiler.CreateDecompTree | xmlrpc-c/src/xmlrpc_decompose.c:1039-1063 | one tree and nothing after it |
| Formats.TreeRoundTrip | xmlrpc-c/src/xmlrpc_decompose.c:680-1035 | every tree is rebuilt from its printed format and arguments if its arrays and structs have at most 16 items, and refused otherwise |
| FormatForms.CompileExact | xmlrpc-c/src/xmlrpc_decompose.c:651-1061 | a format and its arguments compile to a tree if and only if they are the format and the arguments of that tree, within the tables |
| Decompose.ReadsAlong | xmlrpc-c/src/xmlrpc_decompose.c:449-592 | what is stored goes to the variables the tree names, one each and in their order, and what must be given back to those meant for it |
| Decompose.WritesAlong | xmlrpc-c/src/xmlrpc_decompose.c:288-358 | what is stored before a fault goes to the first of them |
| Decompose.LastWriteStays | xmlrpc-c/src/xmlrpc_decompose.c:449-592 | of two writes to the same variable the later one stays |
| Decompose.SlotsAccount | xmlrpc-c/src/xmlrpc_decompose.c:193-241 | the variables of a decomposition account for each reference and buffer handed out, none twice |
| Decomposer.ReleaseDecomposition | xmlrpc-c/src/xmlrpc_decompose.c:193-241 | takes back exactly what a decomposition handed out |
| Decomposer.ReleaseItems | xmlrpc-c/src/xmlrpc_decompose.c:171-189 | the same for the branches of an array or struct |
| Decomposer.DecomposeLeaf | xmlrpc-c/src/xmlrpc_decompose.c:461-562 | one scalar or one reference is stored, or the type fault leaves everything as it was |
| Decomposer.DecomposeText | xmlrpc-c/src/xmlrpc_decompose.c:487-518 | an allocated text and perhaps its size are stored, or the fault leaves everything as it was |
| Decomposer.DecomposeItems | xmlrpc-c/src/xmlrpc_decompose.c:288-315 | all items are stored, in order, or what was done before the failure is released, provided the variables still hold it |
| Decomposer.DecomposeMembers | xmlrpc-c/src/xmlrpc_decompose.c:321-358 | all members are stored, in order, or what was done before the failure is released, provided the variables still hold it |
| Decomposer.DecomposeValueWithTree | xmlrpc-c/src/xmlrpc_decompose.c:449-592 | for every tree and value: success stores all in order and adds exactly the references and buffers the leaves call for; a failure at any depth leaves them as they were, provided the variables still hold all that was handed out until then; either way the variables hold exactly what was stored, in order |
| Decomposer.DecomposeValue | xmlrpc-c/src/xmlrpc_decompose.c:1066-1103 | the same from the format string, down to every count in memory |
| Rebuild.DecomposeExact | xmlrpc-c/src/xmlrpc_decompose.c:255-592 | for every value and tree: decomposing succeeds if and only if every part has the type of its specifier, every array and struct the items and members wanted, and the outside routines read what they get; otherwise there is the type fault or the index fault, whichever condition fails |
| Rebuild.FirstBadItem | xmlrpc-c/src/xmlrpc_decompose.c:280-316 | of the items of an array the first that does not fit tells the fault |
| Rebuild.FirstBadMember | xmlrpc-c/src/xmlrpc_decompose.c:321-358 | of the members of a struct the first, in the order of the format, that is missing or does not fit tells the fault |
| Rebuild.DecomposeExactInMemory | xmlrpc-c/src/xmlrpc_decompose.c:255-592 | the same for a value in memory |
| Decompose.NotOverwrittenKeeps | xmlrpc-c/src/xmlrpc_decompose.c:449-592 | if the tree names no variable that receives something to give back again later, the variables still hold all of it, whatever the value and wherever it fails |
| Rollback.RollbackExact | xmlrpc-c/src/xmlrpc_decompose.c:171-189 | for every list of items read, with no reference or text taken twice: releasing them from the variables gives back exactly what was taken if and only if no variable that receives something to give back is named again later |
| Rollback.MemberRollbackExact | xmlrpc-c/src/xmlrpc_decompose.c:346-358 | the same for the members of a struct |
| Rollback.FaultRollbackExact | xmlrpc-c/src/xmlrpc_decompose.c:171-358 | for every tree and value, wherever it fails: the rollback at all levels gives back exactly what was taken if and only if, until the fault, no variable with something to give back was stored to again, which is also exactly when the variables still hold all of it |
| Rollback.AliasedRollback | xmlrpc-c/src/xmlrpc_decompose.c:171-315 | the format (VVi) with one variable twice, against an array whose third item is no integer: it fails, and the rollback gives back the second value twice, which is right if and only if both are the same value |
| Sharing.DropKeepsBase | xmlrpc-c/src/xmlrpc_data.c:136-156 | releasing references held on top of what was held before frees and changes no value that was there before |
| Sharing.AllGone | xmlrpc-c/src/xmlrpc_build.c:90-197 | when nothing is held beyond what was held before, every value created since is freed and every count is as it was, also of values passed in |
| Sharing.SetDenotes | xmlrpc-c/src/xmlrpc_struct.c:509-542 | setting a member in a struct that shares values with others sets it in the value it denotes |
| Builder.Cursors.GetPassed | xmlrpc-c/src/xmlrpc_build.c:201-229 | a value passed in is given one more reference, or the kind fault changes nothing |
| Builder.Cursors.GetArray | xmlrpc-c/src/xmlrpc_build.c:90-123 | the array of the items up to the parenthesis with one new reference; on a fault all created for it is freed and every count as before |
| Builder.Cursors.GetStructMember | xmlrpc-c/src/xmlrpc_build.c:127-153 | a key and a value with a colon between them and one new reference to each; on a fault all created for them is freed and every count as before |
| Builder.Cursors.GetStruct | xmlrpc-c/src/xmlrpc_build.c:157-197 | the struct of the members up to the brace with one new reference; on a fault all created for it is freed and every count as before |
| Builder.Cursors.GetValue | xmlrpc-c/src/xmlrpc_build.c:233-344 | the value that the front of the format describes with one new reference, both cursors just behind it; on a fault nothing is left behind |
| Builder.Cursors.BuildOneValue | xmlrpc-c/src/xmlrpc_build.c:347-403 | one value and nothing after it, with one new reference; on a fault the memory is as before |
| Build.DecomposeUndoesBuild | xmlrpc-c/src/xmlrpc_build.c:233-344 | building takes exactly its arguments in order, and decomposing the value along the tree stores that same list if and only if each argument reads back, which is in question only for datetimes, wide strings and C pointers |
| BuildForms.BuildExact | xmlrpc-c/src/xmlrpc_build.c:22-403 | a format and its arguments build a value if and only if they spell a plan for it: a grammar of formats, its arguments and what it makes |
| Rebuild.BuildUndoesDecompose | xmlrpc-c/src/xmlrpc_decompose.c:449-592 | the converse: what was stored by a decomposition along a tree that names all there is builds the part of the value that was named, if and only if its texts are ones the library makes and the outside routines make again what they read |
| Excess.PartIsRead | xmlrpc-c/src/xmlrpc_decompose.c:280-316 | what is ignored, items at a dash and those behind an asterisk, plays no part: the same list is stored from the part of the value that the tree wants, along the tree without what it ignores |
| Excess.PartIsRebuilt | xmlrpc-c/src/xmlrpc_decompose.c:449-592 | so for every value and every tree that decomposes, building from what was stored gives the part that the tree wants |
| BuildInMemory.ReadsSame | xmlrpc-c/src/xmlrpc_decompose.c:449-592 | what is stored from a value in memory is what is stored from the tree it denotes |
| BuildInMemory.BuiltThenDecomposed | xmlrpc-c/src/xmlrpc_build.c:347-403 | both ends together: the printed format compiles to the tree, and the built value taken apart in memory gives the list if each argument reads back |
| MultiCall.StepInv | xmlrpc-c/src/xmlrpc_client.c:1046-1168 | every step of any interleaving keeps what is known of each thread, its call record and the shared fault flag |
| MultiCall.AtReturn | xmlrpc-c/src/xmlrpc_client.c:850-1168 | at return nothing is in flight, and how often each handler has run and each record was released follows from how its thread fared at the tests of the shared flag; any fate but to be started takes a refused request |
| MultiCall.ExactlyOnce | xmlrpc-c/src/xmlrpc_client_global.c:338-398 | at return each of the N handlers has run exactly once if and only if no start failed, and then each record was released exactly once |
| MultiCall.StepsRunOut | xmlrpc-c/src/xmlrpc_client_global.c:338-398 | every step brings the return nearer |
| MultiCall.NoDeadlock | xmlrpc-c/src/xmlrpc_client_global.c:384-398 | until the call returns some step can be taken |
| MultiCall.RunLength | xmlrpc-c/src/xmlrpc_client_global.c:338-398 | no run is longer than a bound in the number of servers |
| MultiCall.CanReturn | xmlrpc-c/src/xmlrpc_client_global.c:338-398 | from every state a run reaches, the call can return |
| MultiCall.OrderMatters | xmlrpc-c/src/xmlrpc_client_global_version1.c:415-455 | without refused requests, joining before draining has run each handler once at return for any number of servers, and draining before joining for none only |
| MultiCall.SharedFlagReleasesTwice | xmlrpc-c/src/xmlrpc_client.c:1068-1096 | no record is released twice in any run that returns if and only if there is at most one server |
| MultiCall.OneRefusalStopsAll | xmlrpc-c/src/xmlrpc_client.c:1100-1168 | for any number of servers one refused request can keep all others from being sent, with no handler run |

## Left out

- Decomposer.DecomposeValue: a decomposition that fails after a variable with something to give back was stored to again with something else is left out, because the rollback is then wrong (Rollback.FaultRollbackExact; if the same reference or text was taken twice, it can come out even all the same); does not model the address of a buffer, only its contents; for `w#` the source stores the size before the text, which are variables of different types.
- Decomposer.DecomposeValueWithTree: the same case is left out.
- Decomposer.DecomposeItems: the same case is left out.
- Decomposer.DecomposeMembers: the same case is left out.
- Build.DecomposeUndoesBuild: a list that is too short or of the wrong types, undefined in C, counts as a fault; the keys of a struct are distinct C strings of valid UTF-8 without CR.
- Builder.Cursors.GetValue: the values passed in are finite trees, not arrays that hold themselves.
- XmlReadBack.DocumentReadsBack: reads the XML that the serializer emits, not all of XML; declarations other than one attribute, comments, CDATA sections and other references are refused.
- Doubles.PrintedReadsBack: exact real numbers stand for doubles, so rounding is not modelled.
- XmlRoundTrip.XmlRoundTrip: texts that are no legal XML are left out, since the XML parser refuses the document; so is a build without wide characters, whose UTF-8 validator accepts everything.
- Rebuild.BuildUndoesDecompose: `t`, `p`, `8` and `w` are read and made by routines that are parameters, and the theorem says what they must do.
- JsonRoundTrip.JsonRoundTrip: `%e` is assumed to print digits and points and then an `e`.
- Datetimes.ParseDatetimeString: the regular expressions are deterministic matchers; the variant without regular expressions is not modelled.
- XmlValueParser.ParseSimpleValueCdata: for an `<i8>` number that is refused, parse_value.c:588-595 formats the fault text with one argument for two `%s`, undefined in C; the model reports the parse fault.
- JsonStrings.MakeJsonString: takes the six characters of a `\u` escape only; in the source sprintf() ends them with a NUL one past the buffer of six (json.c:1086 and 1104).
- JsonStrings.GetBackslashSequence: the buffer for `\u` is taken to hold the four digits only, though the source does not terminate it.
- ValueStores.ValueStore.Incref: locks are left out; INCREF and DECREF are atomic steps.
- MultiCall.AtReturn: the transport is assumed to complete each accepted request once and to drain only when nothing is in flight; the fixed sleep is no step.
- Servers (Abyss, CGI, http.sys), transports, sockets, signals and daemons: input and output.
- Method registry, system methods, signatures, server information, tracing, versions: would add only easy members.
- Old-style memory management in decomposition (`xmlrpc_parse_value`), C pointers with destructors, the datetime string cache.
- Wide strings, Unix-time and string datetimes in formats appear only as parameters.
- Allocation failures, and cursor positions after a fault in a format string.
- Fault texts and document positions in parse errors.
- The overflow of the other fixed print buffers: none of the texts printed through them can be that long.
