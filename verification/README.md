# Three networking assignments, modelled and proved in Dafny

The repository holds a software router in C (`PCom1`), a publish/subscribe broker in C++ with
store-and-forward (`PCom2`) and an HTTP client in C that carries the JSON library parson
(`PCom3`). This project models the parts of them that have something to prove and proves it.
`dafny verify dfyconfig.toml` checks everything.

**JSON** (`PCom3/parson.c`). `JsonTree` is the tree, `JsonText` the text a tree is printed as,
`JsonGrammar` what the recursive descent makes of a text, `DoubleRange` which decimals are out
of the range of a double. `JsonSyntax` is the syntax of RFC 8259 as concrete syntax trees, each
with its text and its meaning; its white space, words, escapes and hexadecimal digits are spelt out
there and not taken from the parser. `JsonSyntaxLexical`, `JsonConformance` and `JsonAcceptance`
prove what the parser makes of every such text and exactly which texts it accepts beyond them, and
`JsonPrintedSyntax` that the printer writes such texts. From there `JsonRoundTrip` and
`JsonTheorems` conclude that printing and parsing undo each other on trees of any depth, with
arbitrary byte strings, in every output style;
`JsonStringProofs`, `JsonNumberProofs` and `JsonWellFormed` hold what they share. `JsonParser`
is the parser as it runs, a cursor over a C string and an output buffer that is written in
place, and `JsonPrinter` the serializer as it runs, once to measure and once to write; both are
proved to compute what the functions say, without an access outside their buffers.
`JsonStringUtf8` and `Utf8` prove the decoding of strings against RFC 8259 and RFC 3629.
`JsonComments` is comment removal in place, and `JsonCommentPasses` what its two passes do
together to texts with comments of both kinds. `JsonEquality` is structural equality, `DotPath`
dotted paths on values, `JsonHeap` deep copy and dotted assignment on linked nodes,
`ObjectTable` the growable name and value arrays of an object.

**Router** (`PCom1`). `Router` files routes by mask length, sorts and searches them, and proves
the result to be a longest match. `InternetChecksum` proves the 32-bit checksum loop against
the plain sum of RFC 1071 and the incremental update against RFC 1624. `Queue` is the packet
queue over cells that are freed one by one.

**Broker** (`PCom2`). `PubSubSpec` is the server as a state machine over connect, close,
subscribe, unsubscribe and publish events, and, independently of it, what each client is owed,
read off the events alone. `PubSubProofs` proves over whole runs that the two agree.
`PubSubServer` has the objects and maps of the program, each operation proved to be a step.
`Wire` is the packed form packets travel in, its rebuilding, and the values a subscriber reads off
a packet; `Subscriber` puts it all together: from the bytes that were sent to it a client rebuilds
the packets it is owed, and prints the values that were published.

**Response accumulation** (`PCom3/helpers.c`, `PCom3/buffer.c`). `Receive` gathers a response
from reads of any size, proves exactly when the cutting does not matter, and that a body comes back
whole when the header writes its length in decimal digits.

## How the model reads the source

- A C string is a byte sequence whose last byte is its only NUL; an index into it that is in
  bounds never lies past the terminator. Strings of the tree are arbitrary byte sequences.
- Numbers of the tree are integers of magnitude up to 2^53, minus zero kept apart; the format
  `%1.17g` prints these as plain digits. Any other number token becomes a leaf that keeps the
  token; the theorems about printing speak of trees without such leaves.
- `strtod` is modelled as far as it decides where a token ends (signs, digits, fraction,
  exponent, hexadecimal, infinity and not-a-number forms of the C locale) and whether it sets
  `errno`: for values that round to 2^1024 or more, and for values that are below 2^-1022 when
  rounded and not exact there. C leaves the second to the implementation; it is modelled as
  glibc does it on x86.
- The router's words are those of a little-endian host. `entry_compare` wraps modulo 2^32 and
  is read as signed. Shift counts are taken modulo 32, as the hardware does
  (`get_subnet_mask` shifts by 32 at both ends, which C leaves undefined).
- In the broker, `accept` never returns an open descriptor and messages arrive on open
  connections (`PubSubSpec.Legal`). What is proved of a run holds as long as no message arrives
  on a descriptor whose entry a reconnection erased under its client (`PubSubSpec.Safe`); with
  no empty client ID these are exactly the runs the server survives
  (`PubSubProofs.SurvivesExactlySafeRuns`), and a reconnection that finds its old descriptor
  free erases nothing (`PubSubProofs.AloneIsSafe`). Topics in the server state are
  NUL-terminated within their fifty bytes.
- `read` delivers a response as any sequence of non-empty chunks of at most 4096 bytes, then
  end of file. Whatever stands in memory behind the buffer is a parameter, since `strtol` may
  run into it.
- A cell of the queue carries a flag saying that it has not been freed, and every access asks
  for it.

## Where the code does not do what is expected of it

- The comparison a bucket is sorted by wraps, so it may go round in a circle, each of three
  routes below the next one; then no order is sorted, and section 7.22.5 of ISO C11 leaves
  `qsort` undefined (`Router.ArrangementExists`, `Router.ThreeRoutesGoRound`). Where it does not,
  `get_best_route` misses routes exactly when prefixes of one bucket are more than 2^31 apart,
  ties at exactly 2^31 aside (`Router.SearchNeedsNear`); for host routes that loses a destination
  (`Router.HostRoutesNeedNear`, `Router.HostRouteLost`).
- `calculate_checksum`, documented as RFC 1624, leaves a header that does not verify when the
  old checksum field is 0xFFFF (`InternetChecksum.TtlStepVerifies`,
  `InternetChecksum.HopsUntilWrap`).
- `fd_to_id.erase(old_fd)` removes the entry of another client that was given the descriptor
  meanwhile, and its next message ends the server (`PubSubProofs.StolenDescriptorCrashes`,
  `PubSubProofs.ReusedDescriptorCrashes`).
- `receive_from_server` obeys a length field it finds in the body: a response whose header does
  not announce its length comes back whole for every cut exactly when it holds no header end or
  no field, or ends with the later of the two (`Receive.UnannouncedComesWhole`,
  `Receive.FieldInBodyCutsShort`).
- `is_valid_utf8` looks past the given length, so a text cut inside a character can pass
  (`Utf8.ValidityNeedsBoundary`, `Utf8.LoneLeadScans`).
- The pass of `remove_comments` for block comments comes first and reads line comments as text.
  A line comment with an odd double quote in it, or with the start of a block comment, misleads
  it: later comments stay, or text is blanked. `JsonCommentPasses.LineCommentBlanked` says exactly
  which line comments are safe, `JsonCommentPasses.CommentsBlanked` that nothing else goes wrong,
  and `JsonCommentPasses.QuotedCommentRefused` has a text that is refused for it.
- The parser is wider than RFC 8259: vertical tab and form feed are white space, strings need
  not be valid UTF-8, a numeral may lack the digits behind its point or, behind a minus sign,
  those before it, a lone minus sign at the head of the text is accepted as zero
  (`JsonWellFormed.MinusIsZero`), and what follows the value is ignored. It is also narrower:
  half a surrogate pair on its own, an exponent right behind a zero
  (`JsonAcceptance.ZeroExponentRefused`), numbers out of the range of a double
  (`JsonAcceptance.TooLargeRefused`, `JsonAcceptance.TooSmallRefused`), repeated keys, keys with
  a NUL and more than 2048 levels are refused. `JsonAcceptance.AcceptedTexts` and
  `JsonAcceptance.Rfc8259Parsed` prove that there is nothing else.
- `icmp_checksum`, as a function, loads the byte behind an odd-length buffer instead of padding
  with zero (`InternetChecksum.OddByteIsNotPadded`, `InternetChecksum.ChecksumsAgree`), and two
  folding steps need not fold a sum of more than 2^17 bytes (`InternetChecksum.TwoFolds`,
  `InternetChecksum.LongBufferMisfolds`). Both calls in the program pass 8 bytes, for which neither
  matters.

## Model

| member | source | states |
|---|---|---|
| JsonTheorems.PrintThenParse | PCom3/parson.c:894-1107 | parsing a printed tree (any depth, arbitrary byte strings, compact or pretty, slashes escaped or not) in front of any text that cannot extend a number returns that tree, keys in order, and stops at its last byte, exactly when at most 2048 containers surround any node; otherwise it fails |
| JsonTheorems.ParsePrintParse | PCom3/parson.c:1142-1150 | whatever text was parsed, printing the result and parsing again gives the same tree, when its number tokens are modelled integers |
| JsonTheorems.StyleIsLayoutOnly | PCom3/parson.c:894-1031 | the four output styles of one tree all parse to one value, or all fail |
| JsonWellFormed.ParsedWellFormed | PCom3/parson.c:696-832 | every tree the parser returns has unique NUL-free keys in every object and at most 2048 containers around any node |
| JsonWellFormed.FitsIsDepth | PCom3/parson.c:696-719 | a tree is refused for its nesting exactly when its depth and that of its place make more than 2048 |
| JsonTheorems.TextNoNul | PCom3/parson.c:894-1098 | printed text contains no NUL, so it is a C string |
| JsonWellFormed.LoneMinusStandsStill | PCom3/parson.c:862-872 | the number branch leaves the cursor where it was exactly on a minus sign that starts no number, and then yields zero |
| JsonWellFormed.MinusIsZero | PCom3/parson.c:862-872 | the text of one minus sign parses as zero |
| JsonRoundTrip.ValueRead | PCom3/parson.c:696-832 | at any position and nesting, what the recursive descent makes of a printed tree: that tree and its end, or failure when the tree is too deep there |
| JsonRoundTrip.QuotedRead | PCom3/parson.c:628-694 | reading a serialized string gives back every byte of it, NUL, control and non-ASCII bytes included, and ends behind its closing quote |
| JsonRoundTrip.EscapedCloses | PCom3/parson.c:559-577 | the first unescaped quote behind escaped text is the one the serializer wrote |
| JsonNumberProofs.NumberRead | PCom3/parson.c:862-872 | a printed integer up to 2^53 in magnitude, minus zero included, reads back as itself exactly when the text behind it does not extend the numeral |
| JsonNumberProofs.NumberTextShort | PCom3/parson.c:1009-1022 | the decimal text of a modelled number fits the 64-byte scratch buffer |
| JsonGrammar.CloseQuote | PCom3/parson.c:559-577 | the position found is a quote behind the start, with no NUL before it |
| JsonAcceptance.Rfc8259Parsed | PCom3/parson.c:696-872 | every text of sections 2 to 7 of RFC 8259, white space, escapes, fractions and exponents included, is parsed to the tree it denotes, and refused exactly when it holds half a surrogate pair on its own, an exponent right behind a zero or a number out of the range of a double, repeats a key in an object, has a key with a NUL, or is nested deeper than 2048 |
| JsonAcceptance.AcceptedTexts | PCom3/parson.c:1142-1150 | a text is accepted as v up to e exactly when, behind a byte order mark, white space and a text of the syntax with meaning v, its numbers in the range of a double, lead up to e and nothing there continues a numeral, or a lone minus sign stands at e and v is zero |
| JsonAcceptance.HeadRead | PCom3/parson.c:1142-1150 | a text headed by a value of the syntax is read to its meaning and its end, or refused, whatever follows that does not continue its numeral |
| JsonAcceptance.HeadDerived | PCom3/parson.c:696-872 | whatever is accepted, but for a lone minus sign, derives from the syntax, keys unique and nesting bounded |
| JsonAcceptance.ZeroExponentRefused | PCom3/parson.c:270-283 | the text 0e0, which RFC 8259 allows, is refused |
| JsonAcceptance.TooLargeRefused | PCom3/parson.c:862-872 | the text 1e400, which RFC 8259 allows, is refused |
| JsonAcceptance.TooSmallRefused | PCom3/parson.c:862-872 | so is 1e-400 |
| DoubleRange.NaturalsInRange | PCom3/parson.c:862-872 | no natural number up to 2^53 is out of the range of a double |
| DoubleRange.OverflowsFrom | PCom3/parson.c:862-872 | a decimal m * 10^s overflows a double exactly when it reaches 2^1024 - 2^970 |
| DoubleRange.UnderflowsBelow | PCom3/parson.c:862-872 | it underflows exactly when it is below 2^-1022 - 2^-1076, not zero, and no multiple of 2^-1074 |
| DoubleRange.NormalInRange | PCom3/parson.c:862-872 | every decimal from 2^-1022 to 2^1023 is in range, by cross-multiplication |
| DoubleRange.ModerateInRange | PCom3/parson.c:862-872 | so is every m * 10^s with m up to 2^53 and s from -306 to 291 |
| JsonAcceptance.ModerateAccepted | PCom3/parson.c:862-872 | a numeral with any fraction and exponent whose digits make such a number is accepted, unless it has a superfluous zero or an exponent right behind a zero |
| JsonAcceptance.TenthParsed | PCom3/parson.c:862-872 | the text 0.1 is parsed, to the number it writes |
| JsonConformance.ValueRead | PCom3/parson.c:696-719 | at any position and nesting, a text of the syntax is read to its meaning and its end, or refused, as the parser's lexical rules, keys and nesting say |
| JsonConformance.ItemsRead | PCom3/parson.c:806-823 | the array loop on any items of the syntax |
| JsonConformance.MembersRead | PCom3/parson.c:740-777 | the object loop on any members of the syntax, duplicate keys refused |
| JsonSyntaxLexical.QuotedTextRead | PCom3/parson.c:559-694 | a string of section 7 of RFC 8259, bytes from 0x80 on taken as they are, is decoded to what its characters denote, and refused exactly for half a surrogate pair on its own |
| JsonSyntaxLexical.QuotedDerived | PCom3/parson.c:559-694 | every string that is accepted is one of that section |
| JsonSyntaxLexical.HexDigits | PCom3/parson.c:174-183 | a character has the value d exactly when it is the one at d of 0123456789ABCDEF or of 0123456789abcdef |
| JsonSyntaxLexical.FourDigitsRead | PCom3/parson.c:185-199 | four such characters, of either case, in a \u escape decode to the UTF-8 of the number they write, if it is a scalar value |
| JsonSyntaxLexical.NumeralRead | PCom3/parson.c:862-872 | a numeral with any fraction and exponent that nothing continues is taken as a whole, and refused exactly for a superfluous leading zero, an exponent right behind a zero or a value out of the range of a double |
| JsonSyntaxLexical.NumeralDerived | PCom3/parson.c:862-872 | where strtod stops, a numeral ends that nothing continues |
| JsonSyntaxLexical.NumberOfNumeral | PCom3/parson.c:862-872 | digits alone, up to 2^53, are a number; every numeral with a fraction or an exponent keeps its own text |
| JsonSyntaxLexical.SpecialRefused | PCom3/parson.c:862-872 | behind a minus sign, inf and nan are refused in any case of their letters |
| JsonSyntaxLexical.HexadecimalRefused | PCom3/parson.c:270-283 | so is a zero with an x, in either case, and a hexadecimal digit behind it |
| JsonSyntaxLexical.DecimalIsPlain | PCom3/parson.c:270-283 | is_decimal refuses exactly the numerals with a superfluous leading zero or an exponent right behind a zero |
| JsonPrintedSyntax.PrintedIsRfc8259 | PCom3/parson.c:894-1107 | whatever tree is printed in whatever style, the text is one of RFC 8259 and denotes the tree |
| Bytes.ClassesAre | PCom3/parson.c:52-52 | white space is the six characters of isspace; digits are the ten |
| JsonText.Layout | PCom3/parson.c:894-1031 | an entry of pretty text starts a line with four spaces for each level and has one space behind the colon, the closing bracket a line with those of its own level; compact text has neither line breaks nor spaces around entries; an empty container is its two brackets |
| JsonPrintedSyntax.EscapeChosen | PCom3/parson.c:1033-1098 | exactly quotes, backslashes, control characters and, if the option says so, slashes are escaped, with two characters wherever RFC 8259 has such an escape and six otherwise |
| JsonParser.JsonParseString | PCom3/parson.c:1142-1150 | the moving-cursor parser returns the tree the grammar assigns to the text, or nothing when it assigns none |
| JsonParser.ParseJsonValue | PCom3/parson.c:696-719 | parse_value: result and cursor are those of the grammar; the cursor never moves back nor past the terminator |
| JsonParser.ParseArrayValue | PCom3/parson.c:788-832 | parse_array_value against the grammar |
| JsonParser.ParseArrayLoop | PCom3/parson.c:806-823 | the loop of parse_array_value, where the cursor stops and what has been collected |
| JsonParser.ParseObjectValue | PCom3/parson.c:721-786 | parse_object_value against the grammar, the empty object included |
| JsonParser.ParseObjectLoop | PCom3/parson.c:740-777 | the loop of parse_object_value, where the cursor stops and what has been collected |
| JsonParser.ParseNameColon | PCom3/parson.c:741-757 | a key is accepted exactly when it is a string without NUL followed by a colon |
| JsonParser.AddMember | PCom3/parson.c:374-397 | a name is added exactly when no member has it yet |
| JsonParser.SkipQuotes | PCom3/parson.c:559-577 | skip_quotes succeeds exactly on a quoted string and stops behind its closing quote |
| JsonParser.ParseUtf16 | PCom3/parson.c:579-624 | an escape or surrogate pair is written as the UTF-8 of its code point, within the room it has freed |
| JsonParser.WriteCodePoint | PCom3/parson.c:600-619 | the bytes written for a code point are its UTF-8 encoding of section 3 of RFC 3629 |
| JsonParser.ProcessString | PCom3/parson.c:628-680 | decoding writes only inside a buffer as long as the input and returns what the escapes denote, or fails when one is malformed |
| JsonParser.GetQuotedString | PCom3/parson.c:685-694 | quoted text is decoded and passed over as a whole |
| JsonParser.IsDecimalToken | PCom3/parson.c:270-283 | a token is refused exactly for a superfluous leading zero or an x |
| JsonParser.ParseNumberValue | PCom3/parson.c:862-872 | parse_number_value against the grammar, range errors of strtod included |
| JsonParser.ParseStringValue | PCom3/parson.c:834-847 | parse_string_value against the grammar |
| JsonParser.ParseBooleanValue | PCom3/parson.c:849-860 | parse_boolean_value against the grammar |
| JsonStringUtf8.QuotedUtf8 | PCom3/parson.c:628-694 | a string whose text between the quotes is valid UTF-8 is decoded to valid UTF-8 |
| JsonStringUtf8.EscapesAreScalars | PCom3/parson.c:579-624 | a "\u" escape is accepted exactly when it denotes a Unicode scalar value, alone or as a pair |
| JsonStringUtf8.PairIsUnique | PCom3/parson.c:600-611 | a surrogate pair denotes a code point exactly when it is the pair section 7 of RFC 8259 prescribes |
| Utf8.DecodeEncodes | PCom3/parson.c:216-256 | every character the syntax of section 4 of RFC 3629 allows is the encoding of one scalar value |
| Utf8.EncodeDecodes | PCom3/parson.c:600-619 | every scalar value has an encoding of that syntax, which decodes to it |
| Utf8.EncodeWeighs | PCom3/parson.c:600-619 | the payload bits of the encoding, weighed by powers of 64, make the code point |
| Utf8.VerifyUtf8Sequence | PCom3/parson.c:216-256 | verify_utf8_sequence accepts exactly the characters of RFC 3629 and never reads behind the terminator |
| Utf8.IsValidUtf8 | PCom3/parson.c:258-268 | is_valid_utf8 decides whether whole characters lead from the start to the end or past it |
| Utf8.ScansIsUtf8 | PCom3/parson.c:258-268 | behind a byte that continues no character, that is validity of the text |
| Utf8.LoneLeadScans | PCom3/parson.c:258-268 | the single byte 0xC2, half a character, passes in front of every continuation byte |
| Utf8.ValidityNeedsBoundary | PCom3/parson.c:258-268 | is_valid_utf8 is right for every text exactly when the byte behind the text continues no character |
| JsonPrinter.SerializationSize | PCom3/parson.c:1542-1546 | the measuring pass returns the length of the text and one |
| JsonPrinter.SerializeToBuffer | PCom3/parson.c:1548-1559 | succeeds exactly when the buffer holds text and NUL, writes both and no other byte; otherwise writes nothing |
| JsonPrinter.SerializeToString | PCom3/parson.c:1583-1600 | the measured size is exactly filled by the writing pass |
| JsonPrinter.SerializeToBufferR | PCom3/parson.c:894-1031 | with or without a buffer the returned count is the length of the text; with one, the text and a NUL stand at the given position and nothing else has changed |
| JsonPrinter.SerializeString | PCom3/parson.c:1033-1098 | the same for strings, escapes included |
| JsonPrinter.AppendIndent | PCom3/parson.c:1100-1107 | the same for indentation |
| JsonPrinter.AppendString | PCom3/parson.c:1109-1117 | the same for literals |
| JsonComments.RemoveComments | PCom3/parson.c:318-351 | in place, exactly the comments outside strings become spaces, an unterminated one loses its start token and ends the scan |
| JsonComments.CommentBlanked | PCom3/parson.c:318-351 | a comment between texts that themselves have none becomes spaces and both texts stay |
| JsonComments.UnclosedKept | PCom3/parson.c:338-342 | behind a comment that is not closed everything stays |
| JsonComments.ScannerTells | PCom3/parson.c:318-351 | in_string and escaped, told from the text: an odd number of quotes with an even number of backslashes in front, and an odd number of backslashes at the end |
| JsonComments.PrintedHasNoComment | PCom3/parson.c:1152-1165 | both passes leave every printed tree as it is, whatever its strings contain and with slashes escaped or not |
| JsonComments.PrintThenParseWithComments | PCom3/parson.c:1152-1165 | parsing with comments inverts printing, too |
| JsonCommentPasses.LineCommentBlanked | PCom3/parson.c:1152-1165 | the two passes together blank a line comment in front of every text exactly when the first pass leaves its start, closes in it what it opens there and comes out of it outside strings |
| JsonCommentPasses.CommentsBlanked | PCom3/parson.c:1152-1165 | of a text with comments of both kinds, its line comments all such, every comment becomes white space of the same length and nothing else changes |
| JsonCommentPasses.OthersMislead | PCom3/parson.c:1152-1165 | any other line comment misleads the passes: a text behind which they blank something else or too little |
| JsonCommentPasses.QuotedCommentRefused | PCom3/parson.c:1152-1165 | a line comment of one quote, and an array with a block comment on the next line: the text is refused |
| JsonComments.JsonParseStringWithComments | PCom3/parson.c:1152-1165 | the copy, the two passes and the parse compute that result; no byte order mark is skipped here |
| JsonEquality.EqualsIsSameMeaning | PCom3/parson.c:2076-2139 | two trees with unique keys and integer numbers are equal for json_value_equals exactly when they mean the same: objects as maps, numbers as integers |
| JsonEquality.EqualsIsEquivalence | PCom3/parson.c:2076-2139 | on all trees with unique keys, fractions included, the comparison is reflexive and symmetric; it is transitive exactly when the comparison of numbers is, and on trees of integers in any case |
| JsonEquality.EpsilonIsClose | PCom3/parson.c:2130-2131 | comparing up to the epsilon is reflexive, symmetric and exact on integers |
| JsonEquality.EpsilonIsNotTransitive | PCom3/parson.c:2130-2131 | it is not transitive where two differences below the epsilon add up to it |
| JsonEquality.EqualsIgnoresKeyOrder | PCom3/parson.c:2104-2119 | objects with the same members in any order are equal |
| JsonEquality.SameKeys | PCom3/parson.c:2109-2119 | as many keys, each found in the other object: the same keys |
| JsonEquality.ValueEquals | PCom3/parson.c:2076-2139 | the loops with early exits compute the comparison |
| JsonEquality.FindMember | PCom3/parson.c:429-441 | the first member with a name |
| JsonHeap.DeepCopy | PCom3/parson.c:1462-1540 | the copy is an equal tree made of new nodes only, without a parent; there is none exactly when some object repeats a key |
| JsonHeap.CopyObject | PCom3/parson.c:1493-1514 | the object case, where a repeated key is refused |
| JsonHeap.DotSetValue | PCom3/parson.c:1893-1933 | in place: the tree becomes what dotted assignment makes of it; the segments of the name lead through objects to the very node that was passed, each node the parent of the next; on failure no node has changed |
| JsonHeap.DotGetValue | PCom3/parson.c:1200-1207 | the node found is the one the segments of the name lead to, or null |
| JsonHeap.NodeTree | PCom3/parson.c:1200-1207 | that node stands for what dotted lookup finds in the tree |
| JsonHeap.SetThenGet | PCom3/parson.c:1893-1933 | after a successful assignment, lookup of the same name finds the very node that was passed, and its parent is the last object on the way |
| JsonHeap.SetValue | PCom3/parson.c:1827-1846 | a value that has a parent is refused and nothing changes; otherwise the name is bound to it |
| JsonHeap.Node.AddItem | PCom3/parson.c:505-516 | an array gets one more item, whose parent it becomes |
| JsonHeap.Node.AddMember | PCom3/parson.c:388-396 | an object gets one more member, whose parent it becomes |
| DotPath.DotSetThenGet | PCom3/parson.c:1893-1933 | assignment fails exactly for an attached value or when a proper prefix of the path is bound to no object; after it the path leads to the value, and every path that is neither prefix nor extension leads where it led |
| DotPath.GetAfterSet | PCom3/parson.c:1893-1933 | a path that was set leads to the value |
| DotPath.GetElsewhere | PCom3/parson.c:1893-1933 | unrelated paths lead where they led |
| DotPath.GetBelowSet | PCom3/parson.c:1893-1933 | extensions of the path are looked up inside the value |
| DotPath.GetAboveSet | PCom3/parson.c:1893-1933 | prefixes of the path lead to the object that was there, or a new one, with the rest of the path set in it |
| DotPath.SetFailsWhenBlocked | PCom3/parson.c:1907-1915 | failure exactly when something that is not an object is in the way |
| DotPath.SetKeepsWellFormed | PCom3/parson.c:1893-1933 | keys stay unique all the way down |
| DotPath.DotGetIsGetPath | PCom3/parson.c:1200-1207 | splitting the name dot by dot while descending is lookup along the list of its segments |
| DotPath.SplitJoins | PCom3/parson.c:1200-1207 | joining the segments with dots gives the name back, and no segment holds a dot |
| DotPath.PutKeepsOrder | PCom3/parson.c:1827-1846 | assignment moves no member: a new name comes last, one that is there keeps its place |
| DotPath.DotSetIsSetPath | PCom3/parson.c:1893-1933 | the same for assignment, which an attached value makes fail |
| ObjectTable.AddBinds | PCom3/parson.c:388-396 | appending a new name and value to the arrays adds one binding to the map they stand for |
| ObjectTable.SetBinds | PCom3/parson.c:1834-1842 | overwriting a value rebinds its name and no other |
| ObjectTable.RemoveUnbinds | PCom3/parson.c:449-461 | moving the last pair into the gap removes exactly one binding and keeps the names unique |
| ObjectTable.AddThenRemove | PCom3/parson.c:443-464 | removing what was just added restores both arrays |
| ObjectTable.Table.AddN | PCom3/parson.c:374-397 | succeeds exactly for a new name and then adds its binding; the capacity doubles, to at least 16, exactly when it is used up |
| ObjectTable.Table.Resize | PCom3/parson.c:399-427 | fails exactly for capacity zero; the names and values in use stay |
| ObjectTable.Table.GetN | PCom3/parson.c:429-441 | the value bound to the name, or null |
| ObjectTable.Table.Remove | PCom3/parson.c:443-464 | exactly the binding of the name goes, by swap with the last |
| ObjectTable.Table.Set | PCom3/parson.c:1827-1846 | binds the name unless the value has a parent; an existing name keeps its place |
| ObjectTable.Table.Clear | PCom3/parson.c:2003-2014 | no binding is left |
| ObjectTable.Table.Trim | PCom3/parson.c:779-783 | trimming keeps every binding and leaves no spare room; on an empty table it fails |
| ObjectTable.Play | PCom3/parson.c:374-464 | over any run of add, set, remove, clear and trim the arrays bind exactly the names and values that the same run on a finite map binds, every answer is that of the map, and the count is the number of bindings and at most the capacity |
| Router.LongestMatch | PCom1/router.c:253-280 | NULL exactly when no route agrees with the destination in as many first bits as its mask has ones, else such a route with most ones, for every table with contiguous masks, no host bits and, per bucket, prefixes less than 2^31 apart, however qsort arranges ties |
| Router.BestRoute | PCom1/router.c:201-280 | the same for the table built from the lines of a file and searched |
| Router.MaskKeepsFirstBits | PCom1/router.c:253-280 | masking a destination with n leading ones keeps the first n bits of the address and clears the rest, whatever the byte order of the host |
| Router.MatchIsKey | PCom1/router.c:265-267 | a route is what the search looks for at its length exactly when it agrees with the destination in as many first bits as its mask has ones |
| Router.SwapsFourBytes | PCom1/router.c:173-193 | ntohl and htonl turn four bytes round |
| Router.Rtable.ParseRtable | PCom1/router.c:201-244 | bucket n holds the entries of mask length n, sorted by entry_compare |
| Router.Rtable.GetBestRoute | PCom1/router.c:253-280 | the loops over buckets and halves compute the lookup the theorems are about |
| Router.SearchBucket | PCom1/router.c:261-275 | the binary search loop |
| Router.SearchComplete | PCom1/router.c:261-275 | in an ascending bucket the search finds every prefix |
| Router.SearchNeedsOrder | PCom1/router.c:261-275 | the search finds every entry of a bucket exactly when it is ascending |
| Router.SearchNeedsNoWrap | PCom1/router.c:161-165 | after sorting by entry_compare the search finds every entry exactly when no difference of an earlier and a later prefix wrapped |
| Router.SearchNeedsNear | PCom1/router.c:161-275 | told from the routes of one mask length that do not go round in a circle, no two exactly 2^31 apart: qsort has an order to put them in, and in each such order all are found exactly when no two are more than 2^31 apart |
| Router.ArrangementExists | PCom1/router.c:161-165 | qsort has an order to put routes in exactly when no three of them go round in a circle, each comparing below the next |
| Router.ThreeRoutesGoRound | PCom1/router.c:161-165 | 10.0.0.1/32, 10.0.0.100/32 and 10.0.0.200/32 do: no order is sorted, and an insertion sort still leaves one in which all are found, far apart as they are |
| Router.MissedIsLost | PCom1/router.c:253-280 | a route the search misses is lost to every destination that no longer route matches |
| Router.HostRoutesNeedNear | PCom1/router.c:161-280 | with the shorter mask lengths in order and host routes that do not go round in a circle, every destination gets a longest match from every table qsort may build exactly when no two host routes are more than 2^31 apart |
| Router.SortedAscends | PCom1/router.c:161-165 | a bucket in the order of entry_compare is in unsigned order exactly when no difference wrapped |
| Router.CompareWraps | PCom1/router.c:161-165 | entry_compare is the difference of the prefixes, once around 2^32 where it does not fit an int |
| Router.FarApartIsMissed | PCom1/router.c:161-165 | two prefixes more than 2^31 apart: in an order the comparison accepts, some entry of the bucket is never found |
| Router.HostRouteLost | PCom1/router.c:161-280 | the table 10.0.0.1/32, 10.0.0.200/32 gives no route to 10.0.0.1 |
| Router.ShortPrefixesNear | PCom1/router.c:161-165 | masks of up to 24 ones never make the comparison wrap on a little-endian host |
| Router.QsortArranges | PCom1/router.c:238-239 | sorting keeps the entries and gives the order of the comparison |
| Router.SubnetMaskIsMask | PCom1/router.c:189-193 | get_subnet_mask gives n leading ones for every n from 0 to 32 when shift counts are taken modulo 32 |
| Router.GetPrefixLength | PCom1/router.c:173-181 | the loop returns 32 less the trailing zeros of the mask in host order |
| Router.MaskFiled | PCom1/router.c:173-193 | a mask of n leading ones is filed in bucket n and is the mask the lookup uses there |
| InternetChecksum.IpChecksum | PCom1/skel.c:169-219 | for up to 2^33 bytes at any address: the byte-swapped complement of the value in 1..0xFFFF congruent modulo 65535 to the sum of the big-endian 16-bit words, zero-padded |
| InternetChecksum.FoldUnique | PCom1/skel.c:202-206 | that value is unique |
| InternetChecksum.FoldCarries | PCom1/skel.c:202-206 | folding the carries terminates with that value |
| InternetChecksum.BlockKeepsCong | PCom1/skel.c:173-199 | adding the next block of up to four bytes, placed at its offset in a 32-bit word, keeps the account of what is still to be summed |
| InternetChecksum.OddStart | PCom1/skel.c:210-214 | the final swap compensates for an odd start address |
| InternetChecksum.IcmpChecksum | PCom1/skel.c:151-166 | the complement of the sum of native words after two folding steps, a last odd byte loaded with the byte behind it; up to 2^17 bytes that is the whole folding |
| InternetChecksum.TwoFolds | PCom1/skel.c:163-164 | two folding steps fold a sum completely exactly when no carry is left behind the second one |
| InternetChecksum.LongBufferMisfolds | PCom1/skel.c:151-166 | 131074 words of ones and a word of 1: the checksum is 0xFFFF, where the complement of the folded sum is 0xFFFE |
| InternetChecksum.OddByteIsNotPadded | PCom1/skel.c:151-166 | one byte 1 in front of another: the checksum differs from that of the byte padded with zero |
| InternetChecksum.ChecksumsAgree | PCom1/skel.c:151-219 | the two checksums agree exactly when the data is not all zero and, for an odd length, the byte behind it is zero |
| InternetChecksum.TtlStepVerifies | PCom1/router.c:404-406 | a verified header with TTL at least 2 still verifies after the step exactly when its checksum field was not 0xFFFF |
| InternetChecksum.UpdateMatchesRecomputation | PCom1/router.c:289-292 | the incremental update stores what recomputation would store exactly when the old field was below 0xFFFE |
| InternetChecksum.HopsUntilWrap | PCom1/router.c:404-406 | a verified header arrives intact behind each of the next k such routers exactly when its checksum field plus k is at most 0xFFFF |
| InternetChecksum.EchoRequestBreaks | PCom1/router.c:404-406 | a concrete header that verifies, and after one hop does not |
| InternetChecksum.ForwardHeader | PCom1/router.c:393-406 | expired and corrupted headers are left alone, every other one gets the decremented TTL and the updated checksum |
| Queue.Queue.Enq | PCom1/queue.c:24-33 | the element goes to the end, after a dangling tail as well |
| Queue.Queue.Deq | PCom1/queue.c:35-43 | the first element comes out and the rest stays; the last one out leaves tail on freed memory |
| Queue.Queue.Top | PCom1/queue.c:45-51 | the first element |
| Queue.Queue.IsEmpty | PCom1/queue.c:19-22 | empty exactly when nothing is inside |
| Queue.Play | PCom1/queue.c:12-51 | over any run of enqueues and guarded dequeues, what came out and what is inside are those of a list that grows at its end and loses its first element at each dequeue; no freed cell is read or written |
| Queue.FirstInFirstOut | PCom1/queue.c:12-51 | on that list, what came out followed by what is inside is what went in |
| Queue.CdrAndFree | PCom1/list.c:12-17 | the rest of the list; the cell is no longer live |
| PubSubProofs.Delivery | PCom2/server.cpp:266-451 | over every safe run, for each client: packets sent followed by packets queued are, in order and once each, those published while it was subscribed and connected or with SF on; each was sent on the descriptor the client had then; a connected client has an empty queue |
| PubSubProofs.SurvivesExactlySafeRuns | PCom2/server.cpp:266-451 | when no client has the empty ID, the server survives exactly the runs in which no message arrives on a descriptor erased under its client |
| PubSubProofs.AloneIsSafe | PCom2/server.cpp:358-366 | a run in which every reconnection finds its old descriptor free is safe |
| PubSubProofs.DispatchedThenPending | PCom2/server.cpp:48-102 | told from the events: what was sent followed by what is pending is what is owed |
| PubSubProofs.SafeRunsKeepInv | PCom2/server.cpp:266-451 | over every safe run no null client is followed, and descriptors, subscriptions, queues and logs are those the events tell |
| PubSubProofs.StepKeepsInv | PCom2/server.cpp:266-451 | one event keeps that invariant |
| PubSubProofs.SfLosesNothing | PCom2/server.cpp:316-323 | while a subscription with SF lasts, its client is owed every packet published on the topic |
| PubSubProofs.SfDeliversAll | PCom2/server.cpp:48-70 | when that client is connected again, all of them have been sent to it, in order |
| PubSubProofs.SfLookupInsertsNothing | PCom2/server.cpp:92-94 | a topic lists a client exactly when the client has the topic, so the lookup at a publication adds no key |
| PubSubProofs.DescriptorsAreDistinct | PCom2/server.cpp:342-373 | no two clients are connected on one descriptor, and each descriptor leads back to its client unless its entry was erased |
| PubSubProofs.AnswersFromEvents | PCom2/server.cpp:407-443 | a request is refused exactly when it would change nothing, told from the events, and then changes nothing |
| PubSubProofs.ReconnectNeedsOldFdFree | PCom2/server.cpp:358-366 | a reconnection keeps every connected client reachable through its descriptor exactly when nobody is connected on the one it used last |
| PubSubProofs.StolenDescriptorCrashes | PCom2/server.cpp:358-366 | after a reconnection that erased a descriptor in use, the next message on it makes the server follow a null client |
| PubSubProofs.ReusedDescriptorCrashes | PCom2/server.cpp:358-409 | connect, close, connect another on the same descriptor, reconnect, subscribe: the server fails |
| PubSubServer.Serve | PCom2/server.cpp:266-451 | the event loop over the objects ends in the state of the run, or stops where the run follows a null client |
| PubSubServer.Server.OnConnect | PCom2/server.cpp:342-373 | the connection branch is the step of the state machine, with its answer |
| PubSubServer.Server.OnClose | PCom2/server.cpp:389-399 | the close branch is the step |
| PubSubServer.Server.OnSubscribe | PCom2/server.cpp:407-425 | the subscribe branch is the step, with its answer |
| PubSubServer.Server.OnUnsubscribe | PCom2/server.cpp:426-443 | the unsubscribe branch is the step, with its answer |
| PubSubServer.Server.OnPublish | PCom2/server.cpp:314-323 | the publish branch is the step, in whatever order the set of subscribers is visited |
| PubSubServer.Client.Reconnect | PCom2/server.cpp:53-70 | everything queued is sent, in order, on the new descriptor |
| PubSubServer.Client.TopicHasSf | PCom2/server.cpp:92-94 | the inserting lookup |
| PubSubServer.Client.StorePacket | PCom2/server.cpp:97-102 | the packet goes to the end of the queue |
| Wire.RebuildsPacked | PCom2/subscriber.cpp:16-32 | rebuilding what was packed recovers address, port and type, the topic up to its NUL or fifty bytes and the counted content, with zeros behind; at most 1557 bytes travel |
| Wire.RebuiltPacksAlike | PCom2/subscriber.cpp:16-32 | a rebuilt packet travels as the same sizes and bytes |
| Wire.PackedTellsApart | PCom2/server.cpp:114-146 | two packets travel alike exactly when the same packet is rebuilt from both |
| Wire.PrintedSurvives | PCom2/subscriber.cpp:16-94 | the sign, number, power of ten or text a subscriber prints, and the topic, are the same in the rebuilt packet as in the published one |
| Wire.PrintsWhatWasPublished | PCom2/subscriber.cpp:35-94 | a content written as sign, number in network order and power of ten, or as text and a NUL, is printed as that value |
| Wire.SendPacket | PCom2/server.cpp:114-154 | the sizes and the buffer are those of the packed form, every copy inside the 1560 bytes |
| Wire.Measure | PCom2/server.cpp:116-129 | topic and content sizes, although strlen may run past a full field into the next |
| Wire.RebuildPacket | PCom2/subscriber.cpp:16-32 | the copies at a moving offset build the packet the theorems are about |
| Subscriber.OwedArrives | PCom2/server.cpp:48-154 | over every safe run in which messages of a known type are published, a connected client that reads what was sent to it rebuilds exactly the packets it is owed, in order and once each |
| Subscriber.StreamReceived | PCom2/subscriber.cpp:233-257 | from the announcements and packed bytes of any packets, back to back, the subscriber rebuilds them all, in order |
| Subscriber.ArrivedFields | PCom2/subscriber.cpp:16-32 | a rebuilt packet has topic, address, port, type and printed value of the one that was published |
| Subscriber.SizesLoad | PCom2/subscriber.cpp:247-248 | the sizes loaded from the payload of an announcement are those that were stored |
| Subscriber.ReceivePackets | PCom2/subscriber.cpp:233-257 | the receiving loop computes that |
| Receive.CutsDoNotMatter | PCom3/helpers.c:73-126 | when the header announces the length, any two ways of cutting the stream into reads give the same first header and body bytes, and the same result when the stream ends there |
| Receive.AnnouncedResponse | PCom3/helpers.c:73-126 | header and announced body come back whole as far as they were sent, whatever stands behind the buffer |
| Receive.DeclaredBodyComesBack | PCom3/helpers.c:73-126 | when the header announces m in decimal digits, m below 2^31, header and m bytes of body come back for every cut, as far as they were sent |
| Receive.StrtolReads | PCom3/helpers.c:104-105 | behind white space and an optional sign, decimal digits of m in front of no further digit read as m, or as the nearest long |
| Receive.FieldFound | PCom3/buffer.c:64-85 | the field found is the first place that spells Content-Length, colon and space in letters of either case |
| Receive.HeaderEndFound | PCom3/helpers.c:93-96 | the header ends at the first empty line |
| Receive.ResponseIsPrefix | PCom3/helpers.c:73-126 | for every stream and cut, the result is a prefix of the stream and a NUL |
| Receive.UnannouncedComesWhole | PCom3/helpers.c:80-126 | when the header does not announce the length, the stream comes back whole for every cut exactly when it holds no terminator or no field, or ends with the later of the two |
| Receive.SinglesCutShort | PCom3/helpers.c:80-126 | read byte by byte, such a stream is cut where terminator and field have both come in |
| Receive.NoFieldReadsAll | PCom3/helpers.c:80-126 | without the field the whole stream is returned |
| Receive.FieldInBodyCutsShort | PCom3/helpers.c:93-106 | an answer with a status line whose body holds the text of the field: complete from one read, cut short from two |
| Receive.FindIsStable | PCom3/buffer.c:41-62 | the first occurrence stays the first when bytes are appended |
| Receive.StrtolAgrees | PCom3/helpers.c:104-105 | the number is read from the header alone |
| Receive.ReceiveFromServer | PCom3/helpers.c:73-126 | the two read loops compute the result the theorems are about |
| Receive.Buffer.Add | PCom3/buffer.c:28-39 | the data grows by the chunk |
| Receive.Buffer.Find | PCom3/buffer.c:41-62 | the first occurrence, or -1 |
| Receive.Buffer.FindInsensitive | PCom3/buffer.c:64-85 | the first occurrence up to the case of letters, or -1 |

## Left out

- JsonTheorems.PrintThenParse: trees with numbers other than integers up to 2^53, because what `%1.17g` and strtod do to fractions is floating-point rounding.
- JsonEquality.EqualsIsSameMeaning: numbers other than integers; the epsilon makes the comparison of fractions not transitive, so no meaning fits it.
- JsonEquality.ValueEquals: the comparison of two numbers is a parameter, since differences of doubles are rounded.
- Router.Qsort: stands for the library's qsort, whose order of equal prefixes is not specified; the theorems hold for every arrangement the comparison accepts.
- Router.Rtable.ParseRtable: sorted by entry_compare means in unsigned order only for prefixes less than 2^31 apart; it takes the parsed lines: reading the file, the capacity doubling of the buckets and overflow of the line buffers are not modelled.
- Wire.Measure: data types above 3, for which the code leaves the content size uninitialized.
- Wire.SendPacket: data types above 3, for which the code sends an uninitialized size; the two send calls carry the sizes and bytes as values.
- Receive.ReceiveFromServer: responses of 2^31 bytes and more, where the positions no longer fit an int.
- Receive.DeclaredBodyComesBack: lengths of 2^31 and more, which the code truncates to an int.
- Receive.CutsDoNotMatter: speaks of responses whose header announces the length; for all others Receive.UnannouncedComesWhole says when the cuts matter.
- JsonParser.ParseObjectLoop: the parser's objects and arrays are sequences that grow; their arrays, doubling and final trimming are those of ObjectTable.
- JsonParser.AddMember: the growth of the arrays is that of ObjectTable.
- JsonHeap.SetValue: the freeing of the value that is overwritten.
- JsonHeap.Node.AddItem: the capacity of the item array and its doubling.
- PubSubProofs.StolenDescriptorCrashes: states in which a client has registered with the empty ID, where the erased entry leads to that client instead of to none.
- JsonHeap.DeepCopy: string bytes are values, so copying their storage is not modelled; nor is freeing, so a node that was overwritten stays in the footprint of its object.
- Allocation failures and the pluggable allocator of parson.
- json_validate, json_object_dotremove and the append, replace and typed getter wrappers around the operations modelled here.
- Sockets, select, signals, terminal and file input and output of all three programs; failed sends and receives, which end the programs.
- TCP reads that return part of a message in the broker, first messages that are not an ID, and its exit command.
- The ARP table, the flush of waiting packets after an ARP reply, and the building of ICMP, ARP and Ethernet packets.
- PCom3/client.c and PCom3/requests.c: a command loop and the concatenation of header lines.
- Subscriber.ReceivePackets: confirmations of the client's own requests among the packets, and announcements of more bytes than the subscriber's buffer holds, which the broker never sends.
- The formatting of printed values in the subscriber: the divisions by 100 and by powers of ten, which are in floating point.
