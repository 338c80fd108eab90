# A verified model of three parts of ModbusThings

The model covers the JSON engine (`src/deps/cJson/src/cJSON.c`), the asynchronous log buffer
(`src/utils/src/MBT_log.c`) and the bounded message queue (`src/utils/src/MBT_queue.c`).

## The JSON engine

Bytes, C strings, UTF-8 and the escape codec are in `Bytes`, `Utf8` and `StringCodec`; `Utf8Bits` is the
table of RFC 3629 bit by bit; numbers are in `NumberCodec`. `JsonTree` is the value a tree of nodes
stands for. `Printer`, `Parser` and `Minifier` are the text of a value, the grammar the parser follows
and the minified text, as functions. `RoundTrip`, `MinifyMeaning` and `PrettyCompact` relate them for all
inputs, and `MinifyBounds` says for which texts the minifier stays inside its buffer.

Other modules say what these functions do in terms of their own. `Grammar` is the concrete syntax of JSON
texts with their meaning, written down without the parser: the eight short escapes, the hexadecimal
digits, the value of a number. `AcceptedTexts` and `ParseSound` show that the parser accepts exactly the
texts of a lax form of it; `Rfc8259` is the strict form, of which every text is accepted.
`PrintsStandard` shows that the printer writes texts of RFC 8259, with the shortest spelling of every
string, and `PrintLayout` where its whitespace is. `MinifyStandard` says what minifying does to a text
with whitespace and comments.

The imperative side works on arrays and on nodes with `next`, `prev` and `child`: `PrintBuffer` (ensure,
update_offset and the printing functions), `StringReader` and `ParseBuffer` (the parser), `NodeValues`
(what nodes stand for), `MinifyBuffer`, `Nodes` (editing of sibling lists), `Trees` (a heap with a ledger
of live blocks, and deletion), `Duplicate` and `CompareNodes`. Every method is proved against the
functions above; what `CompareNodes` decides is studied in `Compare`, and said of values in
`CompareValues`. An allocation may fail at any call: it is a non-deterministic choice, and `refused`
records it. `Engine` composes them: what the printer leaves in its block is parsed, a copy is printed,
and what the minifier leaves in its buffer is parsed.

A tree of nodes is described by a `Shape` (which blocks there are and who owns them) and an `Image` (what
they say). `ImageFor` is what the nodes of a new tree for a value must say, field by field. Values are
exact: a number is the `real` that `valuedouble` approximates.

## The log buffer

`LogRing` is the arithmetic of the circular buffer, `LogAccounting` the lost-line markers and
`LogCadence` the polling interval. `LogBuffer` is the buffer as a class, one call at a time; pushes of
other threads between the two halves of a write round are a parameter. `LogSystem` is the interleaved
system: any number of producers that take the mutex and one consumer that does not; each step is one read
or write of a shared position or one byte of a copy, and theorems are about all sequences of steps;
`LogReach` says what a push does from the lock to the release and builds an interleaving that meets the
bound on postponed polls, `LogStream` is the stream of bytes as its reader finds it, and `LogDrain` the
writing thread left to itself. The size of the buffer is any number from ten on, so that a tenth of it is
at least one; the code uses 10240.

## The queue

`Queue` is the linked list with its two ends and its count; `Drive` takes it through any sequence of
operations. The callback of a drain is any function from the number of the call, the message and the room
left to bytes or a refusal.

## What the proofs show about the code

- A `\u` escape with characters that are not hexadecimal digits is not rejected: it reads as 0, the string
  is accepted if what is behind the escape would be, and the parsed text ends at the escape
  (`Parser.ReadsAsTextAlone`, `Parser.SingleEscape`, `Parser.TextEndsAtEscape`). Such an escape can also
  split a later one; the estimate of the first pass still holds (`StringCodec.DecodeFits`).
- The parser takes more than RFC 8259 has: every byte up to the space is a blank, strings may hold control
  characters, numbers may have leading zeros or no digits on one side of the point. What it takes is said
  exactly by `ParseSound.AcceptedIff`.
- A text of RFC 8259 is rejected exactly for a nesting of more than 1000, a number of more than 63 bytes or
  a surrogate that stands alone; otherwise it is read as what it means (`Rfc8259.TextAccepted`).
- `cJSON_Minify` takes the slash right behind the start mark of a block comment for its end, so `/*/` is a
  whole comment (`MinifyStandard.ShortestComment`).
- `cJSON_PrintPreallocated` needs room for the text and two more bytes, or one more for a bare number; the
  five spare bytes of its documentation are more than enough (`PrintBuffers.PrintPreallocated`).
- When the last `realloc` of a print is refused, the buffer is neither handed out nor freed; everywhere
  else a failed print leaves the live blocks as they were (`PrintBuffers.HandOver`, `PrintBuffers.Print`).
- `cJSON_Compare` is not reflexive on copies: with a key that comes twice and two different values a
  tree differs from its own copy. It is reflexive exactly on coherent trees
  (`Comparison.SameReflexive`). Two trees that share nodes compare like trees that do not, if one of them
  is coherent (`NodeComparison.CoherentIsConsistent`).
- `cJSON_Minify` reads past the terminator exactly when the text ends inside a string or a block comment
  (`MinifyBounds.StaysIffClosed`). It never does for a text that the parser accepts up to its terminator
  (`MinifyMeaning.MinifyKeepsMeaning`).
- The bound of 199 postponed polls is met by some interleaving for every buffer of at least 20 bytes
  (`LogReach.DeferralReached`); below 20 no poll is ever postponed (`LogReach.NeverDeferred`).

## Model

| member | source | states |
|---|---|---|
| Engine.PrintThenParse | src/deps/cJson/src/cJSON.c:940-1087 | Printing nodes into a block and parsing that block gives exactly the nodes of the same value; with memory available it fails for a nesting above 1000 and for nothing else; the ledger ends with the printed block and the nodes, or with the block a failed print keeps |
| Engine.DuplicateThenPrint | src/deps/cJson/src/cJSON.c:2320-2397 | A deep copy stands for the tree of the original and prints to its text in either format; the ledger grows by the copy and the printed block |
| Engine.MinifyThenParse | src/deps/cJson/src/cJSON.c:2399-2467 | A text accepted up to its terminator still becomes exactly the nodes of the same value after it has been minified in its own buffer |
| Engine.ParseThenPrint | src/deps/cJson/src/cJSON.c:940-1087 | Whatever the layout of a text, the nodes it is parsed into print to the text of its value, in either format, when its numbers are plain integers |
| Engine.CompareTexts | src/deps/cJson/src/cJSON.c:2569-2692 | The trees of two parsed texts can be compared, case-sensitively too, and compare equal exactly when their values are alike: equal leaves, arrays in order, members by name in any order |
| Engine.ParseStandard | src/deps/cJson/src/cJSON.c:940-1017 | A text of RFC 8259 becomes exactly the nodes of its meaning; with memory available it fails if and only if it is nested more than 1000 deep, has a number of more than 63 bytes or a surrogate that stands alone |
| ParseSound.AcceptedIff | src/deps/cJson/src/cJSON.c:940-1017 | A C string is accepted up to its terminator, with the value v, if and only if it is a lax text that means v, with blanks around it, nested at most 1000 deep, with numbers of at most 63 bytes and no surrogate alone |
| ParseSound.ValueSound | src/deps/cJson/src/cJSON.c:1150-1203 | Whatever parse_value takes is spelled by a lax text that means the result |
| ParseSound.StringSound | src/deps/cJson/src/cJSON.c:654-780 | Whatever parse_string takes is a sequence of characters, short escapes, escapes and pairs between its quotes that means the result |
| ParseSound.NumberSound | src/deps/cJson/src/cJSON.c:219-296 | Whatever parse_number takes is a sign, digits, a point, digits and an exponent, with their exact value |
| AcceptedTexts.PrefixAccepted | src/deps/cJson/src/cJSON.c:964-980 | With anything behind a text: without the demand for the terminator the text is accepted and the rest left alone; with it, exactly when only blanks follow |
| Rfc8259.TextAccepted | src/deps/cJson/src/cJSON.c:940-1546 | For every text of the grammar of RFC 8259, with any whitespace, escapes, fractions and exponents: it is accepted, with its meaning, if and only if the nesting is at most 1000, every number has at most 63 bytes and no surrogate stands alone |
| Rfc8259.FormedIsLax | src/deps/cJson/src/cJSON.c:1150-1546 | Every text of RFC 8259 is one of the lax texts |
| AcceptedTexts.EightEscapes | src/deps/cJson/src/cJSON.c:716-755 | The decoder knows the eight two-character escapes, each for its character, and no other letter |
| AcceptedTexts.ValueParses | src/deps/cJson/src/cJSON.c:1150-1203 | A lax text at any depth, in front of anything a number cannot run on into, is read as what it means if and only if it is regular and not nested too deeply; a number that is too long leaves some of its bytes |
| AcceptedTexts.ElementsParse | src/deps/cJson/src/cJSON.c:1284-1375 | The same for the elements of an array up to its bracket |
| AcceptedTexts.FieldsParse | src/deps/cJson/src/cJSON.c:1440-1546 | The same for the members of an object up to its brace |
| AcceptedTexts.StringParses | src/deps/cJson/src/cJSON.c:654-780 | A string is read as the UTF-8 of its characters, up to a null character, if and only if no surrogate stands alone |
| AcceptedTexts.DecodeChars | src/deps/cJson/src/cJSON.c:700-758 | The decoder gives the meaning of any sequence of plain characters, the eight short escapes, escapes of code units in either case, pairs and malformed escapes, and stops at a surrogate that stands alone |
| AcceptedTexts.StrtodReads | src/deps/cJson/src/cJSON.c:219-296 | A number, with fraction and exponent, is converted to its end and to its exact value |
| AcceptedTexts.NumberParses | src/deps/cJson/src/cJSON.c:219-296 | parse_number takes such a number if it has at most 63 bytes, and otherwise leaves some of it |
| PrintsStandard.PrintedIsStandard | src/deps/cJson/src/cJSON.c:1206-1281 | Everything that is printed, formatted or not, is a text of RFC 8259 whose meaning is the value that was printed |
| PrintsStandard.ValueStands | src/deps/cJson/src/cJSON.c:1206-1281 | The same for a value at any depth |
| PrintsStandard.CharsForIs | src/deps/cJson/src/cJSON.c:783-902 | An escaped string is a string of the grammar that means the string |
| PrintsStandard.NumForIs | src/deps/cJson/src/cJSON.c:430-493 | The digits of a plain integer are a number of the grammar, without a leading zero, with its value |
| PrintsStandard.ShortestSpelling | src/deps/cJson/src/cJSON.c:783-902 | No spelling of a string by characters and escapes is shorter than the one that is printed |
| PrintLayout.PrintsInLayout | src/deps/cJson/src/cJSON.c:1206-1660 | A reader that knows which brackets are open finds every blank of a formatted print in its place: a line for each member with one tab for each open bracket, a tab behind a colon, a space behind a comma in an array, a line of its own for a closing brace, and no others; in an unformatted print there is none |
| PrintLayout.LeadsValue | src/deps/cJson/src/cJSON.c:1206-1281 | The same for a value at any depth |
| RoundTrip.TextRoundTrip | src/deps/cJson/src/cJSON.c:1150-1660 | For every printable tree, in both formats and with or without the terminator required: nesting of at most 1000 reads back as the same ordered tree, a deeper one is rejected |
| RoundTrip.ValueReadsBack | src/deps/cJson/src/cJSON.c:1150-1660 | The same for a value at any depth, at any indentation and in front of any text that cannot extend a number |
| RoundTrip.KeyReadsBack | src/deps/cJson/src/cJSON.c:1496-1515 | A printed key and its colon are read back as the key, whatever blanks stand in front |
| RoundTrip.TextPrintable | src/deps/cJson/src/cJSON.c:654-780 | Strings and names that were parsed are C strings, so a parsed tree of plain integers can be printed |
| PrettyCompact.PrettyMinifiesToCompact | src/deps/cJson/src/cJSON.c:2399-2467 | Minifying the formatted text of any printable tree gives exactly its unformatted text |
| PrettyCompact.MinifyValue | src/deps/cJson/src/cJSON.c:1206-1281 | The same for a value at any two depths and in front of any text |
| MinifyMeaning.MinifyKeepsMeaning | src/deps/cJson/src/cJSON.c:2399-2467 | Every text accepted with a null terminator required ends outside strings and comments, is minified inside its buffer, and the result is accepted and stands for the same tree |
| MinifyMeaning.MinifiedValue | src/deps/cJson/src/cJSON.c:1150-1203 | One value that is accepted: parsing the minified text gives the same value and the minified rest |
| MinifyMeaning.ValueRest | src/deps/cJson/src/cJSON.c:1150-1203 | A value that is accepted never takes the terminator with it |
| Minifier.MinifyTerminated | src/deps/cJson/src/cJSON.c:2399-2467 | Minifying gives a C string with its terminator at the end, not longer than the text |
| MinifyStandard.CommentsRemoved | src/deps/cJson/src/cJSON.c:2399-2467 | A text of RFC 8259 with whitespace and both kinds of comments anywhere between its tokens is minified to the same text with nothing between them |
| MinifyStandard.CommentedParses | src/deps/cJson/src/cJSON.c:2399-2467 | So a commented text is accepted once it has been minified, with the meaning it has without its comments |
| MinifyStandard.SqueezedMeans | src/deps/cJson/src/cJSON.c:2399-2467 | Taking out the whitespace does not change what a text means |
| MinifyStandard.BlanksDropped | src/deps/cJson/src/cJSON.c:2410-2426 | The blanks that are dropped are the four of RFC 8259 |
| MinifyStandard.ShortestComment | src/deps/cJson/src/cJSON.c:2435-2443 | A slash right behind the start mark ends the comment |
| MinifyBounds.StaysIffClosed | src/deps/cJson/src/cJSON.c:2399-2467 | For every buffer: the loop stays inside it if and only if a left-to-right automaton over code, strings and comments is in no string and no block comment at the first terminator |
| MinifyBounds.UnclosedStringReadsOn | src/deps/cJson/src/cJSON.c:2444-2457 | Behind any text that leaves the loop outside strings and comments, a string that does not end makes it read past the terminator |
| MinifyBounds.UnclosedCommentReadsOn | src/deps/cJson/src/cJSON.c:2435-2443 | A block comment that does not end does the same |
| Minifier.SkipMinified | src/deps/cJson/src/cJSON.c:919-937 | Minifying commutes with skipping the blanks in front of anything but a comment |
| MinifyBuffer.MinifyInPlace | src/deps/cJson/src/cJSON.c:2399-2467 | For every text that ends outside strings and block comments, the loop over one buffer leaves the minified text and its terminator at the front and the rest of the buffer as it was |
| MinifyBuffer.CopyTokenAt | src/deps/cJson/src/cJSON.c:2444-2462 | One turn that copies: json advances, into does not pass it, and what is left to minify is the same |
| MinifyBuffer.CopyStringAt | src/deps/cJson/src/cJSON.c:2444-2457 | A string is copied with its escapes up to the closing quote, and into never passes json |
| MinifyBuffer.SkipCommentAt | src/deps/cJson/src/cJSON.c:2435-2443 | A block comment is skipped up to its end marker without writing |
| MinifyBuffer.SkipLineAt | src/deps/cJson/src/cJSON.c:2427-2434 | A line comment is skipped up to the end of the line or of the text |
| StringCodec.EscapedLength | src/deps/cJson/src/cJSON.c:783-902 | The quoted text of a string has the length of the string plus the counted escape characters plus two quotes |
| StringCodec.DecodeEscape | src/deps/cJson/src/cJSON.c:654-780 | Decoding the escaped form of any string without terminators gives back the string |
| StringCodec.ScanEscape | src/deps/cJson/src/cJSON.c:667-689 | The search for the closing quote stops exactly at the end of the escaped form |
| StringCodec.DecodeFits | src/deps/cJson/src/cJSON.c:654-780 | For every body the first pass accepts, malformed escapes that split a later one included, the second pass writes at most the bytes the first one counted |
| StringCodec.PairedFits | src/deps/cJson/src/cJSON.c:533-651 | The bound behind it, for a body whose backslashes all start escapes |
| StringCodec.SplitFits | src/deps/cJson/src/cJSON.c:533-651 | The bound for a body that a malformed unicode escape has cut in the middle of an escape |
| StringCodec.EscapesDecodeToUtf8 | src/deps/cJson/src/cJSON.c:533-651 | Any sequence of scalar values spelled as escapes or surrogate pairs decodes to the concatenated encodings of section 3 of RFC 3629, which decode back to the sequence |
| StringCodec.LoneSurrogateRejected | src/deps/cJson/src/cJSON.c:533-651 | Any sequence of code units spelled as escapes is accepted if and only if every high surrogate is followed by a low one and no low one stands alone; then it gives the encodings of its code points, all scalar values |
| StringCodec.EscapeStops | src/deps/cJson/src/cJSON.c:549-584 | A well-formed escape in front of anything is refused exactly when it is for a low surrogate, or for a high one without a low one right behind |
| StringCodec.MalformedEscapeReadsAsNul | src/deps/cJson/src/cJSON.c:496-529 | Four characters that are not hexadecimal digits read as 0, so the decoder writes a terminator where the escape stands |
| Parser.TextEndsAtEscape | src/deps/cJson/src/cJSON.c:654-780 | Where the second pass comes to such an escape, the parsed text is cut; the string is accepted if and only if the rest of the body can be decoded |
| Parser.ReadsAsTextAlone | src/deps/cJson/src/cJSON.c:654-780 | Any escaped text with such an escape behind it is accepted if and only if what follows the escape would be accepted as a string, and then reads as that text alone |
| Parser.SingleEscape | src/deps/cJson/src/cJSON.c:654-780 | Any escaped text with one escape behind it is rejected if and only if the escape is one for a surrogate; otherwise the code point is appended |
| Parser.NothingBehindEscape | src/deps/cJson/src/cJSON.c:654-780 | Whatever four bytes stand in the malformed escape, quotes and backslashes too: if the string is accepted, it reads as the text in front |
| StringCodec.JoinSplit | src/deps/cJson/src/cJSON.c:586-588 | Joining the two halves of a supplementary code point gives the code point |
| StringCodec.UnitReads | src/deps/cJson/src/cJSON.c:496-529 | Four bytes are taken for the code unit u exactly when they are its digits, from two written-out tables, in any mix of cases |
| Utf8Bits.EncodingTable | src/deps/cJson/src/cJSON.c:593-646 | The encoding of a scalar value is, bit by bit, its row of the table in section 3 of RFC 3629 with its binary digits for the x |
| Utf8.DecodeFirstEncode | src/deps/cJson/src/cJSON.c:593-646 | The encoding of a scalar value, followed by anything, decodes to the value and its length |
| Utf8.DecodeAllEncodeAll | src/deps/cJson/src/cJSON.c:593-646 | Encoding and decoding a sequence of scalar values gives the sequence |
| StringReader.ParseHex4 | src/deps/cJson/src/cJSON.c:496-529 | The loop computes the value of the four digits, or 0; `StringCodec.UnitReads` says which digits have which value |
| StringReader.StoreUtf8 | src/deps/cJson/src/cJSON.c:593-646 | The encoding of the code point is written at the position, and nothing in front of it or behind it changes |
| StringReader.EncodeBackwards | src/deps/cJson/src/cJSON.c:606-646 | The backward loop over the continuation bytes, with its marks, gives the encoding |
| StringReader.Utf16CodePoint | src/deps/cJson/src/cJSON.c:541-591 | The checks of one escape or pair: refused exactly when the decoder refuses, else the code point and the length consumed |
| StringReader.Utf16LiteralToUtf8 | src/deps/cJson/src/cJSON.c:533-651 | One escape or surrogate pair: the length consumed and the bytes written are those of the decoder, 0 when it is refused; the rest of the output is unchanged |
| StringReader.ScanString | src/deps/cJson/src/cJSON.c:667-689 | The first pass finds the closing quote exactly when there is one and counts one byte for each escape |
| StringReader.DecodeTurn | src/deps/cJson/src/cJSON.c:702-755 | One turn of the second pass, with its seven escapes, is one step of the decoder |
| StringReader.DecodeInto | src/deps/cJson/src/cJSON.c:700-758 | The second pass writes the decoded bytes, or stops at the offending escape |
| NumberCodec.ParseDecimal | src/deps/cJson/src/cJSON.c:219-296 | The digits printed for an integer below 10^15 in magnitude read back as that integer, and as all of them |
| NumberCodec.FifteenDigits | src/deps/cJson/src/cJSON.c:430-493 | Such an integer has at most fifteen digits, so it fits the copy buffer |
| Parser.ParseValue | src/deps/cJson/src/cJSON.c:1150-1203 | The grammar: success leaves strictly less input, failure never more, so the mutual recursion ends |
| Parser.ParseArray | src/deps/cJson/src/cJSON.c:1284-1375 | The same for arrays |
| Parser.ParseObject | src/deps/cJson/src/cJSON.c:1440-1546 | The same for objects |
| Parser.SkipWhitespace | src/deps/cJson/src/cJSON.c:919-937 | Skipping never consumes the last byte, the terminator |
| ParseBuffers.ParseWithOpts | src/deps/cJson/src/cJSON.c:940-1017 | The nodes are exactly those of the value the grammar gives, field by field, and in no list; null leaves the live blocks as they were and the error position inside the input; success adds exactly the nodes and strings of the tree |
| NodeValues.ImageForStands | src/deps/cJson/src/cJSON.c:1150-1203 | The image that is built for a value stands for that value and has known kinds only |
| NodeValues.ExactArray | src/deps/cJson/src/cJSON.c:1358-1366 | A list of exact elements without names makes an exact array |
| NodeValues.ExactObject | src/deps/cJson/src/cJSON.c:1530-1538 | A list of exact members, each with a name, makes an exact object |
| Trees.AllOwned | src/deps/cJson/src/cJSON.c:170-191 | A tree without references and constant names owns every node and every string of it |
| ParseBuffers.ParseRoot | src/deps/cJson/src/cJSON.c:970-987 | The part behind the allocation of the root, with the check for the terminator: exactly the nodes of the value |
| ParseBuffers.ParseAndDelete | src/deps/cJson/src/cJSON.c:170-191 | Parsing and deleting leaves the live blocks as they were, whatever the text and the allocator do |
| ParseBuffers.ParseBuffer.SkipBlanks | src/deps/cJson/src/cJSON.c:919-937 | The offset ends where the grammar says and inside the input, with the step back at the terminator |
| ParseBuffers.ParseBuffer.ParseValue | src/deps/cJson/src/cJSON.c:1150-1203 | Refines the grammar on nodes: on success the node is exactly that of the value, the offset strictly advances and the depth is restored; on failure the node has got nothing; the ledger grows by what the node has got |
| ParseBuffers.ParseBuffer.ParseString | src/deps/cJson/src/cJSON.c:654-780 | Refines the grammar, with the allocation the estimate asks for; a failure frees the output |
| ParseBuffers.ParseBuffer.DecodeBody | src/deps/cJson/src/cJSON.c:691-779 | The output has room for the decoded bytes and their terminator |
| ParseBuffers.ParseBuffer.ParseNumber | src/deps/cJson/src/cJSON.c:219-296 | The copy loop takes the bytes a number can have, and the offset moves past the ones that were converted |
| ParseBuffers.ParseBuffer.NumberBytes | src/deps/cJson/src/cJSON.c:232-262 | The copy is the longest run of number bytes that fits the buffer |
| ParseBuffers.ParseBuffer.ParseArray | src/deps/cJson/src/cJSON.c:1284-1375 | Refines the grammar, exactly the nodes of the elements; a failure frees the elements that were read |
| ParseBuffers.ParseBuffer.ParseItems | src/deps/cJson/src/cJSON.c:1316-1356 | The loop reads the elements up to the closing bracket into a well-formed list of exactly their nodes, in order |
| ParseBuffers.ParseBuffer.ParseElement | src/deps/cJson/src/cJSON.c:1321-1349 | One turn: exactly the node of the next element becomes the last of the list |
| ParseBuffers.ParseBuffer.ParseObject | src/deps/cJson/src/cJSON.c:1440-1546 | Refines the grammar, exactly the nodes of the members; a failure frees the members that were read |
| ParseBuffers.ParseBuffer.ParseMembers | src/deps/cJson/src/cJSON.c:1470-1528 | The loop reads the members up to the closing brace into a well-formed list of exactly their nodes with their names, in order |
| ParseBuffers.ParseBuffer.ParseMember | src/deps/cJson/src/cJSON.c:1475-1521 | One turn: exactly the node of the next member, with its name, becomes the last of the list |
| ParseBuffers.ParseBuffer.ParseName | src/deps/cJson/src/cJSON.c:1496-1512 | The parsed string moves from valuestring to the name, which is there even when it is empty, and the colon follows |
| ParseBuffers.ItemsNext | src/deps/cJson/src/cJSON.c:1342-1356 | What one element and the byte behind it mean for the whole array |
| ParseBuffers.MembersNext | src/deps/cJson/src/cJSON.c:1496-1528 | What one member and the byte behind it mean for the whole object |
| PrintBuffers.PrintPreallocated | src/deps/cJson/src/cJSON.c:1130-1147 | Succeeds exactly when the length is at least the text plus one byte for a number and two otherwise; then the buffer holds the text; nothing at or past the length is written and no block is allocated or freed |
| PrintBuffers.Print | src/deps/cJson/src/cJSON.c:1027-1087 | The block holds the text and its terminator, unless memory is refused or the text is too long for the size type; the ledger grows by the printed block, and on failure by nothing or, with a reallocate hook that refuses, by the one buffer that is lost |
| PrintBuffers.HandOver | src/deps/cJson/src/cJSON.c:1053-1075 | The text moves to a block of its own and the buffer is gone, or the allocation is refused; then the buffer is freed without a reallocate hook and stays live with one |
| PrintBuffers.PrintBuffered | src/deps/cJson/src/cJSON.c:1100-1128 | The same text from a first buffer of any size; the ledger grows by the printed block, and by nothing on failure |
| PrintBuffers.PrintBuffer.Ensure | src/deps/cJson/src/cJSON.c:329-414 | What has been written is kept when the buffer grows, and a fixed buffer is refused exactly when it is too short; the print owns one live block, or none once memory was refused |
| PrintBuffers.PrintBuffer.Grow | src/deps/cJson/src/cJSON.c:380-413 | With realloc or with the manual copy the new block holds what was written and replaces the old one; a refusal frees the old one |
| PrintBuffers.PrintBuffer.UpdateOffset | src/deps/cJson/src/cJSON.c:417-427 | The offset moves to the terminator behind what was written |
| PrintBuffers.PrintBuffer.PrintValue | src/deps/cJson/src/cJSON.c:1206-1281 | For nodes that stand for a value, the buffer holds the text so far followed by the text of the value, or that does not fit or memory was refused |
| NodeValues.ItemsStep | src/deps/cJson/src/cJSON.c:1399-1424 | The node at an index of a list stands for the value at that index, and next leads to the one for the rest |
| NodeValues.MembersStep | src/deps/cJson/src/cJSON.c:1577-1637 | The same for members and their names |
| PrintBuffers.PrintBuffer.PrintStringPtr | src/deps/cJson/src/cJSON.c:783-902 | The string of a node is written quoted and escaped; a missing one is written as two quotes |
| PrintBuffers.PrintBuffer.PrintString | src/deps/cJson/src/cJSON.c:783-902 | The quoted and escaped string is written behind the text so far |
| PrintBuffers.PrintBuffer.EscapeInto | src/deps/cJson/src/cJSON.c:853-899 | The escaping loop writes exactly the escaped string, byte for byte |
| PrintBuffers.PrintBuffer.PrintNumber | src/deps/cJson/src/cJSON.c:430-493 | The decimal digits of an integer are written with their terminator |
| PrintBuffers.PrintBuffer.PrintArray | src/deps/cJson/src/cJSON.c:1378-1437 | Brackets, elements and separators are written in order |
| PrintBuffers.PrintBuffer.PrintObject | src/deps/cJson/src/cJSON.c:1549-1660 | Braces, indented keys, values and separators are written in order |
| PrintBuffers.CountEscapes | src/deps/cJson/src/cJSON.c:810-834 | The counting loop gives the escape characters of the string |
| Printer.ValueTextNulFree | src/deps/cJson/src/cJSON.c:1206-1281 | The text of a printable value has no terminator in it, so strlen measures all of it |
| Nodes.AddItemToArray | src/deps/cJson/src/cJSON.c:1788-1813 | The list with the item behind its last one, well formed; null arguments change nothing |
| Nodes.GetArrayItem | src/deps/cJson/src/cJSON.c:1686-1703 | The item at the index, or null |
| Nodes.DetachItemViaPointer | src/deps/cJson/src/cJSON.c:1874-1902 | The list without the item, well formed, and the item in no list |
| Nodes.DetachItemFromArray | src/deps/cJson/src/cJSON.c:1904-1912 | The same by index; a negative or too large index changes nothing |
| Nodes.InsertItemInArray | src/deps/cJson/src/cJSON.c:1944-1971 | The list with the item in front of the one at the index, or at the end; a null item behind the end changes nothing |
| Nodes.LinkInFront | src/deps/cJson/src/cJSON.c:1960-1970 | The four links of an insertion |
| Nodes.ReplaceItem | src/deps/cJson/src/cJSON.c:1985-2002 | The list with the replacement at the index of the item, and the item in no list |
| Nodes.LinkReplacement | src/deps/cJson/src/cJSON.c:1985-1999 | The links of the item and of its neighbours now lead to and from the replacement |
| Trees.ReplaceItemViaPointer | src/deps/cJson/src/cJSON.c:1973-2006 | The same, and what the item owned is freed; null arguments, or an item replaced by itself, change nothing |
| Nodes.DetachAndInsert | src/deps/cJson/src/cJSON.c:1874-1971 | Detaching an item and inserting it at its index restores every link |
| Nodes.LinkedRemoved | src/deps/cJson/src/cJSON.c:1881-1899 | When the links around an item have been joined, the rest is a doubly linked list |
| Nodes.LinkedInserted | src/deps/cJson/src/cJSON.c:1960-1970 | When the links around a new item are set, the whole is a doubly linked list |
| Nodes.LinkedReplaced | src/deps/cJson/src/cJSON.c:1985-2002 | When the links around the replacement are set, the whole is a doubly linked list |
| Trees.Delete | src/deps/cJson/src/cJSON.c:170-191 | Every block the list owns is freed, each once and while it is live, and no other block is |
| Trees.DeleteOne | src/deps/cJson/src/cJSON.c:174-189 | A reference keeps what it refers to, and a constant key is kept |
| Trees.AttachLast | src/deps/cJson/src/cJSON.c:1328-1340 | A finished tree behind the last one of a list gives a well-formed list that owns both |
| Trees.Heap.NewItem | src/deps/cJson/src/cJSON.c:158-167 | A cleared node that is live, or null and nothing changed |
| Trees.Heap.Reallocate | src/deps/cJson/src/cJSON.c:380-392 | realloc moves the bytes to a block that takes the place of the old one in the ledger; a refusal keeps the old one |
| Duplication.Duplicate | src/deps/cJson/src/cJSON.c:2320-2397 | The copy has the kinds, values, names and order of the original and marks the same names as constant; it consists of fresh blocks and of those names, has no reference and no siblings; null leaves the live blocks as they were; not recursive, it copies the node alone |
| Duplication.SharesConstantNames | src/deps/cJson/src/cJSON.c:2350-2357 | Nodes and strings of such a copy are its own blocks and the constant names of the original, and nothing else |
| Duplication.DuplicateChildren | src/deps/cJson/src/cJSON.c:2363-2386 | The loop copies the children in order into a well-formed list |
| Duplication.DuplicateNode | src/deps/cJson/src/cJSON.c:2332-2357 | The node and its two strings, or nothing |
| Duplication.StrDup | src/deps/cJson/src/cJSON.c:106-124 | The copy holds the same C string, or memory was refused |
| Comparison.SameIsEqualMeaning | src/deps/cJson/src/cJSON.c:2569-2692 | For all trees, cJSON_Compare holds exactly when both are coherent (valid kinds, members with the same key agree) and they stand for the same value with unordered objects |
| Comparison.SameSymmetric | src/deps/cJson/src/cJSON.c:2569-2692 | Symmetric on all trees |
| Comparison.SameTransitive | src/deps/cJson/src/cJSON.c:2569-2692 | Transitive on all trees |
| Comparison.SameReflexive | src/deps/cJson/src/cJSON.c:2569-2692 | A tree compares equal to a copy of itself exactly when it is coherent |
| Comparison.DistinctSame | src/deps/cJson/src/cJSON.c:2569-2692 | With distinct keys at every level, under the case rule, it is equality of unordered maps, and reflexive |
| Comparison.MembersInAnyOrder | src/deps/cJson/src/cJSON.c:2651-2687 | With distinct keys the order of the members makes no difference |
| Comparison.RepeatedKeyDiffers | src/deps/cJson/src/cJSON.c:1715-1741 | A key that comes twice with different values: the tree differs from its own copy |
| ValueComparison.SameIsAlike | src/deps/cJson/src/cJSON.c:2569-2692 | For the nodes of any two values, cJSON_Compare holds exactly when the leaves are equal, arrays agree element by element, and every member agrees with the first one of its name on the other side |
| ValueComparison.RecasedAlike | src/deps/cJson/src/cJSON.c:2569-2692 | Two values whose keys differ only in the case of letters compare equal without case, if they compare equal to themselves |
| ValueComparison.FirstRecased | src/deps/cJson/src/cJSON.c:1715-1741 | Looking up a name in another case finds the member at the same place |
| NodeComparison.Compare | src/deps/cJson/src/cJSON.c:2569-2692 | The comparison of nodes, with its loops, decides exactly the recursive definition in which a node equals itself; for trees that share no node, and for shared ones of which one is coherent, that is equality as above; null is never equal |
| NodeComparison.ConsistentIsSame | src/deps/cJson/src/cJSON.c:2589-2593 | The short cut for equal pointers makes no difference wherever nodes met twice say the same, coherent thing |
| NodeComparison.CoherentIsConsistent | src/deps/cJson/src/cJSON.c:2589-2593 | It makes none for any two well-formed trees, shared nodes or not, of which one is coherent |
| NodeComparison.DisjointIsConsistent | src/deps/cJson/src/cJSON.c:2589-2593 | It makes none for trees that share no node |
| NodeComparison.OneShape | src/deps/cJson/src/cJSON.c:2589-2593 | A node heads one tree only: two well-formed descriptions of it are the same |
| NodeComparison.CompareElements | src/deps/cJson/src/cJSON.c:2627-2649 | The loop over two element lists, and the check that neither is longer |
| NodeComparison.CompareMembers | src/deps/cJson/src/cJSON.c:2655-2668 | One of the two loops over the members, by lookup in the other object |
| NodeComparison.GetObjectItem | src/deps/cJson/src/cJSON.c:1715-1741 | The first child whose name matches, byte for byte or up to the case of the 26 letters, and null only when none does; null for a null object, too, and for nodes of any kind |
| Comparison.LookupFindsFirst | src/deps/cJson/src/cJSON.c:1715-1741 | The same of the names alone |
| NodeComparison.EqualStrings | src/deps/cJson/src/cJSON.c:74-95 | Two C strings are equal exactly when they have the same length and at every index the same byte or, without case, the two cases of a letter |
| Comparison.FoldedNames | src/deps/cJson/src/cJSON.c:74-95 | tolower makes two names the same exactly then |
| NodeComparison.EqualNames | src/deps/cJson/src/cJSON.c:74-95 | A missing name is different from every name |
| LogStream.LogIsStream | src/utils/src/MBT_log.c:169-392 | In every interleaving the bytes written, then the rest of the ring, then what the mutex holder is about to store are, byte for byte, the stream of the pushes: each accepted line behind a text with the decimal number of the ones lost since the line before |
| LogStream.OneStream | src/utils/src/MBT_log.c:354-392 | The pushes determine that stream |
| LogStream.MarkerAnnounces | src/utils/src/MBT_log.c:370-373 | The marker is the text of the code around the number of lost lines, in decimal digits without a leading zero |
| LogStream.LogAtRest | src/utils/src/MBT_log.c:169-392 | At rest with an empty ring that stream is what has been written, and lostLine the number lost since its last line |
| LogSystem.NothingLostOrReordered | src/utils/src/MBT_log.c:169-392 | In every interleaving the bytes written, then the rest of the ring, then what the mutex holder is about to store are the lines of the accepted pushes in order, with one marker for each maximal run of lost ones; the text of a marker is in `LogStream.MarkerAnnounces` |
| LogSystem.NoOverwrite | src/utils/src/MBT_log.c:169-233 | No step of any thread changes a byte between buffStart and buffEnd, and so none the unlocked consumer is going to write |
| LogSystem.SlotsInside | src/utils/src/MBT_log.c:339-351 | Every byte that is copied or written lies inside the buffer, with the positions the threads have read, however old they are |
| LogSystem.AllWritten | src/utils/src/MBT_log.c:169-233 | With nobody at work and an empty ring all lines are out, and lostLine counts the pushes lost since the last one |
| LogDrain.EverythingGetsOut | src/utils/src/MBT_log.c:169-233 | Whenever nobody pushes and the writing thread sleeps, its steps alone lead to a state in which the whole stream of the pushes is written |
| LogDrain.Poll | src/utils/src/MBT_log.c:169-233 | A whole poll, from sleep to sleep: an empty buffer sets the interval to 25 ms; less than a tenth waits while that is less than a second in all; everything else is written, the buffer is empty, and the interval follows the load |
| LogDrain.LoadSetsPace | src/utils/src/MBT_log.c:203-217 | From any of the five intervals four small loads lead to 25 ms, four of more than a quarter to 5 ms, and one of more than a third to 5 ms |
| LogSystem.BoundedDeferral | src/utils/src/MBT_log.c:169-233 | In every interleaving the interval is one of five values and at most 199 polls in a row postpone writing |
| LogSystem.OutputGrows | src/utils/src/MBT_log.c:169-233 | No step takes back a byte that was written or accepted |
| LogSystem.RunKeeps | src/utils/src/MBT_log.c:169-392 | The invariant of the interleaved system holds after any sequence of steps |
| LogSystem.StepKeeps | src/utils/src/MBT_log.c:169-392 | Every single step of a producer and of the consumer keeps it |
| LogReach.DecidesByRoom | src/utils/src/MBT_log.c:368-386 | In every interleaving the mutex holder accepts its line exactly when the marker for the lost ones and the line leave more than one byte free between the positions it has read, and goes on with the marker or the line; otherwise the line counts as lost |
| LogSystem.DecideKeeps | src/utils/src/MBT_log.c:368-383 | That step keeps the invariant, with the room for the marker and the line |
| LogSystem.CopyByte | src/utils/src/MBT_log.c:339-350 | Copying a byte leaves the contents of the ring alone, and one more byte of the text is in place |
| LogSystem.CopyKeeps | src/utils/src/MBT_log.c:339-350 | That step keeps the invariant |
| LogSystem.Commit | src/utils/src/MBT_log.c:350 | Moving buffEnd appends exactly the bytes that were copied |
| LogSystem.CommitKeeps | src/utils/src/MBT_log.c:350 | That step keeps the invariant |
| LogSystem.WriteKeeps | src/utils/src/MBT_log.c:195-202 | Each byte handed to m_write is the next of the accepted ones |
| LogSystem.Release | src/utils/src/MBT_log.c:219 | Moving buffStart releases exactly the first bytes, as many as were written |
| LogSystem.ReleaseKeeps | src/utils/src/MBT_log.c:219 | That step keeps the invariant |
| LogBuffers.LogBuffer.constructor | src/utils/src/MBT_log.c:66-88 | An empty buffer of any size of at least ten |
| LogBuffers.LogBuffer.Push | src/utils/src/MBT_log.c:354-392 | The line goes in, behind the marker for the lost ones, and 0 is returned exactly when contents, marker and line leave more than one byte free; otherwise it is counted; the output followed by the contents stays the lines of the pushes |
| LogBuffers.LogBuffer.CopyLogBuffer | src/utils/src/MBT_log.c:339-351 | The contents grow by the message, in one piece or two, also when the start position was read before the writing thread moved on |
| LogBuffers.LogBuffer.DoWriteLog | src/utils/src/MBT_log.c:169-233 | Nothing happens, or all that was there is written and less than a tenth of the buffer is left, whatever arrives during the rounds; the interval and the wait follow the rule |
| LogBuffers.LogBuffer.MoreRounds | src/utils/src/MBT_log.c:180-218 | The rounds go on until less than a tenth is left; the pace follows the rule, and nothing written or pushed is taken back |
| LogBuffers.LogBuffer.WriteBetween | src/utils/src/MBT_log.c:195-202 | The one or two pieces are the contents |
| LogRing.RingStored | src/utils/src/MBT_log.c:339-351 | Bytes stored behind the contents extend them and leave them alone, around the end of the buffer too |
| LogRing.Pieces | src/utils/src/MBT_log.c:195-202 | The pieces m_write is given are the contents |
| LogRing.Used | src/utils/src/MBT_log.c:162-166 | The number of bytes after which the start position reaches the end position |
| LogRing.Free | src/utils/src/MBT_log.c:368 | The remaining size is the capacity less one less the bytes in use |
| LogAccounting.ReplayAccounts | src/utils/src/MBT_log.c:354-392 | The entries of any sequence of pushes expand to that sequence, and every marker carries a maximal run |
| LogAccounting.OnlyAccount | src/utils/src/MBT_log.c:354-392 | No other entries do |
| LogAccounting.PushesCounted | src/utils/src/MBT_log.c:354-392 | Pushes are lines plus marker counts plus lostLine |
| LogAccounting.ReplayPush | src/utils/src/MBT_log.c:375-386 | What one more push adds to the lines and to lostLine |
| LogCadence.RunsArePaced | src/utils/src/MBT_log.c:169-233 | The interval is one of 5, 10, 15, 20 and 25 and the wait is below 1000 in every run of polls |
| LogCadence.AtMost199 | src/utils/src/MBT_log.c:185-192 | From wherever a run has got to, at most 199 polls in a row find data and put off writing |
| LogCadence.Reached199 | src/core/inc/MBT_config.h:69-73 | In the pace alone that number is reached, for any capacity of at least 20, by readings that a ring of the capacity can give |
| LogReach.DeferralReached | src/utils/src/MBT_log.c:184-192 | For any buffer of at least 20 bytes there is an interleaving of producers and the consumer after which 199 polls in a row have been postponed |
| LogReach.NeverDeferred | src/utils/src/MBT_log.c:184-192 | For a smaller buffer no interleaving postpones a poll |
| LogReach.PushFits | src/utils/src/MBT_log.c:354-392 | From any reachable state with the mutex free, a line that fits behind the marker for the lost ones, if there are any, is pushed by steps of the system: both are stored and nothing counts as lost any more |
| LogReach.PushLost | src/utils/src/MBT_log.c:375-379 | A line that does not fit is counted, and nothing else changes |
| LogReach.FlushLarge | src/utils/src/MBT_log.c:169-233 | From any reachable state a poll that finds more than a third writes all of it and polls at the shortest interval from then on |
| MessageQueue.Drive | src/utils/src/MBT_queue.c:50-180 | The linked list taken through any run of sends, receives and drains: the messages handed out, then the ones on the list from its head, are the ones accepted, in order; all three are those of the sequence model |
| MessageQueue.FirstInFirstOut | src/utils/src/MBT_queue.c:50-180 | Over every run of sends, receives on a non-empty queue and drains, on sequences: what came out, then what is left, is what went in, in order, and the bound is kept |
| MessageQueue.AddedWhenRoom | src/utils/src/MBT_queue.c:57-62 | Over every run, the messages that went in are exactly those of the sends in front of which fewer than the bound were waiting |
| MessageQueue.RunOne | src/utils/src/MBT_queue.c:50-180 | What each operation does to what is waiting, has gone in and has come out |
| MessageQueue.Queue.Perform | src/utils/src/MBT_queue.c:50-180 | One operation on the list is one on the sequence, the messages it hands out included, and the items on it are old ones or new |
| MessageQueue.DrainTakesPrefix | src/utils/src/MBT_queue.c:145-180 | A drain takes the longest prefix its callback accepts, writes the bytes one behind the other within max and stops at the first refusal |
| MessageQueue.Queue.constructor | src/utils/src/MBT_queue.c:33-47 | An empty queue with the given bound |
| MessageQueue.Queue.Send | src/utils/src/MBT_queue.c:50-86 | Exactly when fewer than the bound are waiting the message becomes the last one and 0 is returned; otherwise the queue is full and nothing changes; head, tail and count stay right |
| MessageQueue.Queue.Recv | src/utils/src/MBT_queue.c:125-140 | The first message comes out and the others stay, in order; the assertion in the code holds |
| MessageQueue.Queue.DumpLimit | src/utils/src/MBT_queue.c:145-180 | Refines the drain: the messages shown to the callback and accepted are the prefix, exactly the items of the suffix are left, the bytes lie at the offset, the rest of the buffer is unchanged, the return value is their number, and the assertion in the code holds |

## Left out

- MinifyBuffer.MinifyInPlace: on the texts for which the code leaves its buffer (`MinifyBounds.StaysIffClosed` says exactly which) the outcome depends on the memory behind the buffer, which is not modelled.
- NumberCodec.ParseDecimal: numbers are exact and the printed ones are integers below 10^15 in magnitude; the formatting and rounding of `double`, `valueint`, the locale's decimal point, NaN, infinities and `numberstring` are not modelled.
- Rfc8259.TextAccepted: bytes of 128 and above are passed on as they are, so UTF-8 is not asked of a text; a byte order mark is left out.
- PrintBuffers.Print: an allocation that is refused sets one flag, which does not say which call it was.
- PrintBuffers.PrintBuffered: an initial size of 0 without a reallocate hook, where the manual copy reads a byte behind an empty block, is left out.
- PrintBuffers.PrintBuffer.PrintValue: nodes of the kind cJSON_Invalid or cJSON_Raw, on which printing fails or copies a text, are left out.
- ParseBuffers.ParseWithOpts: a null text and the global error record are left out; once an allocation has been refused the ledger does not say which call it was.
- Trees.Heap.NewItem: `cJSON_InitHooks` is left out; all hooks are one heap.
- NodeComparison.Compare: members without a name in a case-sensitive comparison, which the code hands to `strcmp` as null, are left out.
- Trees.ReplaceItemViaPointer: replacing by name or by index, adding references, and the `Create` and `Is` functions are left out.
- Duplication.Duplicate: `valueint` is not part of a node.
- LogSystem.NothingLostOrReordered: reads and writes of the shared positions are sequentially consistent; the memory ordering of the C program is not modelled, nor are the stop flag, the closing of the log and what stays in the ring then.
- LogBuffers.LogBuffer.Push: lines and the counter of lost ones are unbounded; formatting, time stamps, log levels and files that are rotated are left out, and m_write is a sequence of bytes.
- LogBuffers.LogBuffer.DoWriteLog: the sleep between two polls is left out.
- MessageQueue.Queue.Recv: waiting for a message, the mutex and the condition variable are left out, and so is the fact that a drain returns with the mutex held.
- MessageQueue.Queue.DumpLimit: the callback writes exactly the bytes it returns and at most the room it is given; the one of the MQTT port returns 0.
- MessageQueue.Queue.Send: the allocation of an item succeeds; items are never freed.
- Modbus, MQTT, HTTP, timers, threads, network state, the file system, the simple database, bulk files and the scan list are not part of this model.
