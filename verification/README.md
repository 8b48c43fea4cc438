# Model of cJSON and of the grug test tools that use it

The repository tests implementations of the grug language. It carries a copy of
the cJSON library, a C test harness that writes and compares JSON, the grammar
of the language with its tree builder, and a tool that keeps a JSON file in a
canonical key order. This project models these parts and proves what they are
for. `dafny verify dfyconfig.toml` checks all of it.

## What is modelled

**Printing.** `Items` defines JSON trees and `Text`, the text of a tree in a
layout. `PrintBuffer` is the growing output buffer of cJSON with its offset,
depth and reservation; its methods walk the nodes of a tree in memory and are
proved to write exactly its `Text`, and to leave no block behind but the buffer.
`Printing` has the public functions, with the exact space bound of
`cJSON_PrintPreallocated`: the text, its terminator and one byte more, where
cJSON.h advises five bytes more.

**Parsing.** `Parser` gives the parser as functions of input and offset, with
the offsets at which it fails. `ParseBuffer` is the imperative parser: it builds
nodes in memory and keeps a ledger of live blocks. `Grammar` is section 2 of RFC
8259, with strings and numbers of sections 7 and 6; `Completeness` proves that
all of it is accepted with the value it denotes, and `Language` what else is: it
has the lenient grammar that the parser accepts, to the byte, for any input.
`ErrorPositions` says for all other input where the parser stops, and
`ErrorReports` and `MovedTexts` which position is reported. `RoundTrip` proves
that printed text parses back, and `PrintedCompares` when cJSON_Compare takes
the result for equal; `ParsedTrees` says what holds of every parsed tree,
whatever the input was.

**Memory.** `Heap` has nodes with their next, prev and child pointers, what tree
they represent and in which blocks of memory it lies, and cJSON_Delete. Any
allocation may fail; the allocator counts the failures, and contracts say what
holds when none is added during a call. A reliable allocator never has any.
`Lists` has the operations on child lists as pointer updates, `Editing` any
sequence of them, from one tree in memory to another, and `Duplicate`
cJSON_Duplicate.

**Comparing.** `Compare` has cJSON_Compare and the harness's compare_nodes, on
nodes and on trees, and what both decide; `AnyCase` does so for the
case-insensitive mode of cJSON_Compare. `RepeatedNames` says exactly when
compare_nodes can be trusted and exactly when the two differ: when the expected
side repeats a name there is always an actual tree that it misjudges.

**Rewriting.** `Minify` is cJSON_Minify in place. `Minified` proves what it does
to JSON texts with and without comments, `MinifyComments` that the parser takes
what is left of those with comments, and `MinifyPrinted` exactly when it turns
formatted output into unformatted output: minify_string takes a quote for
escaped when the byte before it is a backslash, so a string that ends in a
backslash is not closed. That does no harm if no white space is printed behind
the string. `MinifyLayouts` proves that without such strings minifying is right
in every layout, and with one in some layout it is not. `Reindent` is the
one-pass rewriter of the harness.

**Side tools.** `Expressions` has the expression rules of the grammar over
tokens, as a relation between token sequences and the trees the transformer
builds, and a deterministic parser; `ExpressionRules` has them as the grammar
file does, and the characters of the tokens. `OrderData` is the canonical key
order.

**Spelling.** What bytes and numbers stand for is said apart from the functions
that use them: `Spelling` has words and whole documents as characters, `Escapes`
escapes, digits and code points, and `Limits` the limits and tolerances.

Numbers are real numbers. What the C library does between text and doubles is a
parameter, `CLib`, of which the model uses four promises: strtod reads no
further than its argument, it consumes a JSON number whole, it reads a decimal
32-bit integer exactly, and "%1.15g" and "%1.17g" write a JSON number. Strings
are byte strings; C strings are those without NUL.

## Model

| member | source | states |
|---|---|---|
| PrintBuffer.Buffer.Ensure | cJSON.c:502-585 | after success the reservation lies inside the block, behind the unchanged text written so far, however often the block was exchanged; the block stays if it is large enough and else has twice the size needed, or INT_MAX; a refusal means that the buffer is gone because an allocation failed, or cannot grow that far; a preallocated buffer never changes |
| PrintBuffer.Buffer.Exchange | cJSON.c:550-580 | the text written so far moves to a new block and the old one is freed, with or without realloc; if there is no memory the old block is freed too |
| PrintBuffer.Buffer.Put | cJSON.c:966-1085 | every store through the output pointer is inside the last reservation and leaves the text before it alone |
| PrintBuffer.Buffer.UpdateOffset | cJSON.c:588-598 | offset catches up with exactly the text written, because printed text contains no NUL |
| PrintBuffer.Buffer.PrintNumber | cJSON.c:608-675 | the decimal text of the number is appended, if it has at most 25 bytes |
| PrintedCompares.NumbersAreClose | cJSON.c:628-642 | if 17 digits are read back up to rounding for every number of a tree that is not a 32-bit integer, then so is what is printed for every number, whether that is "%d", 15 or 17 digits |
| PrintBuffer.Buffer.CountEscapes | cJSON.c:993-1017 | the counting pass finds how much longer the escaped string is, and that a string without escapes is its own escaped form |
| PrintBuffer.Buffer.WriteEscaped | cJSON.c:1036-1082 | the writing pass stores exactly the escaped string, so it stops where the counting pass said |
| Escapes.ByteWritten | cJSON.c:1040-1077 | seven bytes are written as their two-byte escapes, the other control bytes as \u00 and two digits, and all other bytes as themselves |
| PrintBuffer.Buffer.PrintStringPtr | cJSON.c:966-1085 | the quoted, escaped string is appended with its terminator; NULL prints as the empty string |
| PrintBuffer.Buffer.PrintValue | cJSON.c:1435-1506 | if printing succeeds the tree that the nodes represent is printable, the bytes up to the terminator are the old prefix and exactly its text, and depth is restored; it fails only if the tree is not printable, the text does not fit or an allocation failed during the call; the ledger holds the buffer, if it is still there, and nothing else that is new |
| Spelling.WordsPrinted | cJSON.c:1435-1475 | whatever the layout, the depth and the name, null, false and true are printed as the words of that spelling |
| Spelling.TextsPrinted | cJSON.c:974-989 | a string without text is printed like the empty string, and raw text as it is |
| PrintBuffer.Buffer.PrintArray | cJSON.c:1611-1675 | the same for an array |
| PrintBuffer.Buffer.PrintElements | cJSON.c:1639-1663 | the loop along the next pointers terminates, and after it exactly the texts of all elements and their separators have been written |
| PrintBuffer.Buffer.PrintObject | cJSON.c:1796-1912 | the same for an object, with indentation, colons and line breaks |
| PrintBuffer.Buffer.PrintMembers | cJSON.c:1828-1892 | the loop along the next pointers terminates, and after it exactly the texts of all members have been written |
| TextFacts.TextNulFree | cJSON.c:588-598 | printed text never contains a NUL, which is what lets strlen find its end |
| Spelling.SampleCompact | cJSON.c:1435-1912 | a document with an array, a number, words, an object and an empty object, printed without white space, is the text {"a":[1,true,{"b":null}],"c":{}} |
| Spelling.SampleFormatted | cJSON.c:1435-1912 | and formatted it has the lines, tabs and spaces that are written out |
| Spelling.SampleParsed | cJSON.c:1159-2986 | both texts are read back as the document, and minifying the second one gives the first one |
| Printing.Print | cJSON.c:1251-1327 | the result is exactly the text of the tree and a terminator, and all that is left of the memory used; whenever no allocation fails during the call there is one if and only if there is a tree, it is printable and its text and two bytes fit in INT_MAX |
| Printing.Discard | cJSON.c:1302-1316 | the fail path leaves live exactly what was live before |
| Printing.PrintBuffered | cJSON.c:1329-1358 | the same text and a terminator, in a block that may be longer; whenever no allocation fails during the call there is one if and only if in addition the size is not negative |
| Printing.Shrink | cJSON.c:1274-1298 | the final block has just the size of the text and its terminator, and takes the place of the buffer in the ledger |
| Printing.PrintPreallocated | cJSON.c:1360-1377 | succeeds if and only if the tree is printable and length is at least the length of the text plus 2; whatever happens, no memory is allocated and the bytes from length on stay as they were |
| CLibrary.DecimalIsJsonNumber | cJSON.c:628-631 | what "%d" writes is a number of section 6 of RFC 8259 |
| CLibrary.IntegersAreRecovered | cJSON.c:608-675 | every 32-bit integer is printed so that strtod reads it back exactly |
| CLibrary.Saturate | cJSON.c:398-412 | valueint is a 32-bit integer, and the value itself when that is one |
| Limits.SaturateTruncates | cJSON.c:398-412 | for any double: the fraction is dropped, towards zero, and beyond the range it is 2147483647 or -2147483648 |
| Limits.RoundingTolerance | cJSON.c:601-605 | compare_double accepts two numbers exactly if they differ by at most one part in 4503599627370496 of the larger |
| Limits.DigitsPrinted | cJSON.c:632-643 | a number that is no 32-bit integer is printed with 15 digits if these are read back within that tolerance, and with 17 if not |
| Limits.NumberFits | cJSON.c:608-650 | a number is printable if its text and a terminator fit in 26 bytes |
| Limits.LeavesPrinted | cJSON.c:1443-1506 | of the other items without children, all are printable but Invalid ones and Raw ones without text |
| Limits.PrintLimit | cJSON.c:1622-1625 | arrays in arrays are printed up to 1000 levels |
| Limits.ParseLimit | cJSON.c:1518-1521 | n brackets and their ends are read exactly if n is at most 1000, and otherwise the error is at the bracket number 1001 |
| Utf8.ParseHex4 | cJSON.c:678-711 | the loop computes the number four hexadecimal digits write, and 0 when one is not a digit |
| Escapes.DigitsSpelled | cJSON.c:678-711 | the hexadecimal digits are 0 to 9, a to f and A to F, with these values, and those that are written are in lower case |
| Utf8.FromSurrogates | cJSON.c:769-770 | a surrogate pair gives the code point of section 2.2 of RFC 2781, which is a scalar value beyond the basic plane |
| Escapes.SurrogatesOf | cJSON.c:733-771 | every code point from 0x10000 on is what is made of the two surrogates that section 2.1 of RFC 2781 gives for it |
| Escapes.PairIsRead | cJSON.c:715-963 | so a string literal that writes these two numbers in hexadecimal, in either case of letters, is parsed to the UTF-8 form of the code point, wherever it stands |
| Escapes.UnitIsRead | cJSON.c:715-963 | likewise one that writes a code point of the basic plane, except the surrogates |
| Escapes.SurrogateRefused | cJSON.c:723-760 | a surrogate alone is refused at its backslash |
| Utf8.LiteralAt | cJSON.c:715-777 | an accepted literal is 6 or 12 bytes long, lies before the closing quote and denotes a scalar value, so the invalid-codepoint branch is not reached |
| Utf8.EncodingIsUtf8 | cJSON.c:778-827 | the bytes are the one sequence that section 3 of RFC 3629 decodes to the code point, which makes them the shortest form |
| Utf8.EncodeDecode | cJSON.c:778-827 | whatever decodes at all is the encoding of a scalar value: no surrogate and no overlong form is ever emitted |
| Utf8.EncodeInto | cJSON.c:778-827 | the loop that fills in the bytes from the last to the first stores that form and nothing else |
| Escapes.Encodings | cJSON.c:778-827 | one character of each length, by its bytes |
| Utf8.BitsAsArithmetic | cJSON.c:770-826 | the masks and shifts on 32-bit words are the divisions and remainders used here |
| StringParser.CloseQuote | cJSON.c:849-871 | the first pass ends at a quote inside the input |
| StringParser.DecodedFits | cJSON.c:849-941 | at any point of the second pass, aligned with the first or not, what is still to be stored fits in what the first pass counted from there |
| StringParser.StringFits | cJSON.c:836-963 | for every accepted input, well formed or not, the decoded string fits in the space the sizing pass computed |
| Escapes.EscapeIsRead | cJSON.c:900-920 | each of the eight two-byte escapes is read as the byte it stands for |
| Escapes.OtherLetters | cJSON.c:900-935 | there are no other two-byte escapes |
| Escapes.RawBytesRead | cJSON.c:836-963 | a string of any other bytes is read as those bytes, control bytes and broken UTF-8 included |
| Escapes.BadDigitsRead | cJSON.c:678-828 | and \u with four bytes that are not all hexadecimal digits, which no JSON text has, as a zero byte |
| ParseBuffer.Buffer.SizeString | cJSON.c:849-880 | the sizing loop finds the closing quote and the size to allocate, without reading past the input |
| ParseBuffer.Buffer.ConvertLiteral | cJSON.c:715-833 | one escape or surrogate pair is written as UTF-8, or refused |
| ParseBuffer.Buffer.DecodeStep | cJSON.c:884-937 | one round of the second pass stays inside the block and agrees with the decoding function |
| ParseBuffer.Buffer.DecodeInto | cJSON.c:882-941 | every store of the second pass and the terminator are inside the block, for every input |
| ParseBuffer.Buffer.ReadString | cJSON.c:836-963 | the item owns a new block with the decoded C string, or no memory is left and offset is where the function parser fails |
| ParseBuffer.Buffer.SkipWhitespace | cJSON.c:1102-1125 | offset moves to the next byte above 32, or to the last byte, and never left of where it was |
| ParseBuffer.Buffer.ReadNumber | cJSON.c:319-420 | the number and its saturated int are stored; the temporary copy is freed on every path |
| Escapes.BytesSpelled | cJSON.c:331-362 | the white space of JSON, the digits, and the bytes that parse_number collects, as characters |
| ParseBuffer.Buffer.ReadValue | cJSON.c:1380-1432 | refines Parser.ParseValue: same tree, same end and same failure offset unless an allocation failed during the call, depth restored, live memory grown by exactly the blocks of the tree, or unchanged on failure; valueint is 1 behind true |
| Spelling.WordsParsed | cJSON.c:1380-1409 | wherever a value is due, the words null, false and true are read as those items, whatever follows |
| Spelling.WordTexts | cJSON.c:1159-1236 | and so are texts of one such word |
| ParseBuffer.Buffer.ReadElement | cJSON.c:1548-1580 | one round of the loop extends the linked list by one complete tree |
| ParseBuffer.Buffer.ReadElements | cJSON.c:1546-1585 | the loop's list is the list of the parsed elements |
| ParseBuffer.Buffer.ReadArray | cJSON.c:1509-1608 | refines Parser.ParseArray; on failure everything built so far has been freed |
| ParseBuffer.Buffer.ReadMember | cJSON.c:1711-1766 | one round of the loop extends the list by one member with its name |
| ParseBuffer.Buffer.ReadObject | cJSON.c:1678-1793 | refines Parser.ParseObject; on failure everything built so far has been freed |
| ParseBuffer.Buffer.Abandon | cJSON.c:1601-1607 | the fail path frees exactly the list built so far |
| Parser.SkipSpace | cJSON.c:1102-1125 | never ends left of where it started, and stays inside the input |
| Parser.ParseValue | cJSON.c:1380-1432 | every successful parse strictly advances and stays inside the input; a failure is at an offset inside it |
| Parser.ParseText | cJSON.c:1159-1236 | the end of the parse and the error position are inside the input |
| Language.ParsesExactly | cJSON.c:1380-1793 | for any bytes: parsing from an offset succeeds with a given tree and end if and only if the bytes up to the end are a text of that tree in a lenient grammar (control bytes as white space, raw bytes in strings, any run of number bytes that strtod takes whole, at most 1000 levels), or a number that strtod leaves before the end of its run |
| Language.AcceptsPrefixExactly | cJSON.c:1159-1236 | without a required terminator an input is accepted with a given tree and end if and only if, behind the byte order mark and white space, it starts with a text of that tree, whatever follows |
| Language.AcceptsExactly | cJSON.c:1159-1236 | with a required terminator an input is accepted with a given tree if and only if its last byte is NUL and all in front of it, but for the byte order mark, is one text of that tree between white space |
| ErrorPositions.StopsExactly | cJSON.c:1380-1793 | for any bytes: the parse of a value fails at an offset if and only if a relation given apart from the parser says so: at the place where no value can start, where a string is not closed or has an escape that cannot be read, where nesting goes too deep, or, in an array or object, after any number of complete elements or members with their commas, in or behind the next one |
| ErrorReports.ReportsExactly | cJSON.c:1159-1236 | the position reported for a text is that one, or that of something else than the terminator behind the value; behind the end of the text it is its last byte |
| ErrorReports.ElementMissing | cJSON.c:1548-1585 | in an array, behind any complete elements and a comma, the position of something that is no value is reported |
| ErrorReports.ValueMissing | cJSON.c:1711-1766 | in an object, behind any complete members, a comma, a name and its colon, likewise |
| ErrorReports.EndsEarly | cJSON.c:1216-1229 | a text that ends behind complete elements or members is reported at its last byte |
| ErrorReports.MisspelledWord | tests.c:2223-2243 | in {"a": tru} position 6 is reported |
| MovedTexts.SpaceInFront | cJSON.c:1102-1236 | white space in front of a text moves the end of the parse, and the position of an error, by its length |
| Completeness.ValidSpells | cJSON.c:1380-1793 | every text of the grammar of RFC 8259 is a text of the lenient grammar for the tree it denotes |
| Parsing.ParseWithLengthOpts | cJSON.c:1159-1236 | whenever no allocation fails during the call, a tree comes back if and only if the function parser accepts, and otherwise the error position is reported; the tree has well-formed lists, all its memory is new and the ledger has grown by exactly its blocks; on failure live memory is what it was |
| Parsing.ReadRoot | cJSON.c:1184-1188 | the value behind a byte order mark and white space is read into the root; on failure the root is an empty tree that can be deleted |
| Parsing.ParseWithOpts | cJSON.c:1143-1156 | the same for a C string and its terminator, error position included |
| Parsing.DeleteTree | cJSON.c:265-288 | exactly the blocks of the tree are freed, each once |
| Heap.Delete | cJSON.c:265-288 | exactly the blocks of a list of trees are freed, each once |
| Heap.Adopt | cJSON.c:1587-1597 | closing the list makes the tree an array or object whose head's prev is its tail |
| Heap.TypeTells | cJSON.h:88-97 | the type of a node in memory tells the kind of item it represents |
| Completeness.ParsesString | cJSON.c:836-963 | every string of section 7 of RFC 8259, with its escapes and surrogate pairs, is decoded to what it means |
| Completeness.ParsesNumber | cJSON.c:319-420 | every number of section 6 of RFC 8259 is consumed whole |
| Completeness.ParsesValue | cJSON.c:1380-1432 | every value of the grammar is parsed to the tree it denotes, up to its end, in any surroundings |
| Completeness.AcceptsEveryText | cJSON.c:1159-1236 | every JSON text of section 2 of RFC 8259 with nesting of at most 1000 and no unpaired surrogate is accepted, with or without a required terminator, and gives the tree the grammar denotes |
| Completeness.AcceptsBehindBom | cJSON.c:1128-1236 | behind a byte order mark a JSON text is accepted in the same way, with or without a required terminator, if and only if the input is longer than four bytes |
| Completeness.BomIsEncoded | cJSON.c:1135-1138 | the mark is U+FEFF in UTF-8 |
| Completeness.MoreThanJson | cJSON.c:1102-1125 | an array with a control byte between its brackets is accepted, and it is the text of no JSON document |
| RoundTrip.EscapingRoundTrip | cJSON.c:966-1085 | the escaped form of a C string is a sequence of valid characters that mean the string, byte for byte |
| RoundTrip.StringRoundTrip | cJSON.c:836-1085 | parse_string behind print_string_ptr returns the original string for every NUL-free input, in any surroundings |
| RoundTrip.TextIsFlat | cJSON.c:1435-1506 | printed text, in any layout, is the text of a syntax tree of the JSON grammar |
| RoundTrip.SyntaxIsValid | cJSON.c:1435-1506 | that syntax tree is valid and denotes the printed tree |
| RoundTrip.PrintedIsJson | cJSON.c:1251-1327 | what the printer writes is a JSON text within the nesting limit |
| RoundTrip.PrintThenParse | cJSON.c:1159-1327 | parsing the printed text of a printable tree without Raw nodes succeeds, reads all of it and gives the tree back with order and duplicate names, numbers as their text reads, NULL strings as empty ones |
| RoundTrip.SettledAsParsed | cJSON.c:1380-1793 | nothing is lost exactly when the tree is as the parser builds trees and its numbers survive their text |
| RoundTrip.PrintThenParseExactly | cJSON.c:1159-1327 | for such trees parsing formatted or unformatted output gives the same tree |
| PrintedCompares.PrintThenParseCompares | cJSON.c:1159-3211 | for a printable tree of JSON kinds with distinct names, case-sensitive cJSON_Compare takes the tree that parsing its output gives for equal if and only if no string was NULL and every number is read back up to rounding |
| ParsedTrees.ParsedValue | cJSON.c:1380-1793 | every parsed tree, from any input, has JSON kinds only, texts in its strings, names exactly on members and no nesting beyond the limit |
| ParsedTrees.ParsedTreeIsFit | cJSON.c:1380-1793 | so every parsed tree is within the limits of cJSON_Duplicate and complete for both comparisons |
| ParsedTrees.IntegersSurvive | cJSON.c:608-675 | integers of up to 32 bits need at most eleven characters and read back exactly |
| ParsedTrees.ParsePrintParse | cJSON.c:1159-1327 | whatever text a tree was parsed from, printing it and parsing the output gives the same tree, if its numbers survive their text |
| Lists.GetArraySize | cJSON.c:1915-1936 | the number of children |
| Lists.GetArrayItem | cJSON.c:1938-1955 | the child at the index, or NULL beyond the end |
| Lists.AddItemToArray | cJSON.c:2043-2074 | the item goes to the end of a list that stays well formed; refused only for NULL and for the array itself |
| Lists.InsertItemInArray | cJSON.c:2350-2382 | the item goes in front of the child at the index, or to the end |
| Lists.DetachItemViaPointer | cJSON.c:2274-2308 | the item leaves a list that stays well formed and points nowhere |
| Lists.DetachItemFromArray | cJSON.c:2310-2318 | the same by index; nothing happens outside the list |
| Lists.Exchange | cJSON.c:2391-2427 | the replacement takes the place of the item, which then points nowhere; replacing an item by itself changes nothing |
| Editing.AliveAfter | cJSON.c:2043-2431 | no call loses or makes a tree, and only a replacement ends one |
| Editing.InsertDetach | cJSON.c:2274-2382 | detaching undoes inserting and inserting undoes detaching |
| Editing.OutOfRange | cJSON.c:2310-2441 | an index at which there is no child changes nothing, except that an item is inserted behind the last child |
| Editing.Positions | cJSON.c:2310-2441 | which item is at which position after inserting, detaching and replacing, counted from the head |
| Editing.ReplaceIsDetachInsert | cJSON.c:2384-2431 | a replacement leaves the list that detaching and inserting would leave |
| Editing.Relink | cJSON.c:2043-2382 | append, insert and detach refine the sequence operations and leave every other unlinked tree alone |
| Editing.RelinkReplace | cJSON.c:2384-2441 | replacing by index refines the sequence operation and hands back the old item, unlinked |
| Editing.Drop | cJSON.c:2426-2430 | the replaced tree is freed, and no other tree or list is harmed |
| Editing.Perform | cJSON.c:2043-2441 | one call keeps the lists well formed, every tree that is alive unharmed, and the ledger exact |
| Editing.PerformAll | cJSON.c:2043-2441 | the same for any run of append, insert, detach and replace with unlinked items: the list holds what the sequence operations make of it, and exactly the replaced trees have been freed |
| Editing.ParentModels | cJSON.c:2043-2441 | between calls the parent in memory is the array or object of its children |
| Editing.Entry | cJSON.c:2043-2441 | an array or object in memory, parsed, duplicated or built, meets what the runs require, with every child in its place |
| Editing.Admit | cJSON.c:2043-2441 | a live tree in no list may join in between calls, and is handed over to the calls that follow |
| Editing.EditTree | cJSON.c:2043-2441 | any run of calls on an array or object in memory leaves in memory the array or object that the sequence operations make of its children, and frees exactly the replaced ones |
| Duplicate.Strdup | cJSON.c:200-219 | the C string in a new block, or NULL |
| Duplicate.CopyNode | cJSON.c:2817-2842 | a new node with the same fields and strings in new blocks, or nothing left behind |
| Limits.CopyLimit | cJSON.c:2847-2856 | a copy is made of up to 10000 levels below the outermost |
| Duplicate.DuplicateRec | cJSON.c:2805-2889 | the copy is in entirely new memory, with well-formed lists, and represents the same tree; failure leaves no memory behind |
| Duplicate.Duplicate | cJSON.c:2800-2889 | whenever no allocation fails during the call, a recursive copy is made exactly of trees no higher than 10000; it shares no memory with the original, which is unchanged, and has the same type and numbers |
| Compare.CaseInsensitiveStrcmp | cJSON.c:145-166 | 0 exactly for two strings that are equal but for the case of ASCII letters |
| Escapes.LowerSpelled | cJSON.c:145-166 | tolower changes the 26 letters A to Z and nothing else |
| Compare.FindUnique | cJSON.c:1967-1997 | among distinct names the lookup finds the one child with the name |
| Compare.GetObjectItem | cJSON.c:1967-1997 | the first child with the name, by both walks; the exact one stops at a child without a name |
| Compare.NamelessChild | cJSON.c:1976-1995 | a child without a name ends the case-sensitive walk, and the other one goes past it |
| Compare.Compare | cJSON.c:3088-3211 | on nodes that share no memory decides Compare.Same; a node equals itself unless it is invalid; nothing is changed |
| Compare.CompareMembers | cJSON.c:3173-3204 | one of the two member loops: true exactly if each member of one side has a member of the same name on the other side that compares equal |
| Compare.SameSymmetric | cJSON.c:3088-3211 | cJSON_Compare is symmetric on all trees, in both modes |
| Compare.SameIsEquivalent | cJSON.c:3088-3211 | in case-sensitive mode and with distinct names it accepts exactly the trees that are equal up to the order of members |
| Compare.SelfSame | cJSON.c:3088-3211 | a copy of a tree with distinct names is accepted if and only if the tree has no Invalid node and no NULL text |
| AnyCase.SameFolded | cJSON.c:3088-3211 | with names that differ in more than case, comparing case-insensitively is comparing case-sensitively after all names have been put in lower case |
| AnyCase.AnyCaseIsEquivalent | cJSON.c:3088-3211 | in case-insensitive mode, and with no two names in an object that differ in case only, cJSON_Compare accepts exactly the trees that are equal up to the order of members and the case of names |
| AnyCase.ExactIsAnyCase | cJSON.c:3088-3211 | on such trees whatever the case-sensitive mode accepts the other mode accepts too |
| AnyCase.CaseTellsApart | cJSON.c:3173-3204 | on others not: {"A": true, "a": false} equals its copy in case-sensitive mode only |
| Compare.CompareNodes | tests.c:2110-2204 | on nodes in memory decides Compare.Accepts, and changes nothing |
| Limits.HarnessTolerance | tests.c:2135-2142 | compare_nodes accepts two numbers exactly if they differ by at most 0.000001 |
| Compare.CompareNodeElements | tests.c:2154-2168 | sizes and then elements in order |
| Compare.CompareNodesAt | tests.c:2162-2166 | one round of that loop decides for one pair of elements |
| Compare.CompareNodeMembers | tests.c:2170-2196 | sizes and then one lookup for each expected member |
| Compare.InjectionBound | tests.c:2170-2196 | the pigeonhole principle: distinct positions in a list are no more than its length |
| Compare.LookupsDistinct | tests.c:2170-2196 | lookups of distinct names lead to distinct members, so with equal sizes they are a permutation |
| Compare.AcceptsIsEquivalent | tests.c:2110-2204 | without duplicate names on the expected side, compare_nodes accepts exactly the trees without Raw nodes that are equal up to the order of members, numbers within 1e-6 |
| Compare.ComparisonsAgree | tests.c:2110-2204 | on integer trees with distinct names compare_nodes and case-sensitive cJSON_Compare agree |
| RepeatedNames.TrustedExactly | tests.c:2110-2204 | compare_nodes decides equality up to member order against every actual tree if and only if no object on the expected side repeats a name or has a member without one |
| RepeatedNames.UnkeyedIsUntrusted | tests.c:2170-2196 | for every expected tree that does, there is an actual tree on which the answer is wrong, whichever way |
| RepeatedNames.RepeatedNameAccepts | tests.c:2170-2196 | a wrong answer of one kind: an expected {k, k} accepts {k, m} |
| RepeatedNames.RepeatedNameRejects | tests.c:2170-2196 | and of the other: an expected {k: true, k: false} accepts no tree at all, not even itself |
| RepeatedNames.EquivalentCarriesKeyed | tests.c:2170-2196 | of two trees that are equal up to member order, both repeat a name or neither does |
| RepeatedNames.EquivalentExactly | cJSON.c:3088-3211 | with distinct names on one side, equality is acceptance by case-sensitive cJSON_Compare together with distinct names on the other side |
| RepeatedNames.ComparisonsDifferExactly | tests.c:2110-2204 | on integer trees with distinct names on the expected side, compare_nodes accepts exactly what case-sensitive cJSON_Compare accepts with distinct names on the actual side; so the two differ if and only if cJSON_Compare accepts and the actual side repeats a name |
| RepeatedNames.RepeatedNameDivides | tests.c:2110-2204 | such a pair: cJSON_Compare accepts {k} against {k, k}, compare_nodes does not |
| Minify.SkipOnelineComment | cJSON.c:2891-2902 | skips to behind the line end or to the terminator |
| Minify.SkipMultilineComment | cJSON.c:2904-2916 | skips to behind the comment or to the terminator |
| Minify.MinifyString | cJSON.c:2918-2938 | copies a string down in place, with the write pointer at or before the read pointer |
| Minify.MinifyInPlace | cJSON.c:2940-2986 | the array afterwards holds the minified text of what it held, a terminator, and unchanged bytes behind that |
| Minified.MinifyingIsIdempotent | cJSON.c:2891-2986 | minifying twice is minifying once, for every text, JSON or not |
| Minified.LineCommentVanishes | cJSON.c:2891-2902 | a line comment is dropped with its line end, or up to the end of the text |
| MinifyComments.LineDropped | cJSON.c:2891-2902 | // up to the line end, or to the end of the text, is dropped |
| Minified.BlockCommentVanishes | cJSON.c:2904-2916 | a block comment is dropped up to the first end mark |
| MinifyComments.BlockDropped | cJSON.c:2904-2916 | /* up to the first */, or to the end of the text, is dropped |
| MinifyComments.SpaceDropped | cJSON.c:2949-2956 | spaces, tabs and line ends are dropped between strings |
| MinifyComments.SlashDropped | cJSON.c:2958-2971 | a slash that starts no comment is dropped |
| Minified.InsideString | cJSON.c:2918-2938 | behind the closing quote of a JSON string the scan is outside, unless the last character is an escaped backslash: then it is still inside |
| Minified.MinifiedValue | cJSON.c:2940-2986 | a value in which no string or name ends in a backslash is reduced to the same value without white space and comments, whatever follows |
| Minified.MinifyingKeepsMeaning | cJSON.c:2940-2986 | minifying a JSON text in which no string or name ends in a backslash, with or without comments where white space may stand, leaves the JSON text of the same value without white space and comments |
| MinifyComments.MinifyThenParse | cJSON.c:2891-2986 | what is left then is parsed to that value, if the nesting is within the limit |
| MinifyComments.CommentIsRemoved | cJSON.c:2891-2986 | with a line comment in front no such JSON text is accepted by the parser, and once minified every one is |
| MinifyLayouts.RightInEveryLayout | cJSON.c:2918-2986 | minifying reduces every JSON text of a value, however it is laid out, to the text without white space if and only if no string or name in the value ends in a backslash; and the same for all its texts with comments |
| MinifyLayouts.UnsafeStrays | cJSON.c:2918-2986 | with a space behind everything, a value in which one does is left with a space where the text without white space has none |
| MinifyLayouts.LosesText | cJSON.c:2918-2986 | the space inside the second string of ["\\", "b c"] is lost, and what is left is the JSON text of another value |
| MinifyPrinted.MinifyingPrintedText | cJSON.c:2918-2986 | minifying formatted output gives unformatted output if and only if no white space is printed behind a string or name that ends in a backslash; in particular whenever there is no such string or name |
| MinifyPrinted.HarmDependsOnPlace | cJSON.c:2918-2986 | the printed array of one string that ends in a backslash is minified as it should be, and with another element behind it is not |
| Reindent.ReindentCJsonOutput | tests.c:6388-6427 | the output is the rewritten text and its terminator, and fits the block of four times the input |
| Reindent.TextChanges | tests.c:6388-6427 | printed values are rewritten to the other layout, wherever they stand, and no string in them is touched |
| Spelling.LineReindented | tests.c:6388-6427 | in a line of formatted output each tab in front becomes four spaces and the tab behind the colon one, for any number of tabs |
| Reindent.ReindentedPrint | tests.c:6388-6427 | rewriting formatted output gives the tree printed with four spaces a level and one space behind each colon, at most four times as long, and it parses back |
| Expressions.ParsesLevel | grug_grammar.lark:36-80 | whatever a level derives is parsed to its tree, up to operators of that level that follow |
| Expressions.ParsedIsDerived | grug_grammar.lark:36-80 | whatever is parsed, the grammar derives with the same tree |
| Expressions.ParsesExactly | grug_grammar.lark:36-80 | a token sequence has a tree if and only if the one-token-lookahead parser finds that tree |
| ExpressionRules.RulesParse | grug_grammar.lark:36-75 | the rules of the grammar file, each with its own operators, derive a tree for a token sequence if and only if the parser finds it |
| Expressions.Unambiguous | grug_grammar.lark:36-80 | a token sequence has at most one tree |
| Expressions.WriteThenParse | grug_grammar.py:164-256 | writing out a tree and parsing it gives the tree back if and only if its operands respect the levels |
| Expressions.Associates | grug_grammar.lark:38-63 | for any two operators of the sets or; and; == and !=; <, <=, > and >=; + and -; * and /: those of one set associate to the left, and one of a later set binds first |
| ExpressionRules.OperatorsInSource | grug_grammar.lark:38-60 | each operator between two names, as it stands in a program |
| ExpressionRules.WholeExpression | grug_grammar.lark:36-75 | the characters of one expression with signs, calls, parentheses, strings and words, and its tree |
| OrderData.KeyOrder | mod_api.py:38-42 | sort_key orders all keys, and no two different keys alike |
| OrderData.SortSorts | mod_api.py:44-49 | sorting keeps the entries and puts their keys in order |
| OrderData.OrderIsUnique | mod_api.py:44-49 | there is only one order |
| OrderData.OrderedAndAlike | mod_api.py:30-56 | the result has its keys in order at every depth and is the input up to key order |
| OrderData.CanonicalForm | mod_api.py:30-56 | two inputs give the same result if and only if they are equal up to key order at every depth |
| OrderData.FixedWhenOrdered | mod_api.py:30-56 | the input is unchanged if and only if it is in order, and ordering twice is ordering once |
| OrderData.ConstraintsFirst | mod_api.py:38-42 | in the result "constraints" comes first at the top level, and in any dictionary below behind every listed key |
| OrderData.KeysComeInOrder | mod_api.py:9-49 | of any two keys of a dictionary in the result: "constraints" is first at the top level, listed keys come in the order of the list, which is written out, and before all others, and two others by the first character in which they differ, the smaller one first |

## Left out

- NaN and the infinities, rounding, locales and the decimal point: numbers are reals, and strtod and sprintf are parameters.
- Compare.Compare: two different nodes must share no memory; sharing part of a tree, where the pointer shortcut would answer for a common child, is not covered.
- Editing.PerformAll: the items handed to a call must belong to no list, as the library demands of its callers; cyclic or corrupted lists are not modelled.
- Lists.InsertItemInArray: inserting an array into itself in front of one of its children is excluded; the source does not look for it there and links a cycle.
- Lists.GetArraySize: does not model the narrowing of the size to int, because a list of more than INT_MAX nodes would be needed.
- Printing.PrintBuffered: a starting length of zero is excluded when there is no realloc, because ensure then copies one byte from the empty block.
- Reindent.ReindentCJsonOutput: allocation always succeeds, because the harness exits otherwise.
- Compare.CompareNodes: the path strings and messages are not modelled, and a mismatch ends the comparison with false where the harness leaves the test.
- Compare.CompareNodes: strings must have a text, because the harness passes them to strcmp unchecked.
- Expressions.WriteThenParse: identifiers are written as NAME tokens; which text is which token is the business of the lexer, which is not part of this model.
- The field valueint is always the saturated valuedouble, as parsing and creating a number set it; a program that writes the fields apart is not covered.
- A string that print_string_ptr or strcmp reads is taken as the C string at its pointer, not byte by byte through memory.
- The buffer that is printed into must not be part of the printed tree.
- Heap.Delete: does not model references and constant names (cJSON_IsReference, cJSON_StringIsConst), which are not freed, nor the functions that set them.
- Duplicate.CopyNode: does not model constant names, which a copy shares with the original.
- PrintBuffer.Buffer.PrintNumber: does not model the branch that prints NaN and the infinities as null, because real numbers have none.
- Allocator hooks as function pointers: an allocator is an object whose calls may fail.
- size_t arithmetic beyond the checks against INT_MAX in ensure; input lengths are unbounded numbers.
- The adding and replacing of object members by name, the Create functions, SetValuestring and SetNumberHelper: easy beside what is modelled.
- \u0000 in a JSON text denotes a string that ends there, as a C string does; the grammar here excludes nothing, and the denoted tree says so.
- The dictionaries of the transformer are constructors here: call_expr gives Call or MethodCall, and an absent "arguments" entry is an empty list.
- Statements, types and comments of the grammar, its indentation and its lexer.
- Reading and writing of files, results.json and its summary, the Vec functions, signal and jump handling, and the test scripts.
