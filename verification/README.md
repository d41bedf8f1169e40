# tinyxml2, the key-box transfer and the early UART log

This project models the XML library in `lib/tinyxml2` (version 1.0.6), the transfer of the
attestation key box in `lib/heci/heci.c`, and the ring of the early log in `debug.c`.

The library parses in place. `XMLDocument::Parse` copies the text into one buffer; nodes and
attributes are taken from four pools and keep ranges of that buffer; a range is decoded, in the
buffer, the first time it is read. `XMLPrinter` writes a tree back. The model has three layers.

- **Functions of the text.** `Parsing` is the parser with ranges for strings, `Decoding` is what
  `StrPair::GetStr` makes of a range, `Documents` is the tree a reader sees and what the printer
  writes for it. `Soundness`, `FlatParsing`, `RoundTrip`, `Reprinting`, `Escaping`, `CharRef` and
  `ElementAttributes` prove theorems about these functions. `DecodedText`, `Numerals`, `Syntax`, `Tokens`
  and `Layout` pin them down in bytes: what each piece of a text is read as, which texts are tokens and
  which error the others have, and where the printer breaks lines.
- **The code.** `XMLDocuments` (document, nodes, pools and buffer on the heap), `DocumentAccess` (the
  accessors), `DocumentPrinting`, `Nodes`, `StrPairs`, `MemPools`, `DynArrays`, `AttributeLists`,
  `Printer`, `Heci` and `Uart` hold the classes and the loops. Each method is proved against the
  functions above. `HeciTransfers` says what the transfer achieves with which devices.
- **Heap reasoning.** `Ownership` (which nodes and chunks belong to a node), `LiveStrings` (which
  bytes belong to which string), `Accounts` (equations between chunks), `Scanning` and
  `ParserRounds` (the loops of the parser, one round at a time).

A text is a sequence of bytes without NUL; the terminating NUL is written out where the code reads
it. Integers have the width of the C type where it matters: `unsigned` and `unsigned long` (64 bits)
in numeric references, `uint16_t` in the messages of the transfer, indices modulo 4096 in the ring.

## Findings

Each of these is a place where the code does not do what a caller may expect. One lemma gives an
input, another says for all inputs exactly when it happens.

- **Parsing may have no result.** When a tag repeats an attribute name, `Attribute( attrib->Name() )`
  (`lib/tinyxml2/tinyxml2.cpp:1307`) also decodes the value of the first attribute of that name. If
  this value has a malformed numeric reference, `GetStr` goes on with a null pointer.
  `FlatParsing.ParseWithoutResult` shows it for `<a x="&#z;" x="1"/>`; `FlatParsing.NoResultIff` says
  that it happens if and only if the reading of the text stops at such a tag. The model answers
  `NullRead`, which is not an error of the library. A string read later has the same trouble exactly
  if `Decoding.Undecodable` holds of its text: `Decoding.DecodeIsMeaning`.
- **Repeated attributes.** The comment at `lib/tinyxml2/tinyxml2.cpp:1312` says that a repeated
  attribute is not detected. The code detects it: `FlatParsing.RepeatFails`,
  `ElementAttributes.ParsedNamesApart`.
- **A stray closing tag ends the document.** `</a>x` is parsed without an error and without a node, and
  the `x` is dropped (`FlatParsing.StrayCloseEndsParse`). A parse without error has read the whole text
  if and only if only white space is left where a flat reading of the tags stops
  (`FlatParsing.WholeTextIff`).
- **`</a/>` is an empty element.** The slash at the end overwrites `closingType`
  (`FlatParsing.SlashedTagIsNode`). A tag that begins with a slash becomes a node if and only if it is
  well formed and the byte in front of its `>` is a slash too (`FlatParsing.SlashedTagIff`).
- **A bare `&` is not always kept.** An unrecognised `&` moves both pointers of `GetStr` without
  writing (`lib/tinyxml2/tinyxml2.cpp:225`). Behind something that got shorter, the byte left there
  is another one: `Decoding.BareAmpersandIsLost`. `Decoding.DecodeIsMeaning` has the exact condition.
- **Wide numeric references wrap.** `&#x100000041;` is read as `A` (`CharRef.WideReferenceWraps`), the
  decimal numeral 5000000000 as 705032704 (`CharRef.WideDecimalWraps`). Hexadecimal numerals are
  exact if and only if they are below 2^32, decimal ones if and only if they are below 5 * 10^9
  (`CharRef.HexIsExactBelow32Bits`, `CharRef.DecimalIsExactBelowFiveBillion`).
- **A transfer that timed out may count as a success.** `heci_receive_impl` answers 1 when a wait runs
  into its limit; `get_attkb` tests `status < 0`. `HeciTransfers.LateDataIsNotNoticed` has a device that
  holds the byte 7 from which the host takes another byte; `HeciTransfers.TransferNeedsData` has the
  condition.
- **A long file is copied behind the end of the buffer.** `get_attkb` compares the size that the device
  announces with nothing, and its caller allocates 16384 bytes (`lib/syscall/syscall_x86.c:109`).
  `HeciTransfers.LargeFileOverruns` has a device with one byte more; `HeciTransfers.CopiesStayInside`
  says that this is the exact bound.
- **A transfer may never end.** A device that announces a byte and sends none is asked again for ever
  (`HeciTransfers.SilentDeviceNeverEnds`). That happens if and only if the device falls silent for ever
  while bytes are still to come (`HeciTransfers.TransferNeverEndsIff`).
- **The guard of the receive loop admits one word too many.** `BufSize >= Index * 4` lets the
  word in that begins where the 508 bytes end. `Heci.StoresStayInside`: all stores are inside if and
  only if the length field is not 509, 510 or 511. The chunk size of `get_attkb` keeps the replies it
  asks for within 508.
- **The newest byte waits.** Even with the port in use, `uart_putc` sends a byte only when the next one
  is put: `Uart.WhatThePortReceives`, for all runs.

## Model

| member | source | states |
|---|---|---|
| RoundTrip.PrintThenParse | lib/tinyxml2/tinyxml2.cpp:738-2049 | a document with valid names, distinct attribute names, strings without CR and NUL, and leaves without their own terminator, printed pretty or compact, is parsed without error and decodes to the same document, byte order mark included |
| RoundTrip.PrettyIsCompact | lib/tinyxml2/tinyxml2.cpp:1806-1994 | pretty and compact printing of such a document are read as the same tree: no line break of the printer becomes part of a text |
| Reprinting.ParsedIsPrintableIff | lib/tinyxml2/tinyxml2.cpp:738-1371 | a document that was parsed from any text can be printed faithfully if and only if it has nodes, its strings hold no CR or NUL, no text is blank and no text stands at the top: names, leaf ends and the places of text are right by themselves |
| Reprinting.ParseThenPrint | lib/tinyxml2/tinyxml2.cpp:738-2049 | such a document, printed and parsed again, is the same document |
| RoundTrip.ChildrenReady | lib/tinyxml2/tinyxml2.cpp:1866-1888 | behind a last text the closing tag follows at once, so that the line break of the printer is never taken up by a text |
| Layout.DocumentIsLaid | lib/tinyxml2/tinyxml2.cpp:1806-1994 | the printer's state machine writes a row of tags, texts and line starts that is read off the tree, with every byte of tags, attributes and leaves written out; compact output is the same row without the line starts |
| Layout.TextsStandAlone | lib/tinyxml2/tinyxml2.cpp:1806-1912 | in a printable document no line start and no line feed stands beside a text |
| Layout.PrettyLines | lib/tinyxml2/tinyxml2.cpp:1748-1753 | a document without text has one line for each tag and leaf, at depth `n` behind `4 * n` spaces, and a line feed behind each element at the top |
| Tokens.TextIsLexed | lib/tinyxml2/tinyxml2.cpp:460-533 | every text of the form of a tag (white space, an optional slash, a name, attributes with new names, an optional slash, `>`), of a declaration, comment, CDATA section, unknown or text is read as that token, with exactly its strings, in full; the forms are written out in bytes |
| Tokens.LexedIsText | lib/tinyxml2/tinyxml2.cpp:460-533 | and no other text is read as a token |
| Tokens.NothingLeftIff | lib/tinyxml2/tinyxml2.cpp:460-470 | nothing is left to read exactly where only TAB, LF, VT, FF, CR and spaces are |
| Tokens.SpaceIsSkipped | lib/tinyxml2/tinyxml2.cpp:460-470 | such bytes in front of a tag or leaf change nothing |
| Tokens.LeafWithoutTail | lib/tinyxml2/tinyxml2.cpp:865-978 | `<?`, `<!--`, `<![CDATA[` or `<!` without its `?>`, `-->`, `]]>` or `>`: each has its own error |
| Tokens.TextWithoutTag | lib/tinyxml2/tinyxml2.cpp:816-836 | a text that no `<` ends, and one whose `<` is the last byte, have two different errors |
| Tokens.TagWithoutName | lib/tinyxml2/tinyxml2.cpp:1348-1364 | a `<` with no letter behind it ends the parse with the general error |
| Tokens.TagWithoutEnd | lib/tinyxml2/tinyxml2.cpp:1294-1336 | a tag that neither goes on nor ends behind its attributes has the error of elements |
| Tokens.TagWithBadAttribute | lib/tinyxml2/tinyxml2.cpp:1303-1311 | a letter in a tag where no attribute of any form stands has the error of attributes |
| Tokens.TextBehindMark | lib/tinyxml2/tinyxml2.cpp:250-263 | white space and the bytes EF BB BF are skipped, and the mark is noted |
| Tokens.TextWithoutMark | lib/tinyxml2/tinyxml2.cpp:1619-1640 | without the mark the text begins at its first byte that is not white, and none is noted |
| Soundness.ParserIsSound | lib/tinyxml2/tinyxml2.cpp:738-813 | a parse without error has consumed a balanced word of tags with equal names, up to the end or a stray closing tag, and its tree is the one that a reader with a stack builds from that word |
| Soundness.ParserIsComplete | lib/tinyxml2/tinyxml2.cpp:738-813 | the converse: a text whose tokens form such a word is parsed without error, to the tree of that word |
| FlatParsing.ErrorIsFlat | lib/tinyxml2/tinyxml2.cpp:738-813 | which error a parse ends with: the same as a flat reading of the tokens with the names of the open elements on a stack, for every text |
| FlatParsing.NoResultIff | lib/tinyxml2/tinyxml2.cpp:1288-1340 | a parse reads through a null pointer if and only if the flat reading stops at a tag that repeats a name and the value of the first attribute with that name has, where decoding comes to it, a reference without a semicolon or with a byte that is no digit |
| FlatParsing.ParseWithoutResult | lib/tinyxml2/tinyxml2.cpp:1303-1311 | a text on which the parse has no result |
| FlatParsing.RepeatFails | lib/tinyxml2/tinyxml2.cpp:1303-1311 | the first repeated attribute name of a tag ends its parse with an error, whatever follows in the tag |
| FlatParsing.StrayCloseEndsParse | lib/tinyxml2/tinyxml2.cpp:776-783 | a text whose end is dropped without an error |
| FlatParsing.WholeTextIff | lib/tinyxml2/tinyxml2.cpp:757-783 | after a parse without error, the whole text was read if and only if only white space is left where the flat reading stops; otherwise a closing tag outside all elements stands there |
| FlatParsing.SlashedTagIsNode | lib/tinyxml2/tinyxml2.cpp:1348-1371 | a closing tag that is read as an empty element |
| FlatParsing.SlashedTagIff | lib/tinyxml2/tinyxml2.cpp:1320-1371 | a tag that begins with a slash becomes a node if and only if it is well formed and ends in a slash too, and closes an element if and only if it does not |
| XMLDocuments.XMLDocument.Parse | lib/tinyxml2/tinyxml2.cpp:1619-1646 | the parser on the heap builds, for every text, the tree, the error and the byte order mark of the parser function; before and after, nodes form a tree, every chunk in use belongs to exactly one node or attribute of it, and every string stands undamaged on bytes of its own |
| XMLDocuments.XMLDocument.ParseDeep | lib/tinyxml2/tinyxml2.cpp:738-813 | a level of the parser links the nodes of the function, reports its error or its closing tag, writes nothing from the cursor on, and keeps the account of chunks |
| XMLDocuments.XMLDocument.ParseAttributes | lib/tinyxml2/tinyxml2.cpp:1288-1340 | the attribute loop reads what the function reads, although it decodes names in the buffer that is still being parsed |
| Syntax.AttrIsRead | lib/tinyxml2/tinyxml2.cpp:1003-1022 | a name, white space, `=`, white space, a quote or apostrophe, bytes without that, and the same again are read as an attribute with exactly that name and value |
| Syntax.ReadIsAttr | lib/tinyxml2/tinyxml2.cpp:1003-1022 | and nothing else is |
| Syntax.RunIsRead | lib/tinyxml2/tinyxml2.cpp:1288-1340 | attributes written one behind the other, with or without white space between them, are read one after the other |
| Syntax.ReadIsRun | lib/tinyxml2/tinyxml2.cpp:1288-1340 | whatever is read as the attributes of a tag was written so, with distinct names |
| Syntax.TagIsRead | lib/tinyxml2/tinyxml2.cpp:1348-1371 | a tag written out, white space included, is read as that tag |
| Syntax.ReadIsTag | lib/tinyxml2/tinyxml2.cpp:1348-1371 | and nothing else is |
| XMLDocuments.XMLDocument.ReadDuplicate | lib/tinyxml2/tinyxml2.cpp:1307 | the value read along with a repeated name: the answer is `NullRead` exactly if the text of that value has no decoding |
| XMLDocuments.XMLDocument.CheckEndTag | lib/tinyxml2/tinyxml2.cpp:787-807 | an element is accepted exactly if its closing tag has its name, with names compared in the buffer where decoding has begun |
| XMLDocuments.XMLDocument.NewNode | lib/tinyxml2/tinyxml2.cpp:494-529 | a new node takes one chunk of the pool of its class: elements, texts and CDATA sections, or the other leaves |
| XMLDocuments.XMLDocument.DeleteChild | lib/tinyxml2/tinyxml2.cpp:609-613 | a child of any node is unlinked and destroyed with its attributes and everything below it; exactly their chunks go back, each to its own pool, and the other nodes keep their strings and children |
| XMLDocuments.XMLDocument.DeleteTopNode | lib/tinyxml2/tinyxml2.cpp:561-613 | a document stays valid when one of its children is deleted, and its tree loses just that child |
| XMLDocuments.XMLDocument.DeleteChildren | lib/tinyxml2/tinyxml2.cpp:579-588 | the same for all children of a node, which is left without any |
| XMLDocuments.XMLDocument.Clear | lib/tinyxml2/tinyxml2.cpp:1441-1457 | after the children of a valid document are deleted, no pool has a chunk in use |
| XMLDocuments.XMLDocument.GetString | lib/tinyxml2/tinyxml2.cpp:165-243 | reading any string of a parsed document gives the decoding of its piece of the original text and leaves every other string as it was |
| XMLDocuments.XMLDocument.GetStrings | lib/tinyxml2/tinyxml2.cpp:165-243 | strings read in any order, each any number of times, all stand in the buffer at the end, each the decoding of its piece of the text |
| StrPairs.GetStr | lib/tinyxml2/tinyxml2.cpp:165-243 | the loop with a read and a write pointer in one buffer leaves the decoding of the range and a NUL, and no byte outside the inclusive range changes |
| DecodedText.DecodeItems | lib/tinyxml2/tinyxml2.cpp:175-238 | a text put together from characters, the four line ends, the five entities and numeric references, all written out in bytes, is read as what they stand for |
| DecodedText.LineEndsAreOne | lib/tinyxml2/tinyxml2.cpp:176-196 | lines that end in LF, CR, CR LF or LF CR are read as ending in LF (XML 1.0 section 2.11, and LF CR) |
| DecodedText.NamedEntities | lib/tinyxml2/tinyxml2.cpp:71-80 | `&quot;`, `&amp;`, `&apos;`, `&lt;` and `&gt;` are read as the bytes 34, 38, 39, 60 and 62 |
| DecodedText.PassedOverIff | lib/tinyxml2/tinyxml2.cpp:212-230 | an `&` is passed over exactly if none of the five entities and no `&#` stands there |
| DecodedText.LeafText | lib/tinyxml2/tinyxml2.cpp:816-885 | which strings are read with entities: texts are, the other leaves are not; line ends are read in all of them |
| DecodedText.AttrText | lib/tinyxml2/tinyxml2.cpp:1003-1022 | attribute values are read with both, names as they stand |
| Decoding.DecodeIsMeaning | lib/tinyxml2/tinyxml2.cpp:171-238 | a text has no decoding if and only if the read pointer comes to a malformed reference; otherwise decoding in place gives what a reader expects if and only if every unrecognised `&` falls on a `&` under the write pointer |
| CharRef.NullIsMalformed | lib/tinyxml2/tinyxml2.cpp:320-367 | the null pointer is the answer exactly to a reference without a semicolon, or with a byte that is no digit between it and the nearest `x` or `#` in front of it |
| Decoding.BareAmpersandIsLost | lib/tinyxml2/tinyxml2.cpp:212-230 | texts for which it does not: behind `&lt;` a bare `&` is read as `l` |
| Escaping.EscapedBytes | lib/tinyxml2/tinyxml2.cpp:1695-1707 | which bytes are written as which entity in texts and in attributes, and that all others are left alone |
| Escaping.EscapeIsSafe | lib/tinyxml2/tinyxml2.cpp:1756-1791 | no byte of an escaped string can end the attribute or the text it stands in |
| Escaping.EscapeDecode | lib/tinyxml2/tinyxml2.cpp:1756-1791 | a string without CR is the decoding of its escaped form, for both entity tables |
| Escaping.EscapeParse | lib/tinyxml2/tinyxml2.cpp:114-131 | with its terminator behind it, the scan stops exactly at that terminator and the range decodes to the string |
| Escaping.NewlineDecode | lib/tinyxml2/tinyxml2.cpp:176-196 | a string without CR that is printed as it is, as in comments, is its own decoding |
| CharRef.Utf8ReadsBack | lib/tinyxml2/tinyxml2.cpp:266-308 | below 0x200000 the bytes written carry the number and no shorter sequence does (RFC 3629 section 3) |
| CharRef.ConvertUTF32ToUTF8 | lib/tinyxml2/tinyxml2.cpp:266-308 | filling the output backwards with masks and shifts writes the UTF-8 form by division and nothing else, and nothing from 0x200000 on |
| CharRef.HexIsExactBelow32Bits | lib/tinyxml2/tinyxml2.cpp:335-348 | a hexadecimal numeral is read modulo 2^32, exactly if and only if it is below 2^32 |
| CharRef.DecimalIsExactBelowFiveBillion | lib/tinyxml2/tinyxml2.cpp:362-370 | a decimal numeral is never read as more than its value, and exactly if and only if that is below 5 * 10^9 |
| CharRef.WideReferenceWraps | lib/tinyxml2/tinyxml2.cpp:335-348 | a hexadecimal reference that is read as another character |
| CharRef.WideDecimalWraps | lib/tinyxml2/tinyxml2.cpp:362-370 | the smallest decimal numeral that is misread, and as what |
| CharRef.WellFormedReference | lib/tinyxml2/tinyxml2.cpp:311-377 | a well-formed reference moves the cursor behind its semicolon and writes no more bytes than it had; they carry the number of the numeral if and only if it is below 0x200000 |
| Numerals.NumeralReference | lib/tinyxml2/tinyxml2.cpp:311-377 | `&#x` or `&#`, the numeral of a number below 2^32 written by repeated division with capital or small digits, and `;` are read as that number, in full |
| Numerals.OnlyDigits | lib/tinyxml2/tinyxml2.cpp:335-371 | and no other byte is a digit |
| CharRef.GetCharacterRef | lib/tinyxml2/tinyxml2.cpp:311-377 | the code on the buffer, for every text behind `&`: the null pointer, the cursor or the bytes of the function, also for malformed references and where there is none |
| Nodes.XMLNode.InsertEndChild | lib/tinyxml2/tinyxml2.cpp:616-636 | appends to the list of children, which stays linked in both directions |
| Nodes.XMLNode.InsertFirstChild | lib/tinyxml2/tinyxml2.cpp:639-660 | prepends to it |
| Nodes.XMLNode.InsertAfterChild | lib/tinyxml2/tinyxml2.cpp:663-681 | inserts behind a child, and changes nothing if the given node is not a child |
| Nodes.XMLNode.Unlink | lib/tinyxml2/tinyxml2.cpp:591-606 | takes a child out of the list, whose own `prev` and `next` stay stale |
| DocumentAccess.FirstChildElement | lib/tinyxml2/tinyxml2.cpp:684-695 | following `next`, the first child that is an element, and has the name in the text if one is asked for; names are decoded on the way and the document stays valid |
| DocumentAccess.LastChildElement | lib/tinyxml2/tinyxml2.cpp:698-709 | following `prev` from the end, the last such child: both directions see the same children |
| Nodes.ApplyAll | lib/tinyxml2/tinyxml2.cpp:591-681 | any run of the four operations, on nodes with any stale pointers, does to the linked list what it does to a sequence |
| AttributeLists.LookupAfterRun | lib/tinyxml2/tinyxml2.cpp:1242-1285 | after any run of sets and deletes the names are distinct and a name has the value last given to it |
| AttributeLists.OrderAfterSet | lib/tinyxml2/tinyxml2.cpp:1242-1266 | names keep the order of their first insertion |
| AttributeLists.OrderAfterDelete | lib/tinyxml2/tinyxml2.cpp:1269-1285 | a delete removes exactly the one name and keeps the order of the others |
| AttributeLists.AttributeList.SetAttribute | lib/tinyxml2/tinyxml2.h:922 | the linked list does what the map does; a new name takes exactly one chunk, a known one none |
| AttributeLists.AttributeList.FindOrCreateAttribute | lib/tinyxml2/tinyxml2.cpp:1242-1266 | finds the attribute, or links a new one behind the last, in a chunk that was not in use |
| AttributeLists.AttributeList.DeleteAttribute | lib/tinyxml2/tinyxml2.cpp:1269-1285 | the linked list without the attribute, whose chunk and no other goes back to the pool |
| AttributeLists.AttributeList.LinkParsed | lib/tinyxml2/tinyxml2.cpp:1288-1340 | the attributes read from a tag are linked in their order up to the first repeated name, all of them if and only if the names are distinct; only the linked ones keep a chunk, the rejected one gives its own back |
| ElementAttributes.ParsedNamesApart | lib/tinyxml2/tinyxml2.cpp:1288-1340 | in no element of the tree that a parse leaves, failed or not, does an attribute name come twice |
| ElementAttributes.ElementNamesApart | lib/tinyxml2/tinyxml2.cpp:1288-1340 | the same for every element on the heap below a parsed document |
| ElementAttributes.ElementIsMap | lib/tinyxml2/tinyxml2.cpp:1134-1164 | the decoded attributes of such an element are a map: setting them one by one builds them, and lookup in the map and `FindAttribute` over the text agree |
| DocumentAccess.FindAttribute | lib/tinyxml2/tinyxml2.cpp:1134-1142 | on the heap, for any name and whatever was read before: the attribute that is first with this name in the text, with the document still valid |
| DocumentAccess.Attribute | lib/tinyxml2/tinyxml2.cpp:1156-1164 | no answer exactly if no attribute has the name or the first that has it has another value than the one asked for; otherwise the value of that attribute, as a C string |
| MemPools.MemPool.Alloc | lib/tinyxml2/tinyxml2.h:265-284 | the chunk handed out was not in use, and it is the first free one, of a new block exactly if none was free; free list and chunks in use divide all chunks of all blocks, the free list has no cycle, and the counters follow |
| MemPools.MemPool.Free | lib/tinyxml2/tinyxml2.h:285-292 | exactly that chunk becomes free, in front of the list |
| DynArrays.DynArray.EnsureCapacity | lib/tinyxml2/tinyxml2.h:213-222 | growing keeps the contents, copies each element once and doubles the wanted capacity, exactly if it was not there |
| DynArrays.DynArray.Push | lib/tinyxml2/tinyxml2.h:181-185 | appends, and the largest size follows the size |
| DynArrays.DynArray.PushArr | lib/tinyxml2/tinyxml2.h:187-193 | room behind the old contents, which stay |
| DynArrays.DynArray.Run | lib/tinyxml2/tinyxml2.h:181-222 | over any run of pushes and pops, all growths together copy fewer than twice as many elements as the array held at its largest |
| DynArrays.PushAll | lib/tinyxml2/tinyxml2.h:181-222 | `n` pushes on a new array copy fewer than `2 * n` elements |
| Printer.XMLPrinter.Print | lib/tinyxml2/tinyxml2.cpp:1712-1745 | the text goes in the place of the NUL, and a new NUL behind it |
| Printer.XMLPrinter.PrintAll | lib/tinyxml2/tinyxml2.cpp:1712-1745 | after any run of `Print` the buffer is all the output and one NUL, and fewer elements were copied than twice its size |
| Printer.XMLPrinter.PrintString | lib/tinyxml2/tinyxml2.cpp:1756-1791 | the runs between flagged bytes and their entities together are the escaped string |
| Printer.XMLPrinter.CloseElement | lib/tinyxml2/tinyxml2.cpp:1866-1887 | pops the name and prints the end of the element that the function prescribes for the printer's state, with the state that follows |
| DocumentPrinting.PrintNode | lib/tinyxml2/tinyxml2.cpp:2006-2049 | visiting a node on the heap, reading each string when it comes to it, prints exactly the text of the tree that a reader sees, and leaves the stack of names and the document as they were |
| DocumentPrinting.Print | lib/tinyxml2/tinyxml2.cpp:1649-1655 | the memory of a new printer holds the printed form of the tree as it is seen in the text, byte order mark included; the document stays valid and can be printed again |
| DocumentPrinting.ParsePrintParse | lib/tinyxml2/tinyxml2.cpp:1619-1655 | the round trip on the heap: a document parsed from a text with clean strings, printed and parsed again, has the same strings in the same tree |
| Heci.ChunkFitsMessage | lib/heci/heci.c:399-401 | 496 is the largest multiple of four with which a reply still fits the 9-bit length field; the reply then has at most 508 bytes |
| Heci.Receive | lib/heci/heci.c:297-355 | for every length of one message: the words that arrive before the limit stand over what the host had written, and the status is 1 exactly if one is missing; a store behind the buffer is the outcome exactly if more words arrive than it holds |
| Heci.StoresStayInside | lib/heci/heci.c:323-330 | for every length field, all stores that the guard lets through are inside the buffer if and only if the length is at most that of the buffer |
| Heci.GetAttkb | lib/heci/heci.c:447-515 | for every device and every buffer, the loop over the chunks delivers the rounds one behind the other, gives up, runs out of bounds or goes on, exactly as the function says, and touches nothing behind the announced size |
| HeciTransfers.RequestOnWire | lib/heci/heci.c:470-478 | the bytes of every request: group, command, offset, the smaller of 496 and what is left, and the flag |
| HeciTransfers.ReplyOnWire | lib/heci/cse_msg.h:77-85 | the bytes of a reply, field by field |
| HeciTransfers.RoundByReply | lib/heci/heci.c:483-505 | a round gives up if and only if an error result arrived or the reply reads more than was asked for; otherwise it takes the data of the reply as far as they arrived |
| HeciTransfers.SizeByReply | lib/heci/heci.c:404-445 | the size is zero if an error result arrived, and otherwise that of the reply as far as it arrived |
| HeciTransfers.TransferRounds | lib/heci/heci.c:468-513 | a device that answers in full is asked exactly once for every 496 bytes and once for the rest |
| HeciTransfers.TransferIsExact | lib/heci/heci.c:404-515 | with a device that holds a file and a buffer of any size: the transfer gives up exactly if the size did not arrive, runs out of bounds exactly if it did and the file is longer than the buffer, and otherwise yields as many bytes, the file if and only if all bytes cut off by a limit are zero in it; as many rounds as bytes are enough |
| HeciTransfers.CopiesStayInside | lib/syscall/syscall_x86.c:109-115 | with the buffer of 16384 bytes that the caller allocates, every copy stays inside if and only if the size does not arrive or the file has at most that many bytes |
| HeciTransfers.LargeFileOverruns | lib/heci/heci.c:495-503 | a device with a file one byte longer, from which it does not |
| HeciTransfers.ProgressEnds | lib/heci/heci.c:468-513 | a device that brings something in every reply is asked at most once a byte |
| HeciTransfers.SilentDeviceNeverEnds | lib/heci/heci.c:468-513 | a device that is asked for ever |
| HeciTransfers.TransferNeverEndsIff | lib/heci/heci.c:404-515 | for every device: the transfer never ends if and only if, after some rounds that fit, all further replies read nothing while bytes are still to come |
| HeciTransfers.TransferNeedsData | lib/heci/heci.c:404-515 | the condition on the replies alone: where there is room for it, a file without zero bytes is transferred if and only if its size and all data words of the replies arrive; for other files that is enough |
| HeciTransfers.TransferBringsFile | lib/heci/heci.c:404-515 | when every reply arrives in full, the host gets a file that fits the buffer of the caller |
| HeciTransfers.LateDataIsNotNoticed | lib/heci/heci.c:483-490 | a device from which the host takes a wrong byte for the file |
| Uart.EarlyLog.Putc | debug.c:80-118 | the ring, with its two indices modulo 4096, keeps the window of the stream that the log describes, drops the oldest byte when it is full, and sends the window in order |
| Uart.EarlyBytes | debug.c:97-110 | before the port can be used nothing is sent, and the newest 4095 bytes in front of the last one put wait |
| Uart.WhatThePortReceives | debug.c:97-118 | over the whole life of the log the port gets the newest early bytes, behind a zero if none was dropped, and all later ones in order but the last |

## Left out

- `DeleteChild` on a child of an element, and inserting nodes into a parsed document, keep the parts of the heap and the accounts (`XMLDocuments.XMLDocument.DeleteChild`, `Ownership.Adopt`); that the whole document stays valid is proved for the deletion of its own children only.
- The attribute list of a node of the document is a sequence of cells there, and a linked list in `AttributeLists`; `ElementAttributes` and `DocumentAccess` relate their contents, not their addresses. Chunks are accounted for in both.
- After `NullRead` the model goes on as after an error, and after a store out of bounds it says nothing; the code has no defined behaviour there. `GetString` is for strings that have a decoding, as the code has no result for the others.
- A decoded string may hold a NUL, which `&#0;` puts there. Callers and the printer see it up to that NUL (`DocumentAccess.CString`); the strings of `GetString` and `GetStrings` are the whole decoding.
- `processEntities == false`, in the document and in the printer.
- Plain text at the top level of a document, and adjacent or blank plain texts: the round trip does not hold for them, and `RoundTrip.PrintThenParse` is for documents without them.
- Strings set by the caller (`StrPair::SetStr`, `SetValue`, `NewElement` and its siblings): values are byte sequences in `AttributeLists`.
- Sibling navigation, `ShallowClone` and `ShallowEqual`; visitors other than the printer.
- `vsnprintf`: the printer is given the expanded text. Printing to a file, `LoadFile`, `SaveFile`, `LoadXmlData`, `PrintError` and error strings.
- Number conversions (`ToInt`, `QueryIntAttribute` and the like) and `XMLHandle`: thin wrappers.
- Sizes beyond `int`: lengths of texts, arrays and pools are unbounded numbers here. A failed `new` is not modelled.
- Messages of more than one fragment, the sending of the request, the reset of the interface, register access and timers of the transfer; `Heci.Device` says how many words of a reply arrive in time. A reply is as long as its own field `ReadSize` says.
- Waiting for the transmit register and the choice of the port in `debug.c`.
- The rest of the repository: boot code, interrupt and memory set-up, PCI and SPI access, key wrapping.
