# CNC remote: the XML library and the client/server protocol

This project models two parts of the CNC remote repository in Dafny and proves what they promise.

**The XML library** (`drivers/Mach3/tinyxml2.cpp`, `drivers/Mach3/tinyxml2.h`), which the Mach3 driver reads its settings
with.

- A document is read from one character buffer. Names and values are spans of it that are terminated, decoded and
  normalised in place when they are first read (`InPlaceDecoder.dfy`, `StrPairs.dfy`); what this does to a string is
  described by functions on values (`XmlText.dfy`, `CharacterRefs.dfy`, `Utf8Codec.dfy`).
- The parser is given twice: as a function of the remaining text (`XmlGrammar.dfy`), and as the object that moves
  through the buffer with its line counter, depth counter and first error (`XmlDocument.dfy`). The object is proved to
  do what the function says, for every text, and to give every node and attribute the line at which it is read
  (`NodeLines.dfy`), and to an error the line it is about (`ErrorLines.dfy`).
- The printer is given as functions of the tree (`XmlPrint.dfy`, `XmlLayout.dfy`, `XmlEscape.dfy`) and as the visitor
  object (`XmlPrinter.dfy`).
- `XmlRoundTrip.dfy` proves that compact output is read back exactly, `XmlPretty.dfy` what becomes of pretty output and
  exactly when it is read back unchanged, `XmlParsed.dfy` what every successful parse gives, `XmlReprint.dfy` which
  parsed documents can be printed and parsed again, `XmlFixpoint.dfy` that no other tree comes back, `XmlSpans.dfy` what
  becomes of one text in a file, and `XmlReload.dfy` puts printer object and parser object together.
- `XmlSyntax.dfy` says what the files are that parse, and to what, in terms of what stands in them; `XmlErrors.dfy`
  says the same of the files that are refused, `XmlErrorLines.dfy` on which line, `XmlLeaks.dfy` with which nodes
  discarded, and `XmlLines.dfy` has the lines of what is read. `XmlNewlines.dfy`, `XmlReferences.dfy` and
  `XmlWords.dfy` say what line ends, references and white space are read as, and `XmlIndent.dfy` what is printed, each
  in terms of the characters.
- The linked nodes of a document are a heap of objects: sibling lists (`SiblingLists.dfy`), the forest they form with
  the list of unlinked nodes and the counters (`XmlDom.dfy`), the trees linked nodes stand for (`DomTrees.dfy`), what a
  parse does with the nodes it makes (`NodeAccounting.dfy`, `ParsedNodes.dfy`, `XmlReading.dfy`), deep copies
  (`XmlClone.dfy`, `XmlCopies.dfy`), and below them the growable array, the pool and the counters of the four pools
  (`DynArrays.dfy`, `MemPools.dfy`, `PoolCounters.dfy`).

**The client/server protocol** (`src/cncclient.cpp`, `src/cncserver.cpp`, `include/cnccomms.h`).

- `StatusProtocol.dfy` is the status protocol as steps over two FIFO channels, with the callback thread's two writes
  and the two halves of `Poll` as separate steps; `CncClient.dfy` has the client's objects, proved to do those steps.
- `Upload.dfy` is the upload of a file in blocks, `LogDelivery.dfy` the delivery of the server's log.

A byte is a `char`, and a C string is a `string`. `unsigned long` has 32 bits, as on Windows, where the Mach3 driver is
built. A representable document (`XmlPrint.DocumentOk`) has well-formed names, distinct attribute names in each element,
no NUL and no carriage return, no end delimiter inside a leaf, no adjacent or blank plain texts, declarations only at its
front, nesting below the limit, and no plain text at its end; plain text at the document's own level is allowed elsewhere.

What the model shows of the code, besides what it promises:

- An unknown named entity that comes after a shortened entity keeps a stale character (`XmlText.StaleCharacterExample`,
  `XmlSpans.StaleDocumentExample`); `XmlText.RewriteDecodesExactlyWhen` says when the result is right, and
  `XmlSpans.DocumentIsMeantExactlyWhen` when a document is.
- Pretty printing adds indentation to a text that an element follows (`XmlPretty.MixedContentChanges`);
  `XmlPretty.PrettyRoundTripsExactlyWhen` says which trees come back.
- `InsertAfterChild` follows a null pointer in exactly one case (`XmlDom.DocumentTree.InsertAfterChild`,
  `XmlDom.InsertLastAfterFirst`).
- `RemoteCall::OnResponse` raises `m_hasResponse` before it lowers `m_busy`; a Poll in between reads the same reply twice,
  and the client can then report idle too early (`StatusProtocol.StaleIdleInTheWindow`);
  `StatusProtocol.SafeThroughoutExactlyWhen` says exactly which runs are affected. The status call is private in `Client`:
  no caller can see the situation. `Poll` can, and if it returned at once while the call has a response and is busy, no
  run would be affected (`StatusProtocol.GuardedPollHasNoStaleIdle`).
- A finished upload leaves a closed handle behind, which the next `SendInit` closes again
  (`Upload.InitDefinedExactlyWhen`, `Upload.UploadAgain`); a temporary file that was made but could not be opened is left
  behind unless a later file is given the same name (`Upload.LeftBehindExactlyWhen`); and a temporary file opened in text
  mode does not hold the bytes sent (`Upload.StoredAsIsExactlyWhen`). The comments on `SendInit` and `SendData` in
  `include/cncserver.h` mention none of this; the model follows the code.
- `GetNextError` returns an empty string also when its call failed, not only when nothing is pending as its comment in
  `include/cncclient.h` has it; the entry is then asked for again (`LogDelivery.EmptyExactlyWhen`,
  `LogDelivery.EmptyWhilePending`).

`dafny verify dfyconfig.toml` checks everything. The claims rest on that alone.

## Model

| member | source | states |
|---|---|---|
| XmlRoundTrip.RoundTrip | drivers/Mach3/tinyxml2.cpp:988-1100 | for every representable document, in every combination of entity processing and white-space mode, parsing its compact print gives exactly that document |
| XmlRoundTrip.ListIsTaken | drivers/Mach3/tinyxml2.cpp:988-1100 | a printed child list, at any depth and in front of any text, is read back child by child and leaves that text |
| XmlRoundTrip.NodeIsTaken | drivers/Mach3/tinyxml2.cpp:656-723 | a printed node of any kind is identified and read back whole, and exactly what follows it is left |
| XmlRoundTrip.MarkedLeafIsTaken | drivers/Mach3/tinyxml2.cpp:656-723 | comments, declarations, CDATA and unknown nodes are told apart by their headers, in the order the headers are tried, and end at their own end tag |
| XmlRoundTrip.TextIsTaken | drivers/Mach3/tinyxml2.cpp:1147-1171 | printed text, with leading and inner white space, is read back as the same text and gives back the tag that ended it |
| XmlRoundTrip.AttributesAreTaken | drivers/Mach3/tinyxml2.cpp:1815-1871 | a printed attribute list is read back in order after any attributes with other names, with the right kind of tag end |
| XmlRoundTrip.SpanIsTaken | drivers/Mach3/tinyxml2.cpp:193-215 | a span without its end tag, followed by the tag and any text, ends at that tag and not before |
| XmlRoundTrip.NameIsTaken | drivers/Mach3/tinyxml2.cpp:218-235 | a name followed by anything but a name character is taken whole |
| XmlParsed.ParsedIsStructured | drivers/Mach3/tinyxml2.cpp:2380-2394 | whatever the text, a parse that succeeds gives elements with well-formed names and pairwise distinct attribute names, declarations only at the front of the document, and nesting within the limit |
| XmlParsed.TakenAttributesAreTold | drivers/Mach3/tinyxml2.cpp:1815-1871 | the attributes of every tag that parses have well-formed, pairwise distinct names |
| XmlParsed.LevelIsStructured | drivers/Mach3/tinyxml2.cpp:2396-2402 | no child list deeper than the limit is ever read, and the heights of the children read fit under it |
| XmlPretty.LayoutIsTaken | drivers/Mach3/tinyxml2.cpp:2561-2659 | parsing what the printer writes, in either mode, gives the document with each plain text extended by exactly the layout white space that touches it |
| XmlPretty.LayoutRoundTripsExactlyWhen | drivers/Mach3/tinyxml2.cpp:2561-2579 | the printed document parses to itself if and only if white space is collapsed on reading or no plain text touches layout white space |
| XmlPretty.UnmixedRoundTrip | drivers/Mach3/tinyxml2.cpp:2561-2659 | both modes round-trip every document whose child lists do not mix plain text with elements |
| XmlPretty.PrettyRoundTripsExactlyWhen | drivers/Mach3/tinyxml2.cpp:2561-2659 | with white space kept on reading, the pretty-printed document parses to itself if and only if, at any depth inside its children, no plain text stands directly before an element, and no plain text of its own level comes after an element, or before something that is not text and not the first such thing |
| XmlPretty.SnugBelowExactlyWhen | drivers/Mach3/tinyxml2.cpp:2566-2571 | below the level of the document exactly the plain texts directly before an element take layout in, whatever the state of the printer |
| XmlPretty.MixedContentChanges | drivers/Mach3/tinyxml2.cpp:2566-2571 | pretty printing changes every document that has, at any depth inside a child of it, a plain text directly before an element, when white space is kept |
| XmlPretty.ListIsLaid | drivers/Mach3/tinyxml2.cpp:2633-2659 | the layout of any child list, in any printer state, is read back as the padded list and leaves what follows |
| XmlPretty.CollapseDropsPadding | drivers/Mach3/tinyxml2.cpp:238-264 | collapsing removes padding on both sides of a text and nothing else |
| XmlReload.Reload | drivers/Mach3/tinyxml2.cpp:2285-2326 | printing with the printer object and parsing with the parser object gives the padded document, and in compact mode the document itself |
| XmlReload.LayoutHasNoNul | drivers/Mach3/tinyxml2.cpp:2460-2470 | the printed form of a representable document is a C string, so the parser sees all of it |
| XmlReprint.ParsedIsRepresentableExactlyWhen | drivers/Mach3/tinyxml2.cpp:2380-2394 | for every text that parses: the document is representable if and only if it has a node, no text or attribute value has a carriage return, no text is blank, without entity processing no attribute value has a double quote, the last child is no text, and a first text could not be taken for white space or a byte order mark; everything else a parse guarantees by itself |
| XmlReprint.ReprintedIsParsedAgain | drivers/Mach3/tinyxml2.cpp:2380-2394 | such a document, printed compactly, parses to itself |
| XmlFixpoint.PrintsBackExactlyWhen | drivers/Mach3/tinyxml2.cpp:2380-2394 | for every tree whatsoever, parsed or not: its compact print parses to it if and only if it is representable |
| XmlFixpoint.ListMisses | drivers/Mach3/tinyxml2.cpp:1002-1100 | of every list in which something cannot be given back, at any depth and in front of any text, another list is read |
| XmlFixpoint.AttributesMiss | drivers/Mach3/tinyxml2.cpp:1815-1871 | of attributes one of which has a carriage return, or a double quote that is not escaped, other attributes are read |
| XmlFixpoint.TextIsReadAs | drivers/Mach3/tinyxml2.cpp:1147-1171 | what is read of a printed text has no carriage return and is no longer; nothing is read of a blank text, or at the end |
| XmlSyntax.ParsesExactlyWhen | drivers/Mach3/tinyxml2.cpp:2380-2394 | exactly which texts parse, and to what: a text parses without an error if and only if it can be written in the form of FileFits (leading white space, a byte order mark or none, nodes nested less than 99 deep whose tags close by their own names, declarations first, and at the end white space or a stray closing tag and anything), and every such text parses to what it says |
| XmlSyntax.FileIsRead | drivers/Mach3/tinyxml2.cpp:2380-2394 | every file of that form is parsed, with all options, to the tree that is written in it |
| XmlSyntax.ParsedIsWritten | drivers/Mach3/tinyxml2.cpp:2380-2394 | and every text that is parsed without an error has that form |
| XmlSyntax.ValueIsRead | drivers/Mach3/tinyxml2.cpp:1366-1380 | white space on both sides of the equals sign is passed, and the value ends at the next quote of the kind that opened it, single or double |
| XmlSyntax.AttributeIsRead | drivers/Mach3/tinyxml2.cpp:1356-1381 | an attribute with any name, any white space around the equals sign and either quote is read as that name and the value of its span, and leaves what follows |
| XmlSyntax.AttributesReach | drivers/Mach3/tinyxml2.cpp:1815-1871 | any list of attributes with different names is read in order, up to whatever follows it |
| XmlSyntax.TagIsRead | drivers/Mach3/tinyxml2.cpp:1898-1925 | a tag is read wherever the white space in it is, as an open, sealed or closing one; a slash in front of a sealed tag makes no difference |
| XmlSyntax.NodeIsRead | drivers/Mach3/tinyxml2.cpp:1002-1100 | a node written in any way is read as what it says, with whatever text after it |
| XmlSyntax.ClosingIsRead | drivers/Mach3/tinyxml2.cpp:1064-1073 | a closing tag is handed up with its name, whatever attributes it has |
| XmlErrors.RefusedExactlyWhen | drivers/Mach3/tinyxml2.cpp:2380-2402 | exactly which texts are refused, and with which error: those with nothing but white space and perhaps the byte order mark, with XML_ERROR_EMPTY_DOCUMENT, and those with one of twelve faults, at any depth, each with its own error and with the nodes before it read |
| XmlErrors.FaultyIsRefused | drivers/Mach3/tinyxml2.cpp:2380-2402 | every file with a fault, at any depth, is refused with the error of the fault |
| XmlErrors.RefusedIsFaulty | drivers/Mach3/tinyxml2.cpp:2380-2402 | and every file that is refused and not empty has a fault |
| XmlErrors.ClosedIsMet | drivers/Mach3/tinyxml2.cpp:1075-1097 | an open tag with any attributes and any children that can be written, then a closing tag: the element if the names are equal, XML_ERROR_MISMATCHED_ELEMENT if they are not |
| XmlErrors.ElementFile | drivers/Mach3/tinyxml2.cpp:1075-1097 | a whole file of one element: read if its closing tag has its name, refused as mismatched, whatever comes after, if not |
| XmlErrors.UnclosedIsMet | drivers/Mach3/tinyxml2.cpp:1022-1031 | an element that never meets a closing tag gives XML_ERROR_PARSING |
| XmlErrors.CutOffIsMet | drivers/Mach3/tinyxml2.cpp:1078-1082 | and XML_ERROR_MISMATCHED_ELEMENT when its open tag is the last thing in the text |
| XmlErrors.TooDeepIsMet | drivers/Mach3/tinyxml2.cpp:2396-2402 | with 99 lists open, an open tag with something after it is refused with XML_ELEMENT_DEPTH_EXCEEDED |
| XmlErrors.UnendedIsMet | drivers/Mach3/tinyxml2.cpp:1147-1154 | a mark that does not end gives the error of its kind |
| XmlErrors.MisplacedStops | drivers/Mach3/tinyxml2.cpp:1033-1061 | a declaration inside an element, or after anything but declarations, is read and refused |
| XmlErrors.OptionsDoNotDecide | drivers/Mach3/tinyxml2.cpp:2380-2402 | whether a text is refused, and with what error, is the same under all options |
| XmlErrorLines.FaultyLine | drivers/Mach3/tinyxml2.cpp:988-1100 | a file with a fault is reported on the line of the place of the fault: one more than the line feeds in front of it |
| XmlErrorLines.FaultInListLine | drivers/Mach3/tinyxml2.cpp:988-1100 | the same for a fault in any list, at any depth and place of the text |
| XmlErrorLines.TagLine | drivers/Mach3/tinyxml2.cpp:1815-1871 | a bad or repeated attribute is reported on its own line, a tag without a name or without a proper end on the line of its element |
| XmlLines.FileIsLined | drivers/Mach3/tinyxml2.cpp:1002-1100 | in every file that is read, at any depth, each element is on the line of its `<`, each mark and text on the line of its first significant character, and each attribute on the line of its name: one more than the line feeds in front of it |
| XmlLines.AttributesStand | drivers/Mach3/tinyxml2.cpp:1815-1871 | the lines of the attributes of one tag, for any white space between them |
| XmlLeaks.FaultyLeaks | drivers/Mach3/tinyxml2.cpp:656-723 | a parse that fails discards, without having marked it as tracked, one element for each open element around the fault and one node of the kind of the fault, and no other |
| XmlLeaks.FaultLeaks | drivers/Mach3/tinyxml2.cpp:988-1100 | the same for a fault in any list, at any depth |
| XmlReprint.ListIsRead | drivers/Mach3/tinyxml2.cpp:988-1100 | whatever the text, no list read has two plain texts side by side, and every value lacks NUL, its own end delimiter and, where that applies, what would make it another kind of node |
| XmlReprint.CollapseTwice | drivers/Mach3/tinyxml2.cpp:238-264 | collapsing a collapsed text changes nothing |
| XmlText.RewriteDecodesExactlyWhen | drivers/Mach3/tinyxml2.cpp:276-355 | the two-cursor loop leaves the decoding of the span if and only if every character that an unknown entity keeps in place is the ampersand itself |
| XmlText.NoContractionSuffices | drivers/Mach3/tinyxml2.cpp:341-345 | that is so whenever no unknown entity comes after something that has shrunk |
| XmlText.StaleCharacterExample | drivers/Mach3/tinyxml2.cpp:341-345 | a span for which it is not, under the flags of texts and attribute values: an unknown entity after a contraction keeps an older character |
| XmlText.ValueIsMeaningExactlyWhen | drivers/Mach3/tinyxml2.cpp:267-365 | with and without white space collapsed, when the decoding has no NUL: the string read is what the span means if and only if no unknown entity keeps another character than its ampersand |
| XmlSpans.AroundIsRead | drivers/Mach3/tinyxml2.cpp:1147-1171 | for every name and every span without `<` that is not blank: an element around the span is a file that parses to the element with the value of the span as its text |
| XmlSpans.DocumentIsMeantExactlyWhen | drivers/Mach3/tinyxml2.cpp:1147-1171 | in either white-space mode that file parses to the document it means, when that has no NUL, if and only if no unknown entity keeps a stale character |
| XmlSpans.StaleDocumentExample | drivers/Mach3/tinyxml2.cpp:341-345 | a whole file that parses, without an error, to another text than it means |
| XmlNewlines.LineEndIsRead | drivers/Mach3/tinyxml2.cpp:280-302 | CR LF, LF CR, CR and LF each become one line feed, and the line before them stays as it is |
| XmlNewlines.AllEndsAreRead | drivers/Mach3/tinyxml2.cpp:280-302 | any text without carriage returns, with each of its line feeds written as CR LF, as CR or as LF CR, decodes to itself |
| XmlNewlines.EscapedEndsAreRead | drivers/Mach3/tinyxml2.cpp:280-302 | the same of escaped text, with entities decoded too |
| XmlNewlines.LineEndsDoNotMatter | drivers/Mach3/tinyxml2.cpp:280-302 | a whole file parses to the same document whichever of these line ends its text is written with |
| XmlWords.WhiteSpaceIs | drivers/Mach3/tinyxml2.h:566-570 | the six characters that are white space |
| XmlWords.NameCharactersAre | drivers/Mach3/tinyxml2.h:572-589 | the characters that begin and that continue a name, by their codes |
| XmlWords.CollapseJoinsWords | drivers/Mach3/tinyxml2.cpp:238-264 | collapsing gives the words with one space between them, whatever white space was around and between them |
| XmlWords.EveryTextIsWords | drivers/Mach3/tinyxml2.cpp:238-264 | every text is words with white space around and between them, so that this says all of it |
| XmlReferences.NumberIsRead | drivers/Mach3/tinyxml2.cpp:456-549 | the reference of every number, in decimal and in hexadecimal with letters of either case, is read as the UTF-8 form of that number in 32 bits |
| XmlReferences.LastNumberIsRead | drivers/Mach3/tinyxml2.cpp:483-530 | what the scan from the right does with odd references: only the digits behind the last stop count |
| XmlReferences.OddIsRefused | drivers/Mach3/tinyxml2.cpp:487-503 | a character that is no digit in front of the last digits makes a reference none |
| XmlReferences.UnendedIsRefused | drivers/Mach3/tinyxml2.cpp:477-481 | so does a missing semicolon |
| XmlReferences.EntitiesDecode | drivers/Mach3/tinyxml2.cpp:328-346 | the five named entities decode to their characters |
| XmlReferences.UnknownDecodes | drivers/Mach3/tinyxml2.cpp:341-345 | every other ampersand not before a hash stands for itself |
| XmlText.ValueIsMeaning | drivers/Mach3/tinyxml2.cpp:267-365 | without unknown entities the string read is the decoding of the span up to its first NUL, collapsed if that is asked for |
| XmlEscape.DecodeInvertsEscape | drivers/Mach3/tinyxml2.cpp:2494-2546 | decoding what PrintString wrote, with either escape set, is the same as normalising the newlines of the original, and meets no unknown entity |
| XmlEscape.EscapeLacks | drivers/Mach3/tinyxml2.cpp:2494-2546 | escaped text never contains the delimiter that would end it |
| XmlEscape.EscapedValue | drivers/Mach3/tinyxml2.cpp:2494-2546 | the value read from an escaped NUL-free string is its newline-normalised form, and the string itself when it has no carriage return |
| XmlEscape.RawValue | drivers/Mach3/tinyxml2.cpp:1212-1220 | without entity processing a string without NUL and carriage return is read back unchanged |
| XmlEscape.MarksAreEscaped | drivers/Mach3/tinyxml2.cpp:2494-2546 | no less-than or greater-than sign is left in what is written, with either set, and no quote when quotes are escaped |
| XmlEscape.AmpersandsBeginEntities | drivers/Mach3/tinyxml2.cpp:2494-2546 | every ampersand that is written begins one of the five entities |
| XmlEscape.EscapedAt | drivers/Mach3/tinyxml2.cpp:2494-2546 | each character is written by itself in its place: as its entity if it is one of the five (in text, of the three that are not quotes), and as it is if not |
| CharacterRefs.ScanIsPositional | drivers/Mach3/tinyxml2.cpp:475-530 | the right-to-left accumulation equals the positional value of the digits, modulo the 32-bit word |
| CharacterRefs.ReferenceIsRead | drivers/Mach3/tinyxml2.cpp:456-549 | every well-formed decimal or hexadecimal reference is read as its positional value, in UTF-8, and the whole of it is used |
| CharacterRefs.ShortReferenceIsExact | drivers/Mach3/tinyxml2.cpp:456-549 | references of at most 7 hexadecimal or 9 decimal digits stand for their value itself |
| CharacterRefs.CharacterRef | drivers/Mach3/tinyxml2.cpp:309-326 | the bytes a reference yields are never more than the characters it takes up, so that writing in place never overtakes reading |
| CharacterRefs.NoWrap | drivers/Mach3/tinyxml2.cpp:475-530 | up to those numbers of digits the 32-bit arithmetic does not wrap |
| Utf8Codec.ConvertUTF32ToUTF8 | drivers/Mach3/tinyxml2.cpp:403-453 | the fall-through conversion writes, from the last byte to the first, the sequence of the value and its length, and no other byte; nothing from 0x200000 on |
| Utf8Codec.ContinuationBits | drivers/Mach3/tinyxml2.cpp:433-443 | bit by bit, `(v | 0x80) & 0xBF` is 0x80 plus the low six bits of `v`, for every number |
| Utf8Codec.LeadBits | drivers/Mach3/tinyxml2.cpp:448 | or-ing the mark of a length over what is left of a value is adding it |
| Utf8Codec.DecodeInvertsUtf8 | drivers/Mach3/tinyxml2.cpp:403-453 | a decoder that accepts only shortest forms reads every value below 0x200000 back, whatever follows |
| Utf8Codec.Utf8PrefixFree | drivers/Mach3/tinyxml2.cpp:403-453 | no sequence is a proper prefix of another |
| Utf8Codec.Utf8IsRfcExactlyOnScalarValues | drivers/Mach3/tinyxml2.cpp:403-453 | the output is well formed under section 4 of RFC 3629 exactly for the Unicode scalar values |
| Utf8Codec.RfcSequencesAreOutputs | drivers/Mach3/tinyxml2.cpp:403-453 | every sequence well formed under section 4 of RFC 3629 is the output for some value |
| InPlaceDecoder.GetCharacterRef | drivers/Mach3/tinyxml2.cpp:456-549 | on the buffer: the reference at the cursor, where it ends and the bytes it stands for, or that there is none |
| InPlaceDecoder.RewriteSpan | drivers/Mach3/tinyxml2.cpp:276-355 | on the buffer: the loop leaves the rewritten span and its terminator and writes nothing outside the span and its terminator; each kind of line end is one line feed in it (XmlNewlines.LineEndIsRead) |
| InPlaceDecoder.CollapseWhitespace | drivers/Mach3/tinyxml2.cpp:238-264 | on the buffer: the collapsed string, possibly starting later, within the old span |
| InPlaceDecoder.SkipWhiteSpace | drivers/Mach3/tinyxml2.h:551-562 | the first character that is not white space, with the line feeds passed counted |
| InPlaceDecoder.FindEntity | drivers/Mach3/tinyxml2.cpp:328-346 | the named entity at the cursor, or none |
| InPlaceDecoder.StrNCmp | drivers/Mach3/tinyxml2.h:591-600 | whether the C string at the cursor begins with the pattern |
| StrPairs.Flush | drivers/Mach3/tinyxml2.cpp:267-365 | the first reading of a span terminates and rewrites it so that its value can be read from the new start, touching nothing else |
| StrPairs.CharBuffer.GetStr | drivers/Mach3/tinyxml2.cpp:267-365 | reads the same value whatever was read before and however often, and keeps every other span and all text ahead of the parser as they were |
| StrPairs.CharBuffer.ReadInOrder | drivers/Mach3/tinyxml2.cpp:267-365 | any order and any repetition of readings returns the same strings |
| StrPairs.CharBuffer.ParseText | drivers/Mach3/tinyxml2.cpp:193-215 | sets a span up to the first end tag, or sets none when there is no end tag; spans and their terminators stay apart |
| StrPairs.CharBuffer.ParseName | drivers/Mach3/tinyxml2.cpp:218-235 | sets a span of the longest name at the cursor, or none |
| StrPairs.CharBuffer.StringEqual | drivers/Mach3/tinyxml2.h:591-600 | equality of two lazily read strings |
| LazyTree.DenotesGrows | drivers/Mach3/tinyxml2.cpp:988-1100 | strings added to the table later do not change what a parsed node stands for |
| XmlDocuments.XMLDocument.Parse | drivers/Mach3/tinyxml2.cpp:2380-2394 | for every NUL-free text the parser ends with what the grammar says: the same tree, every lazy string reading as the grammar decodes it, or the same error, on the line of the node, attribute or level it is about, and no children; every node carries the line of the first significant character at the place where it is read, and every attribute the line of its name; the depth counter is back at 0 |
| NodeLines.NodesAreReadInPlace | drivers/Mach3/tinyxml2.cpp:1002-1100 | those places are the right ones: at its place the grammar reads exactly the node that stands there in the list, and the next place is where that node ends |
| NodeLines.NodeLeavesEnd | drivers/Mach3/tinyxml2.cpp:1002-1100 | what a node leaves of the text is always the end of it |
| XmlDocuments.XMLDocument.ParseLevel | drivers/Mach3/tinyxml2.cpp:988-1000 | one level deeper; the hundredth is refused; the depth counter is restored on every path |
| XmlDocuments.XMLDocument.ParseList | drivers/Mach3/tinyxml2.cpp:988-1100 | the child list, why it stopped, and the first error, as the grammar says; the cursor moves forward |
| XmlDocuments.XMLDocument.ListTurn | drivers/Mach3/tinyxml2.cpp:1002-1100 | one node is linked, or the list ends; misplaced declarations are refused |
| XmlDocuments.XMLDocument.ParseNode | drivers/Mach3/tinyxml2.cpp:1002-1040 | one turn identifies and parses a node, or finds nothing but white space |
| XmlDocuments.XMLDocument.ParseElement | drivers/Mach3/tinyxml2.cpp:1898-1925 | the tag, and the child list of an open element, as the grammar says |
| XmlDocuments.XMLDocument.CheckElement | drivers/Mach3/tinyxml2.cpp:1060-1097 | closing tags are handed up; an open element must meet its own closing tag and no other (XmlErrors.ClosedIsMet); the name comparison reads lazy strings in place |
| XmlDocuments.XMLDocument.ParseLeaf | drivers/Mach3/tinyxml2.cpp:1147-1171 | the span of a leaf, its value set lazily, or the error of its kind |
| XmlDocuments.XMLDocument.Identify | drivers/Mach3/tinyxml2.cpp:656-723 | the kind of the node at the first significant character after the cursor, the line of that character, and the place after the header; text backs up to the cursor, and the line counter with it |
| XmlDocuments.XMLDocument.ParseAttributes | drivers/Mach3/tinyxml2.cpp:1815-1871 | the attributes up to the end of the tag, each with the line of its name, or the error the grammar says |
| XmlDocuments.XMLDocument.AddAttribute | drivers/Mach3/tinyxml2.cpp:1826-1840 | one attribute, refused when its name has been used |
| XmlDocuments.XMLDocument.ParseAttribute | drivers/Mach3/tinyxml2.cpp:1356-1381 | name, equals sign and value in either quote, with white space around the equals sign (XmlSyntax.AttributeIsRead), both strings lazy |
| XmlDocuments.XMLDocument.SetError | drivers/Mach3/tinyxml2.cpp:2328-2362 | is only ever reached with no error set: the first error of a parse is never replaced |
| XmlPrinters.XMLPrinter.PutString | drivers/Mach3/tinyxml2.cpp:2494-2546 | the escaped string: what that is, character by character, XmlEscape.EscapedAt and XmlEscape.MarksAreEscaped say |
| XmlPrinters.XMLPrinter.PrintSpace | drivers/Mach3/tinyxml2.cpp:2486-2491 | writes the indentation |
| XmlPrinters.XMLPrinter.SealElementIfJustOpened | drivers/Mach3/tinyxml2.cpp:2661-2668 | writes the pending end of an open tag once |
| XmlPrinters.XMLPrinter.OpenElement | drivers/Mach3/tinyxml2.cpp:2561-2579 | what is written before and for an open tag, and the new nesting state |
| XmlPrinters.XMLPrinter.PushAttribute | drivers/Mach3/tinyxml2.cpp:2582-2590 | an attribute with its value escaped |
| XmlPrinters.XMLPrinter.CloseElement | drivers/Mach3/tinyxml2.cpp:2633-2658 | a sealed or a closing tag, with the layout before and after it, and the state after it |
| XmlPrinters.XMLPrinter.PushText | drivers/Mach3/tinyxml2.cpp:2671-2683 | text or CDATA after the pending tag end, and the depth remembered |
| XmlPrinters.XMLPrinter.PushComment | drivers/Mach3/tinyxml2.cpp:2733-2745 | a comment on a line of its own unless text was written at this level |
| XmlPrinters.XMLPrinter.PushDeclaration | drivers/Mach3/tinyxml2.cpp:2748-2760 | a declaration likewise |
| XmlPrinters.XMLPrinter.PushUnknown | drivers/Mach3/tinyxml2.cpp:2763-2775 | an unknown node likewise |
| XmlPrinters.XMLPrinter.AcceptElement | drivers/Mach3/tinyxml2.cpp:1966-1977 | a visited element writes its layout and leaves stack, depth and text state as the layout function says |
| XmlPrinters.XMLPrinter.AcceptAll | drivers/Mach3/tinyxml2.cpp:1966-1977 | a visited child list writes its layout; nothing when it is empty |
| XmlPrinters.XMLPrinter.AcceptDocument | drivers/Mach3/tinyxml2.cpp:2778-2785 | a visited document writes its byte order mark and layout |
| XmlPrinters.PrintDocument | drivers/Mach3/tinyxml2.cpp:2316-2325 | a fresh printer writes the layout of the document, and in compact mode its compact serialisation |
| XmlLayout.CompactLayout | drivers/Mach3/tinyxml2.cpp:2561-2659 | in compact mode the printer state does not matter |
| XmlIndent.LayoutIsDrawn | drivers/Mach3/tinyxml2.cpp:2561-2659 | what is printed, in both modes, told by the tree alone: where new lines and four spaces a level stand, which texts switch them off and how far, and every mark and quote |
| XmlPrinters.EscapedRun | drivers/Mach3/tinyxml2.cpp:2494-2546 | a run of plain characters up to a flagged one is escaped as the run and the entity |
| SiblingLists.Unlink | drivers/Mach3/tinyxml2.cpp:804-825 | the list of the parent loses exactly that child, both neighbours are joined, and every other list and parent is as before |
| SiblingLists.LinkEnd | drivers/Mach3/tinyxml2.cpp:850-867 | a detached node becomes the last child; only its own links and its neighbours change |
| SiblingLists.LinkFirst | drivers/Mach3/tinyxml2.cpp:880-898 | a detached node becomes the first child |
| SiblingLists.LinkAfter | drivers/Mach3/tinyxml2.cpp:926-931 | a detached node comes directly after the given child |
| XmlDom.DocumentTree.InsertEndChild | drivers/Mach3/tinyxml2.cpp:841-868 | from anywhere in the document the node moves to the end of the list: the matching sequence operations on both lists, ancestors included; a foreign node is refused and nothing changes |
| XmlDom.DocumentTree.InsertFirstChild | drivers/Mach3/tinyxml2.cpp:871-899 | likewise to the front |
| XmlDom.DocumentTree.InsertAfterChild | drivers/Mach3/tinyxml2.cpp:902-935 | likewise after a given child; and the one case in which the code follows a null pointer, exactly: the node was the last child and directly after the given one |
| XmlDom.InsertLastAfterFirst | drivers/Mach3/tinyxml2.cpp:924-932 | from a new document: two children made and linked, and the second one inserted after the first, end at the null pointer |
| XmlDom.DocumentTree.InsertChildPreamble | drivers/Mach3/tinyxml2.cpp:1117-1129 | the node leaves its parent; or it leaves the list of unlinked nodes and one item of its pool becomes tracked |
| XmlDom.DocumentTree.Detach | drivers/Mach3/tinyxml2.cpp:804-825 | unlinking keeps the forest: lists, parents and ancestors agree |
| XmlDom.DocumentTree.MarkInUse | drivers/Mach3/tinyxml2.cpp:2034-2045 | the linear search takes the node out of the list of unlinked nodes, which keeps the others, once each |
| XmlDom.DocumentTree.CreateUnlinkedNode | drivers/Mach3/tinyxml2.h:1920-1931 | a new parentless node, live and listed as unlinked; its item is untracked in its own pool, and its attributes are tracked items of theirs |
| XmlDom.DocumentTree.DeleteNode | drivers/Mach3/tinyxml2.cpp:1102-1115 | exactly the subtree of the node is gone; everything else is as it was |
| XmlDom.DocumentTree.DeleteChild | drivers/Mach3/tinyxml2.cpp:828-838 | the child is unlinked and its subtree freed |
| XmlDom.DocumentTree.DeleteChildren | drivers/Mach3/tinyxml2.cpp:794-801 | the list becomes empty; only nodes below its owner are freed |
| XmlDom.DocumentTree.DeleteNodeOf | drivers/Mach3/tinyxml2.cpp:2149-2164 | a linked or an unlinked node with its subtree is deleted and the counters still agree with the live nodes and the unlinked list |
| XmlDom.DocumentTree.Clear | drivers/Mach3/tinyxml2.cpp:2047-2078 | terminates with the document node alone and no unlinked node; in each of the four pools nothing is allocated and exactly the items that failed parses have leaked there are untracked, so that the two counters agree if and only if nothing leaked |
| PoolCounters.MadeCounts | drivers/Mach3/tinyxml2.cpp:1884-1892 | making a node keeps, for each pool, the number of items given out equal to what the live nodes and their attributes occupy |
| PoolCounters.FreedCounts | drivers/Mach3/tinyxml2.cpp:1876-1882 | so does freeing one |
| PoolCounters.TakenOffFits | drivers/Mach3/tinyxml2.cpp:1117-1129 | taking a node off the unlinked list keeps, for each pool, the untracked items equal to the unlinked nodes and the leaked ones, if that item is marked as tracked, and otherwise leaks it |
| XmlDom.CutFits | drivers/Mach3/tinyxml2.cpp:804-825 | after a node has left its list the forest is still one: lists distinct, parents and ancestors consistent, no cycle |
| XmlDom.GraftFits | drivers/Mach3/tinyxml2.cpp:841-868 | linking a parentless node under a node outside its own subtree keeps the forest |
| XmlDom.UpIsTransitive | drivers/Mach3/tinyxml2.cpp:742-752 | in a forest the ancestors of an ancestor are ancestors |
| XmlDom.AfterTheCut | drivers/Mach3/tinyxml2.cpp:924-932 | a child with a successor becomes the last one when another child is cut exactly if that was its successor and the last child |
| XmlDom.NobodyLeft | drivers/Mach3/tinyxml2.cpp:2047-2051 | an empty document with no unlinked node has no node at all: every other node would hang under a parentless one |
| DynArrays.SwapRemoveIs | drivers/Mach3/tinyxml2.h:279-284 | removing by swapping keeps all other elements with their multiplicities |
| NodeAccounting.ParseChildren | drivers/Mach3/tinyxml2.cpp:988-1100 | whatever the turns of the parse and however it ends, the nodes kept are linked at the end of the list and stand for the trees of the turns, every other node made is freed, the unlinked nodes are those of before, and the untracked surplus of each pool is the nodes of that pool discarded on errors |
| NodeAccounting.ParseTurn | drivers/Mach3/tinyxml2.cpp:1002-1097 | the same for one node with all that is parsed inside it |
| ParsedNodes.ListTurnsAre | drivers/Mach3/tinyxml2.cpp:988-1100 | for every text: the turns link exactly the nodes the grammar reads, and leak exactly when the list ends in an error |
| ParsedNodes.ParseDocument | drivers/Mach3/tinyxml2.cpp:2285-2313 | for every text: after a successful parse the linked document stands for what the grammar reads, with no unlinked node and nothing leaked; after an error only the document node is left and the counters of every pool are 0 |
| XmlReading.ReadDocument | drivers/Mach3/tinyxml2.cpp:2285-2313 | for every text: the object that reads the buffer and the linked document succeed or fail together, and then have the same trees as children, in the same order |
| ParsedNodes.ParseAndClear | drivers/Mach3/tinyxml2.cpp:2067-2077 | whatever is parsed, with or without an error: once the document is cleared, allocations and untracked items agree in each of the four pools |
| ParsedNodes.Abandon | drivers/Mach3/tinyxml2.cpp:2303-2312 | deleting the tree and resetting the pools after an error leaves no live node behind |
| NodeAccounting.GrownAndRemoved | drivers/Mach3/tinyxml2.cpp:1066-1074 | making a node, growing a subtree under it and deleting it restores the forest exactly |
| XmlClone.CloneAttributes | drivers/Mach3/tinyxml2.cpp:1927-1937 | setting the attributes one by one gives the list SetAttribute builds |
| XmlClone.SetAllKeepsLast | drivers/Mach3/tinyxml2.cpp:1768-1793 | a copied element has each name once, where it first stood, with its last value |
| XmlClone.AttributesClonedExactlyWhen | drivers/Mach3/tinyxml2.cpp:1768-1793 | the attributes are copied as they are if and only if their names differ |
| XmlClone.ClonedExactlyWhen | drivers/Mach3/tinyxml2.cpp:1927-1937 | the clone of a tree is equal to it if and only if no element in it repeats an attribute name |
| XmlClone.ParsedIsClonedAsIs | drivers/Mach3/tinyxml2.cpp:2081-2092 | everything a parse gives is cloned as it is |
| XmlClone.DeepClone | drivers/Mach3/tinyxml2.cpp:781-792 | into any document, its own included, which a null target stands for: walking the sibling links builds in the target the tree of the clone; everything else in the target is as it was, and the node still stands for what it did |
| XmlClone.StaysBeside | drivers/Mach3/tinyxml2.cpp:781-792 | growing another part of a document leaves what a node stands for as it is, which is why a tree can be cloned into its own document |
| XmlClone.DeepCopy | drivers/Mach3/tinyxml2.cpp:2081-2092 | the target is emptied and then holds the clones of all children of the source in order; copying onto itself changes nothing; the source is unchanged |
| XmlCopies.CopyPrintsAlikeExactlyWhen | drivers/Mach3/tinyxml2.cpp:2081-2092 | the copy, with the byte order mark flag its document had, prints the same text as the original if and only if the flags agree and no element repeats an attribute name |
| XmlCopies.ParsedCopyPrintsAlike | drivers/Mach3/tinyxml2.cpp:2081-2092 | of whatever was parsed the copy prints the same if and only if the flags agree |
| XmlCopies.MarkShows | drivers/Mach3/tinyxml2.cpp:2561-2579 | no text after it can make up for a byte order mark that is printed or not |
| XmlCopies.CloneShrinks | drivers/Mach3/tinyxml2.cpp:1927-1937 | a clone prints no longer than its original, and shorter if an element repeats an attribute name |
| XmlClone.CopyIsEqualExactlyWhen | drivers/Mach3/tinyxml2.cpp:2081-2092 | a copied document stands for the same trees if and only if no element repeats an attribute name |
| DomTrees.BuildsStays | drivers/Mach3/tinyxml2.cpp:742-752 | the tree a node stands for depends only on the child lists inside it |
| DomTrees.StandsForATree | drivers/Mach3/tinyxml2.cpp:781-792 | every linked node stands for a tree, so that the clone theorems apply to it |
| DynArrays.DynArray.EnsureCapacity | drivers/Mach3/tinyxml2.h:297-311 | contents kept; copying so far never exceeds the capacity, which is at most the initial one or twice the peak size |
| DynArrays.DynArray.Push | drivers/Mach3/tinyxml2.h:222-227 | the element is appended |
| DynArrays.DynArray.PushArr | drivers/Mach3/tinyxml2.h:229-236 | room is made at the end and the old elements stay |
| DynArrays.DynArray.Pop | drivers/Mach3/tinyxml2.h:238-242 | the last element is returned and gone |
| DynArrays.DynArray.PopArr | drivers/Mach3/tinyxml2.h:244-247 | the last elements are gone |
| DynArrays.DynArray.SwapRemove | drivers/Mach3/tinyxml2.h:279-284 | the last element takes the place of the removed one |
| MemPools.MemPool.Alloc | drivers/Mach3/tinyxml2.h:372-396 | never a live item; the first free one, or the first of a new block; free and live items together are all items of all blocks |
| MemPools.MemPool.NewBlock | drivers/Mach3/tinyxml2.h:373-385 | the links of a new block spell out all its items in order |
| MemPools.MemPool.Free | drivers/Mach3/tinyxml2.h:398-409 | the item is first in the free list, which stays acyclic and apart from the live items |
| MemPools.MemPool.SetTracked | drivers/Mach3/tinyxml2.h:416-418 | one untracked item fewer |
| MemPools.MemPool.Clear | drivers/Mach3/tinyxml2.h:352-363 | no block, no live item, all counters 0 |
| StatusProtocol.NoStaleIdle | src/cncclient.cpp:543-551 | over every interleaving of user thread, callbacks, server and both channels in which Poll does not read inside a callback, the client is busy at every level below that of any command the server had not handled when it sampled the snapshot of the client |
| StatusProtocol.SafeThroughoutExactlyWhen | src/cncclient.cpp:456-472 | for every run: all through it the client announces the level of every command its snapshot does not reflect, if and only if no Poll of the run reads a reply a second time, with the heartbeat caught up, while the snapshot in it is older than a command announced as busy |
| StatusProtocol.RunIsSound | src/cncclient.cpp:456-490 | what holds after every run whatsoever: FIFO order, matched replies, the heartbeat guard and the bounds of the counters |
| StatusProtocol.HarmedReports | src/cncclient.cpp:543-551 | what the client reports right after such a reading: the old machine state, whatever has been announced since |
| StatusProtocol.GuardedPollHasNoStaleIdle | src/cncclient.cpp:456-472 | if Poll returned at once while its call has a response and is still busy, there would be no stale idle in any interleaving |
| StatusProtocol.RunKeepsInvariant | src/cncclient.cpp:456-490 | the invariant behind it: FIFO order of commands and requests, the age of every sample in flight, and the heartbeat guard |
| StatusProtocol.StepKeepsOrder | src/cncclient.cpp:561-570 | the outstanding status request stands behind every command sent before it |
| StatusProtocol.StepKeepsMatched | src/cncclient.cpp:120-138 | replies are matched to requests, late ones are dropped, and no sample in flight is older than the client's |
| StatusProtocol.StepKeepsGuard | src/cncclient.cpp:401-408 | a reply that would clear the cache was asked for after every announced command |
| StatusProtocol.ReadKeepsSafeExactlyWhen | src/cncclient.cpp:456-472 | the reading half of Poll keeps the guarantee if and only if it does not read a reply a second time with the heartbeat caught up while a command is unreflected |
| StatusProtocol.StaleIdleInTheWindow | src/cncclient.cpp:120-132 | a run in which it fails: OnResponse sets the response flag before it clears the busy flag, and two Polls in between read one reply twice |
| StatusProtocol.CacheClears | src/cncclient.cpp:456-472 | without new commands the cache is empty once the heartbeat has passed the busy mark |
| StatusProtocol.IdleIsReported | src/cncclient.cpp:543-551 | after two snapshots without a new command IsBusy says exactly what the server's state says |
| StatusProtocol.MdiIsAnnounced | src/cncclient.cpp:572-581 | after a manual line that was carried out the client is busy below the level of manual lines, and one that was refused announces nothing |
| StatusProtocol.HandshakeEnds | src/cncclient.cpp:421-452 | for every version of the server, when the seven steps of the exchange are not interrupted: it ends in the status phase, or with the server given up when the version is below 3.0 |
| StatusProtocol.VersionIsServers | src/cncclient.cpp:421-452 | in every run the version a client goes by is one that the server has named and that will do, or -1 after one that will not |
| StatusProtocol.VersionStays | src/cncclient.cpp:421-452 | once decided, it is never decided again |
| CncClient.RemoteCall.CallAsync | src/cncclient.cpp:73-88 | a busy call refuses and is unchanged; a failed send leaves the call busy |
| CncClient.RemoteCall.GetResponse | src/cncclient.cpp:90-107 | a response if and only if there is one that is not an error and the call has not failed; nothing where the code throws |
| CncClient.RemoteCall.OnResponse | src/cncclient.cpp:120-132 | response and flags after the callback |
| CncClient.RemoteCall.OnError | src/cncclient.cpp:134-138 | failed and no longer busy |
| CncClient.Client.SetBusy | src/cncclient.cpp:401-408 | the cache is raised and never lowered, and the mark is one beat ahead, so that the next snapshot but one may clear it |
| CncClient.Client.Poll | src/cncclient.cpp:410-490 | the handshake or the status phase: what is read, what is asked next, and the new state |
| CncClient.Client.IsBusy | src/cncclient.cpp:543-551 | busy if and only if there is no connection, or the cache or the snapshot is above the level |
| CncClient.Client.JogVel | src/cncclient.cpp:561-570 | busy is announced only after the notification has been sent |
| CncClient.Client.CycleStart | src/cncclient.cpp:661-670 | likewise |
| CncClient.Client.Mdi | src/cncclient.cpp:572-581 | busy is announced once the call has been answered, whatever the answer is, and not when it has failed |
| CncClient.Client.Home | src/cncclient.cpp:713-726 | an axis that does not exist is refused before anything is sent |
| Upload.LoadFile | src/cncclient.cpp:609-649 | for every file and every behaviour of network, disk and operating system: true exactly when there is a connection, the server has answered the final call with true and, unless the file is the server's own, it could be opened, the server named a file, and each of its size/16000+1 blocks was answered and written; then the server holds the stored form of the whole file |
| Upload.SendBlocks | src/cncclient.cpp:633-644 | the loop succeeds exactly when every block arrives and is written, and then the file is complete and closed |
| Upload.ArriveExactlyWhen | src/cncclient.cpp:633-644 | all blocks arrive if and only if each of the size/16000+1 of them is answered and written, the last one being what is left of the file |
| Upload.OnlyTheLastBlockIsShort | src/cncclient.cpp:633-644 | all blocks but the last are full, and the last one is short, for empty files and exact multiples too |
| Upload.BlocksRebuildTheFile | src/cncclient.cpp:633-644 | the blocks in order are the file |
| Upload.StoredAsIsExactlyWhen | src/cncserver.cpp:513 | the stored form is the file itself if and only if the handle is binary or the file has no line feed |
| Upload.StoredIs | src/cncserver.cpp:513 | line by line, a text handle stores a carriage return before each line feed, and a binary one nothing of its own |
| Upload.UploadedAsIsExactlyWhen | src/cncserver.cpp:513 | the same for what an upload stores |
| Upload.Server.SendInit | src/cncserver.cpp:493-531 | closes what was there, removes the previous temporary file and no other, resets the block number and opens a new, empty file, or fails in one of the ways the platforms have |
| Upload.OneTemporaryFile | src/cncserver.cpp:554-559 | after any sequence of calls, whatever names the system gives, no temporary file is left but the current one and those that were made and could not be opened, and the destructor removes the current one |
| Upload.LeftBehindExactlyWhen | src/cncserver.cpp:493-559 | for every sequence of calls and every file: the server leaves it behind if and only if some SendInit made it without opening it and from then on no current file had its name |
| Upload.UnopenedStay | src/cncserver.cpp:493-559 | if the system never gives a name twice, nor the empty one, exactly the files that could not be opened are left behind |
| Upload.NothingLeftExactlyWhen | src/cncserver.cpp:493-559 | and nothing is left if and only if no SendInit got a file it could not open |
| Upload.Server.SendData | src/cncserver.cpp:533-551 | accepted exactly when a handle is there, the number is right and all bytes are written; a rejected, cut or short block closes the file; what the bytes written add to it |
| Upload.OpenExactlyWhen | src/cncserver.cpp:533-551 | for any block sequence: the session is open exactly while blocks came numbered from 0, full and fully written, and then the file is their concatenation |
| Upload.AcceptedExactlyWhen | src/cncserver.cpp:533-551 | while the session is open, a block is accepted if and only if its number is that of the blocks before it and all of it is written; before any file is open none is |
| Upload.ClosingBlock | src/cncserver.cpp:533-551 | what the file holds after the block that closes the session |
| Upload.UndefinedExactlyAfterClose | src/cncserver.cpp:533-551 | a closed handle is used exactly by the calls after the one that closed the file |
| Upload.UnopenedStays | src/cncserver.cpp:493-531 | the shortest such run: a file that could not be opened is still there after the next upload has begun and the server is gone |
| Upload.InitDefinedExactlyWhen | src/cncserver.cpp:554-559 | the next SendInit is well defined exactly when no closed handle is left over |
| Upload.UploadAgain | src/cncserver.cpp:554-559 | from a new server: after any upload that ends well, the SendInit of the next one closes a closed handle |
| LogDelivery.DeliveredInOrder | src/cncclient.cpp:782-797 | over every interleaving: index <= known count <= count <= entries, and the strings returned are the first entries, in order, each once |
| LogDelivery.EmptyExactlyWhen | src/cncclient.cpp:782-797 | in every run a call returns an empty string if and only if it failed or nothing known is pending, and otherwise the next entry |
| LogDelivery.ReturnedExactlyWhen | src/cncclient.cpp:782-797 | the same of what the calls have returned together |
| LogDelivery.EmptyWhilePending | src/cncclient.cpp:782-797 | a run with an entry pending: the call fails, an empty string comes back, and the next call returns the entry |
| LogDelivery.EverythingArrives | src/cncclient.cpp:782-797 | once the client knows of all entries, as many answered calls as are pending return the rest |
| LogDelivery.ServerLog.Log | src/cncserver.cpp:588-596 | an entry is appended and counted; an empty one is discarded |
| LogDelivery.ServerLog.Get | src/cncserver.cpp:574-579 | the entry, or an empty string past the end |
| LogDelivery.Reader.Next | src/cncclient.cpp:782-797 | the next entry is asked for only when one is known to be pending, and the index moves by one, only when the call succeeds |

## Left out

- Sockets, the RPC library and its serialisation: requests and notifications travel in FIFO channels, replies are matched by id and late ones dropped.
- Losing and making connections again (`OnDisConnect2` and the reconnect timer): the status and log results are about one connection and one server lifetime.
- `CycleStop`, `DrivesOn`, `FeedHold` and the other notifications without SetBusy are one kind of step; that `CycleStop` sends the name "CycleStart", and what a driver does with any command, is not modelled.
- Remote calls that wait, other than `Mdi`: they use calls of their own and do not touch the status call. `GetGCodes`, `GetMCodes`, `Ping`, plugins and the round-trip timer are not modelled.
- Torn or reordered memory accesses between threads: each write is a step of its own, seen by every later one.
- The 32-bit wrap of the heartbeat: the counters wrap in the model, and the run theorems are about runs of fewer than 2^31-1 steps. Counts of log entries are unbounded.
- Upload: the name hint made from the path, the missing `fclose` of the client's file, the Poll between blocks, and blocks sent by several clients at once to one server.
- Reading and writing XML files through `FILE*`, the printer's NUL-terminated buffer, its start depth, `PushHeader` with a declaration, an overridden `CompactMode`, and the `PushText`/`PushAttribute` variants for numbers.
- Number and boolean conversions, error message text, `ShallowEqual`, handles, user data and the visitor interface beyond printing.
- Strings owned by a `StrPair` (`SetStr`, interned strings, `TransferTo`): in the parser every string is a span; in the clones strings are values.
- `TIXMLASSERT` checks and the limits they put on sizes (`INT_MAX`): sizes are unbounded.
- The bytes of pool items: an item is its number. A document (XmlDom) keeps the two counters of each of its four pools, which Alloc, Free and SetTracked change as they do in MemPools (both are stated by the functions of PoolCounters); which item a node gets is not kept. An element's attributes are counted when the node is made.
- NodeAccounting.ParseChildren: a node is given what it holds when it is made, while the code fills in its strings as it parses; and the object that parses the buffer (XmlDocuments) keeps its tree as a value, the linked document being built from the turns of the grammar (ParsedNodes). XmlReading.ReadDocument proves the two equal.
- XmlClone.DeepCopy: the byte order mark flag is no field of the linked document; XmlCopies says what it means for the printed copy. The options of the target, which the code does not copy either, are a parameter there.
- XmlDom.DocumentTree.InsertEndChild: a node is not inserted below itself, nor the document node anywhere; the code does not check for either and would make a cycle or use a null pool.
- StatusProtocol.GuardedPollHasNoStaleIdle: the guard it speaks of is not in the code.
- Upload.Server.SendInit: the call of the driver's own CloseFile, whose result is ignored, is not represented.
- Upload.LoadFile: what the server holds is stated when no closed handle was left over from an earlier session, because the C++ promises nothing otherwise.
