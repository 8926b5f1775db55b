# Verified models of the SDK's self-contained algorithms

Each `.dfy` file models one algorithm of the SDK, or one aspect of it, and proves what it is for. Code that
changes things step by step is modelled by methods on classes, arrays and linked nodes, proved against
functions on values; what those functions promise is proved as lemmas.

| files | what they model |
|---|---|
| `JsonText`, `JsonRoundTrip`, `JsonMinify`, `JsonSizes`, `JsonUtf8`, `JsonStringBuffer` | the JSON text that `cJSON.c` writes and reads, the round trip, the minifier, the sizes of the buffers, the UTF-8 of `\u` escapes, and when the buffer of a string literal suffices |
| `JsonGrammar`, `JsonComments`, `JsonPrinted` | the grammar of RFC 8259 as syntax trees, independent of the code: every text of it parses to what it denotes, what the minifier does to it with comments between its tokens, and that both prints are texts of it |
| `JsonTree`, `JsonList`, `JsonDuplicate`, `JsonPrinter`, `JsonMinifyLoop`, `JsonParser`, `JsonWhole` | the same code on linked items and buffers: list operations, copies, printers, the minifier in place, the parser, and all of it together |
| `XmlText`, `XmlRoundTrip`, `XmlNesting`, `XmlBuilt`, `XmlProlog`, `XmlAttributes` | the XML text that `xml.c` writes and reads, exactly when the round trip holds, and the editing of attribute text |
| `XmlTokens`, `XmlGrammar`, `XmlDocument`, `XmlLayout` | documents as they may be written, with spaces in the tags, tags that close themselves and words anywhere: what the parser makes of any sequence of such tags, exactly when a document comes out as its tree, and that every dump is such a document |
| `XmlTree`, `XmlEdit`, `XmlPath`, `XmlDump`, `XmlParser`, `XmlNodeAttributes`, `XmlWhole` | the same code on linked nodes and buffers: adding and deleting, path queries, size and dump, the parser, attributes of a node, and all of it together |
| `FreeList`, `HeapRuns`, `TcmMemory`, `TcmHeap` | the first-fit heap: its free list, runs of it, and the list as words in memory |
| `Crc` | the CRC and checksum of a received YMODEM block |
| `Division` | the 64-by-32-bit division |
| `ConnRows`, `ConnState`, `ConnTable` | the AT connection table: its two-level lists, its invariant, and its operations |
| `SystemData`, `OtaStream` | NOR flash: the rewrite of a sector through a backup, and images written as they arrive |
| `ParseParam`, `ParseParamLoop`, `ParamGrammar` | the splitting of AT command arguments, and the commands as they may be written |
| `UartRing` | the receive ring of the UART socket |
| `CText` | C strings: a text is the bytes before the terminator, a pointer into it the suffix it points at |

## Conventions

- A byte string is a `string` whose characters have codes below 256. A double is an exact real.
- Linked structures are pictured by a value, a `Shape` or the rows of the connection table, that says which
  node stands where. `Laid` says that memory looks so, `Apart` that no node stands in two places. Passing such
  a picture along is ghost and does not change what a method does.
- An outcome `Undefined`, or `None` in the argument splitter, is a step the C program leaves undefined, such as
  following a null pointer. The methods require that it does not come to that.
- A `NULL` string is `None`, a null node is `null`.
- A flash write is a bitwise AND and an erase sets all bits.

## Where the code does something else than one may expect

- `crc_check` in checksum mode adds the block twice, since the sum is not cleared in between. A block with its
  right checksum is accepted if and only if that checksum is zero and the block is not all zeros, which it answers
  with 2 (`Crc.ChecksumModeDoubles`, `Crc.RightChecksumRejected`).
- An XML element inside an element of the same qualified name breaks the round trip, always
  (`XmlNesting.RoundTripIff`, `XmlNesting.NestedIsLost`).
- Quotes in a name, or in a prefix without a uri, do no harm. A prefix that has a uri spoils it when it holds a
  `"`, or an `'` right behind its first `=`: the search for the uri then starts inside the prefix. The uri comes
  back only if it is, by coincidence, what stands there (`XmlBuilt.DeclaredUri`,
  `XmlBuilt.QuotedPrefixes`).
- An attribute whose name starts with the declaration of a prefix is taken for that declaration: `xmlns:pq` gives
  an element with the prefix `p` a uri (`XmlAttributes.ListTagRoundTrip`, `XmlAttributes.LongerNameTaken`).
- The grammar in front of `_parse_tag` allows spaces in an end tag (xml.c:98). The parser looks for the end tag
  without spaces first, so an element whose own one has spaces runs on to a later end tag of its name. A written
  document comes out as its tree if and only if no such end tag is in the way (`XmlGrammar.ParseIff`,
  `XmlDocument.LaterEndTaken`).
- A name that starts with `?` or `!` is taken for a part of the prolog, and what stands in front of it is lost
  (`XmlProlog.MarkedIsLost`).
- `_freertos_modular64` cuts its base to 32 bits (`Division.TruncationHarmless`).
- The argument splitter loses a first or last empty field (`ParseParam.KeptAll`).
- A byte that arrives at a full receive ring costs the oldest byte, except in the last slot, where it costs all
  1024 (`UartRing.FullDrops`).
- `\u0000` in a JSON string yields nothing (`JsonUtf8.EscapeIsUtf8`), and neither does a surrogate without its
  other half (`JsonUtf8.LoneSurrogates`). A string that is not closed is taken as far as it goes
  (`JsonGrammar.UnclosedParses`).
- The last argument that `argv` has room for runs on to the end of the command if it is not in quotes
  (`ParamGrammar.SplitCommand`).
- The buffer for a JSON string literal is counted up to its closing quote, but a `\u` with fewer than four digits
  takes the quote for one of them. The buffer suffices for every text behind the literal if and only if no escape
  leads over its closing quote (`JsonStringBuffer.BufferFitsIff`, `JsonStringBuffer.EscapeOverQuote`).
- The formatted print of an empty JSON object indents its closing brace by one tab less than its depth, as the
  code does.
- `xml_dump_tree_ex` sizes its buffer for a level of one whatever `new_line` is. With a `new_line` of two or
  more the dump fits if and only if nothing is indented or no child of the root is an element
  (`XmlDump.FitsLevelOneIff`, `XmlDump.LevelTwoOverflows`).

## Model

| member | source | states |
|---|---|---|
| JsonRoundTrip.RoundTrip | component/common/utilities/cJSON.c:264-284 | Parsing either print of any printable tree gives back the tree and uses up the text, with or without the demand that the text ends there |
| JsonRoundTrip.ParsePrinted | component/common/utilities/cJSON.c:287-317 | The same for a value at any depth in front of any text that does not go on with it: parsing stops exactly at the end of the print |
| JsonRoundTrip.ParsePrintedInt | component/common/utilities/cJSON.c:96-138 | A 32-bit integer is parsed back to its value, and the parse stops behind its digits |
| JsonRoundTrip.UnescapeEscaped | component/common/utilities/cJSON.c:155-247 | Unescaping undoes escaping for every NUL-free byte string and stops at the closing quote |
| JsonGrammar.TextParses | component/common/utilities/cJSON.c:264-278 | Every text of RFC 8259, whatever blanks stand between its tokens, however its characters are escaped, and whatever fraction and exponent its numbers have, parses to the value it denotes, with or without the demand that the text ends there |
| JsonGrammar.Parses | component/common/utilities/cJSON.c:287-299 | The same for a value in front of any text that does not go on with it: parsing stops exactly behind it |
| JsonGrammar.NumberParses | component/common/utilities/cJSON.c:96-115 | A number with its sign, fraction and signed exponent parses to its decimal value |
| JsonGrammar.StringParses | component/common/utilities/cJSON.c:155-212 | A string whose characters are written in any way, `\/` and escapes with digits of either case included, parses to the bytes of its characters |
| JsonGrammar.UnclosedParses | component/common/utilities/cJSON.c:155-212 | A string that is not closed ends with the text |
| JsonGrammar.ParsesArray | component/common/utilities/cJSON.c:320-345 | An array with blanks around its brackets, items and commas parses to its items in order |
| JsonGrammar.ParsesObject | component/common/utilities/cJSON.c:406-440 | An object parses to its members in order, names and all |
| JsonGrammar.GarbageFails | component/common/utilities/cJSON.c:275 | Anything behind the value but blanks is reported at its place, if the text has to end there |
| JsonGrammar.NoValueFails | component/common/utilities/cJSON.c:287-299 | What starts like no value is reported where it stands |
| JsonGrammar.BrokenArrayFails | component/common/utilities/cJSON.c:343-344 | Behind an item, what is neither a comma nor the closing bracket is reported at its place |
| JsonGrammar.MissingItemFails | component/common/utilities/cJSON.c:337-341 | So is what starts like no value behind a comma |
| JsonGrammar.BrokenObjectFails | component/common/utilities/cJSON.c:438-439 | Behind a member, what is neither a comma nor the closing brace is reported |
| JsonGrammar.BrokenMemberFails | component/common/utilities/cJSON.c:415-419 | A name that does not start with a quote, and one that no colon follows, are reported |
| JsonPrinted.PrintIsText | component/common/utilities/cJSON.c:302-317 | Both prints of a tree, at any depth, are texts of RFC 8259 that denote it, with the blanks, lines and tabs said token by token |
| JsonPrinted.MinifyCommented | component/common/utilities/cJSON.c:581-596 | A print with any blanks and comments put between its tokens is minified to the unformatted print |
| JsonComments.MinifyText | component/common/utilities/cJSON.c:581-596 | Minified, a text of RFC 8259 with blanks and comments between its tokens, in front of it and behind it is the text without them, and it parses to what the text denotes |
| JsonComments.MinifyPieces | component/common/utilities/cJSON.c:581-596 | Of any sequence of blanks, closed comments, closed literals and other characters, the literals and other characters are left |
| JsonComments.LineGoes | component/common/utilities/cJSON.c:590 | A `//` comment goes with its line feed, and nothing else does |
| JsonComments.LastLineGoes | component/common/utilities/cJSON.c:590 | A `//` comment that no line feed ends takes the rest of the text |
| JsonComments.BlockGoes | component/common/utilities/cJSON.c:591 | A block comment goes up to its closing pair, which does not start at the star that opens it |
| JsonComments.LiteralStays | component/common/utilities/cJSON.c:592 | A string literal stays, with the blanks, slashes and escaped quotes in it |
| JsonComments.SlashStays | component/common/utilities/cJSON.c:590-593 | A slash that starts no comment stays |
| JsonMinify.MinifyPrint | component/common/utilities/cJSON.c:581-596 | Minifying the formatted or the unformatted print of a tree, at any depth, gives byte for byte the unformatted print; no literal or comment of the print is left open |
| JsonSizes.StringLenIs | component/common/utilities/cJSON.c:220-222 | The count of the first pass is the length of the escaped string |
| JsonSizes.ArraySizeIs | component/common/utilities/cJSON.c:348-377 | The size print_array computes exceeds text and terminator by the number of entries and three, or four when formatted |
| JsonSizes.ObjectSizeIs | component/common/utilities/cJSON.c:443-485 | The size print_object computes exceeds text and terminator by exactly five bytes, at any depth and format |
| JsonSizes.IntFits | component/common/utilities/cJSON.c:123-124 | Every 32-bit integer fits the buffer of 21 bytes |
| JsonUtf8.DecodeEncoded | component/common/utilities/cJSON.c:153-200 | The bytes written for a code point decode to it by the table of RFC 3629, section 4 |
| JsonUtf8.EscapeIsUtf8 | component/common/utilities/cJSON.c:178-202 | Four digits, each in either case, or a surrogate pair of such, become the UTF-8 of their code point; U+0000 alone yields no byte |
| JsonUtf8.ParseEscape | component/common/utilities/cJSON.c:155-212 | A literal holding one escape, its digits in either case, parses to the UTF-8 of that character |
| JsonUtf8.LoneSurrogates | component/common/utilities/cJSON.c:180-188 | A low surrogate, a high one without a `\u` behind it, and a high one with another escape behind it yield nothing, and take four or ten characters |
| JsonUtf8.NoDigits | component/common/utilities/cJSON.c:140-151 | An escape with a character that is no digit yields nothing and takes four characters |
| JsonStringBuffer.CountLiteral | component/common/utilities/cJSON.c:160 | The count of the first pass over a string literal |
| JsonStringBuffer.FitsInside | component/common/utilities/cJSON.c:165-206 | As long as the second pass ends inside the literal it writes no more bytes than the first counted, whatever its escapes |
| JsonStringBuffer.BufferFitsIff | component/common/utilities/cJSON.c:160-207 | The bytes written and their terminator fit the counted buffer, for every text behind the literal, if and only if no escape leads the second pass over the closing quote |
| JsonStringBuffer.EscapeOverQuote | component/common/utilities/cJSON.c:179-182 | `\u` in front of the closing quote takes it along, and more bytes are written than were counted |
| JsonTree.Append | component/common/utilities/cJSON.c:515-520 | Linking an item behind the last child lays out the children with the item at the end, next, prev and child all consistent |
| JsonTree.Remove | component/common/utilities/cJSON.c:525-526 | Relinking the neighbours of a child lays out the children without it, and leaves it without neighbours |
| JsonTree.Replace | component/common/utilities/cJSON.c:532-534 | Relinking around a new item lays out the children with it in the place of the old one |
| JsonList.GetArraySize | component/common/utilities/cJSON.c:510 | The number of children |
| JsonList.GetArrayItem | component/common/utilities/cJSON.c:511 | The child at the index; the first for a negative one, none behind the end |
| JsonList.StrCaseCmp | component/common/utilities/cJSON.c:39-44 | Names of one length whose characters are the same or one letter in either case; a missing name matches none |
| JsonList.EqualButCase | component/common/utilities/cJSON.c:39-44 | What the comparison by lower case letters means, character by character |
| JsonList.GetObjectItem | component/common/utilities/cJSON.c:512 | The first child whose name matches but for case, or none if there is none |
| JsonList.AddItemToArray | component/common/utilities/cJSON.c:520 | The item is appended to the sequence of children; nothing happens for a null item |
| JsonList.AddItemToObject | component/common/utilities/cJSON.c:521 | The item is appended with its new name |
| JsonList.DetachItemFromArray | component/common/utilities/cJSON.c:525-526 | The child at the index is taken out of the sequence and comes back detached; nothing changes when there is none |
| JsonList.ReplaceItemInArray | component/common/utilities/cJSON.c:532-534 | The child at the index is replaced in the sequence; nothing changes when there is none |
| JsonList.Relink | component/common/utilities/cJSON.c:526 | The four link changes of a detach, as one change of the picture of memory |
| JsonList.SwapIn | component/common/utilities/cJSON.c:533-534 | The link changes of a replace |
| JsonDuplicate.Duplicate | component/common/utilities/cJSON.c:554-579 | A recursive copy is in fresh memory and equals the original but for the reference flag on every item; a flat copy has no children |
| JsonDuplicate.DuplicateChild | component/common/utilities/cJSON.c:567-577 | One round of the copying loop keeps the copied children laid out |
| JsonPrinter.PrintStringPtr | component/common/utilities/cJSON.c:215-247 | The buffer of the counted size is filled to its last byte with the escaped string and the terminator |
| JsonPrinter.CountString | component/common/utilities/cJSON.c:220 | The first pass over the string |
| JsonPrinter.EscapeOne | component/common/utilities/cJSON.c:231-244 | One escaped character is written inside the buffer, the terminator of sprintf included |
| JsonPrinter.PrintNumber | component/common/utilities/cJSON.c:118-125 | The decimal form of the integer, inside 21 bytes |
| JsonPrinter.ComposeArray | component/common/utilities/cJSON.c:389-402 | Written into the computed size, the entries, separators and brackets are the print of the array; no write leaves the buffer |
| JsonPrinter.ComposeObject | component/common/utilities/cJSON.c:487-506 | The same for an object, with tabs, line breaks and names |
| JsonPrinter.EmptyObject | component/common/utilities/cJSON.c:453-461 | The print of an object without members, in its own buffer |
| JsonPrinter.PrintArray | component/common/utilities/cJSON.c:348-403 | The buffer holds the print of the array at the depth |
| JsonPrinter.PrintObject | component/common/utilities/cJSON.c:443-507 | The buffer holds the print of the object at the depth |
| JsonPrinter.PrintValue | component/common/utilities/cJSON.c:302-317 | The buffer holds the print of the value the item stands for |
| JsonMinifyLoop.MinifyInPlace | component/common/utilities/cJSON.c:581-596 | In place, the buffer holds the minified text and a terminator, the write pointer never being ahead of the read pointer; bytes behind the text are not touched |
| JsonMinifyLoop.Turn | component/common/utilities/cJSON.c:584-594 | One round on a blank, a comment, a literal or a character: what is written is the minified text of what is read |
| JsonMinifyLoop.CopyLiteral | component/common/utilities/cJSON.c:592 | A string literal with its escapes is moved as it is |
| JsonParser.SkipBlank | component/common/utilities/cJSON.c:261 | White space is passed over |
| JsonParser.ParseNumberInto | component/common/utilities/cJSON.c:96-115 | The item gets the number the reference parser reads, and its value truncated to an integer |
| JsonParser.ParseStringInto | component/common/utilities/cJSON.c:155-212 | The item gets the unescaped string, or the place of the error is reported |
| JsonParser.ParseValueInto | component/common/utilities/cJSON.c:287-299 | The item, with fresh children, stands for the value the reference parser reads, and the pointer is left where that parser stops; an error is reported at the same place |
| JsonParser.ParseArrayInto | component/common/utilities/cJSON.c:320-345 | The same for an array, whose items are linked before they are filled |
| JsonParser.ParseObjectInto | component/common/utilities/cJSON.c:406-440 | The same for an object |
| JsonParser.LateAppend | component/common/utilities/cJSON.c:335-339 | An item that was linked first and filled later leaves the list laid out |
| JsonParser.ParseWithOptions | component/common/utilities/cJSON.c:264-278 | A new tree for the value, or none and the place of the error, also when only blanks may follow |
| JsonWhole.MeansTyped | component/common/utilities/cJSON.c:287-317 | What the parser builds for a printable value is what the printer takes for it |
| JsonWhole.PrintAndParse | component/common/utilities/cJSON.c:264-284 | Printing a tree in memory and parsing the text builds a separate tree of the same value |
| JsonWhole.PrintAndMinify | component/common/utilities/cJSON.c:283-596 | Printing with formatting and minifying the buffer in place leaves the unformatted print |
| JsonWhole.ParseText | component/common/utilities/cJSON.c:264-278 | From any text of RFC 8259 a new tree in memory is built that stands for the value the text denotes |
| JsonWhole.MinifyAndParse | component/common/utilities/cJSON.c:264-596 | A text with blanks and comments between its tokens, minified in place, is the text without them, and a new tree of the value it denotes is built from the buffer |
| XmlRoundTrip.TagRoundTrip | component/common/utilities/xml.c:98-213 | For ordinary names and any attribute text, parsing the tag that the dumper writes gives back prefix, name and attribute text, and the uri if and only if the attribute text shows it |
| XmlBuilt.QuotedPrefixes | component/common/utilities/xml.c:137-148 | Prefixes with a quote: one whose uri comes back as another text, one whose tag cannot be read, and one that happens to keep its uri |
| XmlRoundTrip.RoundTrip | component/common/utilities/xml.c:307-427 | Parsing the dump of a tree of ordinary names with any attribute texts, at any level and indent, behind any text without `<` and in front of any text, gives back the tree, unless an element lies inside one of the same qualified name or an attribute text does not show the uri |
| XmlNesting.RoundTripIff | component/common/utilities/xml.c:363-368 | For every such tree, built or edited, the round trip holds if and only if no element lies inside one of the same qualified name and each attribute text shows the uri of its element |
| XmlBuilt.DeclaredUri | component/common/utilities/xml.c:137-148 | The attribute text that xml_new_element writes shows the uri if and only if there is no prefix or uri, the prefix does not hold the quote that the search goes by, or by coincidence the text behind that quote is the uri |
| XmlBuilt.BuiltRoundTripIff | component/common/utilities/xml.c:307-427 | For trees as xml_new_element builds them the round trip holds if and only if no element lies inside one of the same qualified name and no prefix spoils its uri |
| XmlNesting.NestedIsLost | component/common/utilities/xml.c:363-368 | The smallest such tree does not come back |
| XmlProlog.ParseXmlRoundTrip | component/common/utilities/xml.c:498-529 | xml_parse gives back a dumped tree behind any prolog of instructions and declarations if and only if no element lies inside one of the same qualified name, each attribute text shows the uri, and no name starts with `?` or `!` |
| XmlProlog.MarkedIsLost | component/common/utilities/xml.c:503-512 | A name that starts with `?` or `!` is taken for the prolog, whatever stands in front |
| XmlTokens.ParseMark | component/common/utilities/xml.c:95-213 | A tag with any spaces in front of its attributes and behind them is read as without them |
| XmlTokens.ParseTokens | component/common/utilities/xml.c:307-427 | Of any sequence of words and tags, matching or not, the parser makes what its tokens say: the search for an end tag in the text is the search for such a token, with or without spaces, a tag that closes itself is an element, and a start tag without its end tag, or an end tag without its start, is passed over |
| XmlGrammar.ParseIff | component/common/utilities/xml.c:307-427 | A written document, with anything behind it, is parsed to its tree if and only if of each element the end tag is the one that is found, first without spaces and then with, and each attribute text shows the uri |
| XmlGrammar.ReadIff | component/common/utilities/xml.c:315-416 | The same for the children of an element, in front of any words |
| XmlGrammar.Lossless | component/common/utilities/xml.c:358-397 | The parser never reads more elements than there are tags for, and where it reads as many, start and end tags match |
| XmlDocument.DocumentIff | component/common/utilities/xml.c:498-529 | The same for xml_parse, behind any prolog and in front of any words, for names that are not marked like a part of the prolog |
| XmlDocument.SpacedEnd | component/common/utilities/xml.c:360-373 | An element of words comes back with any number of spaces in its end tag, and anything behind it that does not hold the end tag without spaces |
| XmlDocument.LaterEndTaken | component/common/utilities/xml.c:363-368 | Of two elements of one name, of which only the first has spaces in its end tag, one is read, and the words of the first are lost |
| XmlDocument.OpenBracket | component/common/utilities/xml.c:319-322 | A bracket that nothing closes belongs to the words, and is no document |
| XmlLayout.DumpIsDocument | component/common/utilities/xml.c:1092-1174 | A dump, flat or in lines, is a written document that means the tree, with line breaks and spaces in front of the elements and the end tags behind them as said element by element |
| XmlAttributes.GetIsLookup | component/common/utilities/xml.c:1329-1375 | Reading an attribute from the text of a list with distinct names gives its value, or nothing if it is missing |
| XmlAttributes.SetIsUpdate | component/common/utilities/xml.c:1246-1326 | Setting an attribute turns the text of a list into that of the list with it set in place, or appended |
| XmlAttributes.GetAfterSet | component/common/utilities/xml.c:1221-1375 | After a set a get gives the value set, and every other name reads as before |
| XmlAttributes.UriFollows | component/common/utilities/xml.c:1225-1243 | The uri stays the value of the namespace declaration through every set |
| XmlAttributes.NewElementUri | component/common/utilities/xml.c:567-587 | A new element has as uri the value of the declaration it writes |
| XmlAttributes.ListTagRoundTrip | component/common/utilities/xml.c:98-213 | A tag with any list of attributes comes back, with the value of the first attribute whose front is the declaration as its uri, when no value in front of it shows the declaration |
| XmlAttributes.EditedTagRoundTrip | component/common/utilities/xml.c:98-213 | After xml_set_attribute an element comes back from its tag with the new attribute text and the uri that the set left, when only the declaration itself starts like it and no value shows it |
| XmlAttributes.LongerNameTaken | component/common/utilities/xml.c:115-119 | An attribute with a longer name than the declaration gives an element a uri it does not have |
| XmlNodeAttributes.SetAttributeOf | component/common/utilities/xml.c:1221-1327 | On a node: attribute text and uri become those of the updated list |
| XmlNodeAttributes.GetAttributeOf | component/common/utilities/xml.c:1329-1375 | On a node: the value in the list |
| XmlTree.Appended | component/common/utilities/xml.c:703-717 | Linking a node behind the last child lays out the children with the node at the end and parent set |
| XmlTree.TakenOut | component/common/utilities/xml.c:685-696 | Unlinking a child lays out the others without it, whatever became of its own children |
| XmlEdit.AddChild | component/common/utilities/xml.c:701-719 | An element gets the node as its last child; any other node is left as it is |
| XmlEdit.DeleteTree | component/common/utilities/xml.c:665-699 | The nodes are freed from below, and the tree leaves its place under its parent |
| XmlEdit.DeleteKids | component/common/utilities/xml.c:682-683 | The loop that deletes the first child until there is none frees all of them |
| XmlEdit.Unlink | component/common/utilities/xml.c:685-696 | The link changes when a node leaves its place |
| XmlEdit.FreedOnce | component/common/utilities/xml.c:665-699 | The order of freeing lists every node of the tree, and none twice |
| XmlPath.HitsAreSelected | component/common/utilities/xml.c:913-1007 | What the passes visit as matches is, in document order, exactly the elements whose chain of names from the root is the path |
| XmlPath.StepsBack | component/common/utilities/xml.c:817-878 | A path written out from its steps is split into those steps, whatever stands before the first slash |
| XmlPath.PathCount | component/common/utilities/xml.c:810-902 | The counting pass adds the number of matches |
| XmlPath.FillPath | component/common/utilities/xml.c:913-1007 | The filling pass writes the matches into as many slots, in order |
| XmlPath.FindPath | component/common/utilities/xml.c:1009-1026 | The set holds exactly the elements the path selects, in document order, with no slot over |
| XmlDump.TreeSize | component/common/utilities/xml.c:1036-1090 | The size is the length of the dump at that level and indent |
| XmlDump.KidsSize | component/common/utilities/xml.c:1067-1080 | The loop over the children and the last line break, counted |
| XmlDump.StrCat | component/common/utilities/xml.c:1092-1174 | strcat as it scans and copies, inside the buffer |
| XmlDump.DumpInto | component/common/utilities/xml.c:1092-1174 | The dump is appended to what the buffer holds |
| XmlDump.DumpKidsInto | component/common/utilities/xml.c:1130-1160 | The children with their line breaks are appended |
| XmlDump.DumpTree | component/common/utilities/xml.c:1176-1187 | The buffer of the computed size is filled to its last byte |
| XmlDump.FlatIsShortest | component/common/utilities/xml.c:1198-1217 | A dump without line breaks is never longer than one with them |
| XmlDump.DeeperIsLonger | component/common/utilities/xml.c:1036-1090 | One level deeper a dump is longer, unless the indent is zero or no child is an element |
| XmlDump.FitsLevelOneIff | component/common/utilities/xml.c:1189-1219 | A dump that starts at the level `new_line` fits the size computed for level one if and only if `new_line` is at most one, the indent is zero, or no child of the root is an element |
| XmlDump.LevelTwoOverflows | component/common/utilities/xml.c:1198-1217 | With `new_line` two and an indent of one, an element in the root makes the dump longer than the size |
| XmlDump.DumpTreeEx | component/common/utilities/xml.c:1189-1219 | The prolog, a line break, and the dump, indented by at most ten, inside a buffer sized for level one, whenever the dump fits it |
| XmlParser.XmlStrStr | component/common/utilities/xml.c:19-47 | The first place of the pattern |
| XmlParser.StripLoops | component/common/utilities/xml.c:59-91 | The text without the spaces at both ends, or nothing |
| XmlParser.FindTag | component/common/utilities/xml.c:319-356 | The next tag of the text and where the text behind it starts |
| XmlParser.ParseKidsInto | component/common/utilities/xml.c:307-427 | The children built below a node stand for what the reference parser reads from the text |
| XmlParser.OneElement | component/common/utilities/xml.c:331-397 | What the loop does with one tag: an empty element, an element with content, or a tag without end that is passed over |
| XmlParser.FilledBelow | component/common/utilities/xml.c:384-388 | A child that is filled while it hangs in its place leaves the parent laid out |
| XmlParser.ParseDoc | component/common/utilities/xml.c:307-427 | The root built for a text is the first element the reference parser reads, or none |
| XmlParser.PrologEnd | component/common/utilities/xml.c:503-512 | Where the last instruction or declaration ends |
| XmlParser.Parse | component/common/utilities/xml.c:498-529 | The tree in memory stands for what the reference parser reads behind the prolog |
| XmlWhole.ParseDocument | component/common/utilities/xml.c:498-529 | From a written document a new tree in memory is built that stands for it |
| XmlWhole.DumpAndParse | component/common/utilities/xml.c:498-1219 | Dumping a tree in memory, flat or in lines, with or without a prolog, and parsing the text builds a separate tree of the same document, whenever the dump fits its buffer and the text can be read back |
| FreeList.AllocTakes | component/os/os_dep/tcm_heap.c:71-132 | First fit takes exactly the bytes of one aligned block out of an ordered, coalesced list and keeps it ordered and coalesced |
| FreeList.FirstFit | component/os/os_dep/tcm_heap.c:88-121 | The block given away is the end of the first chunk that is long enough, and of the list only that chunk changes |
| FreeList.AllocFailsIff | component/os/os_dep/tcm_heap.c:71-132 | No block is found if and only if no run of free bytes is long enough |
| FreeList.ReleaseGives | component/os/os_dep/tcm_heap.c:136-219 | A block goes back between its neighbours and merges: the list covers it and what it covered, and stays ordered and coalesced |
| FreeList.WholeIsOneChunk | component/os/os_dep/tcm_heap.c:175-212 | A list that covers the whole heap is one chunk |
| HeapRuns.TakeKeepsTiled | component/os/os_dep/tcm_heap.c:71-132 | An allocation keeps free chunks and live blocks disjoint, aligned and together the whole heap |
| HeapRuns.ReturnKeepsTiled | component/os/os_dep/tcm_heap.c:136-219 | A matching free keeps it too |
| HeapRuns.AnyRun | component/os/os_dep/tcm_heap.c:71-219 | After any run of allocations and frees from a new heap the invariant holds, live and free bytes add up to the heap, and once nothing is live the heap is again one chunk |
| HeapRuns.AllReturned | component/os/os_dep/tcm_heap.c:136-219 | With every block freed, in whatever order, the heap is as new |
| TcmHeap.Tcm.constructor | component/os/os_dep/tcm_heap.c:33-48 | The new heap is one chunk of full size |
| TcmHeap.Tcm.AllocMem | component/os/os_dep/tcm_heap.c:71-132 | The walk over next and size words in memory does what first fit does to the list, and returns NULL exactly when it finds nothing |
| TcmHeap.Tcm.Place | component/os/os_dep/tcm_heap.c:158-190 | The walk that puts a freed chunk between its neighbours by address |
| TcmHeap.Tcm.Join | component/os/os_dep/tcm_heap.c:191-212 | Merging with the chunks behind and before |
| TcmHeap.Tcm.FreeMem | component/os/os_dep/tcm_heap.c:136-219 | A live block of the given size goes back to the list |
| TcmHeap.Tcm.FreeSpace | component/os/os_dep/tcm_heap.c:221-237 | The sum over the list is the heap less what is live |
| TcmHeap.Tcm.Malloc | component/os/os_dep/tcm_heap.c:243-253 | A block with its size stored in front of it |
| TcmHeap.Tcm.Free | component/os/os_dep/tcm_heap.c:281-290 | The stored size is recovered, so that the whole block goes back |
| Crc.RunIsTheRemainder | component/common/utilities/uart_ymodem.c:370-381 | Shifting a message through the register leaves its remainder by the polynomial x^16+x^12+x^5+1, and nothing else is that remainder |
| Crc.CrcLoop | component/common/utilities/uart_ymodem.c:367-382 | The loop in an unmasked 32-bit register computes that remainder in its low 16 bits, for any length |
| Crc.ResidueIff | component/common/utilities/uart_ymodem.c:384 | A message followed by 16 bits has remainder zero if and only if the bits are its remainder |
| Crc.MatchIffResidue | component/common/utilities/uart_ymodem.c:384 | The two check bytes match if and only if the CRC of payload and check bytes is zero |
| Crc.BurstDetected | component/common/utilities/uart_ymodem.c:370-381 | Two messages of one length that differ only within 16 consecutive bits have different remainders |
| Crc.BurstChangesCrc | component/common/utilities/uart_ymodem.c:367-389 | Two payloads of one length that differ only within 16 consecutive bits never share a CRC |
| Crc.CheckValue | component/common/utilities/uart_ymodem.c:370-381 | The CRC of the nine digits is 0x31C3, the value published for this polynomial and register |
| Crc.SumZero | component/common/utilities/uart_ymodem.c:355-363 | A block sums to zero if and only if it is all zeros |
| Crc.CrcCheck | component/common/utilities/uart_ymodem.c:335-405 | In CRC mode a block that is not all zeros is accepted in time if and only if the CRC of payload and check bytes is zero, and marked as damaged if it is not; a timeout gives 1, and a block of zeros 2 and no mark; in checksum mode, when a right checksum is accepted |
| Crc.ChecksumModeDoubles | component/common/utilities/uart_ymodem.c:355-396 | In checksum mode the sum is added twice: a block with its right checksum, in time, is accepted if and only if that checksum is zero and the block is not all zeros |
| Crc.RightChecksumRejected | component/common/utilities/uart_ymodem.c:355-396 | The block of one byte 1 is rejected with its right checksum 1 and accepted with 2; a block of one zero is answered by 2 |
| Division.DivModUnique | component/os/freertos/freertos_service.c:37-68 | Quotient and remainder are determined by n = q*base + r, r < base |
| Division.Align | component/os/freertos/freertos_service.c:52-55 | The doubled divisor reaches the remainder without overflowing 64 bits, and the loop ends |
| Division.Div64 | component/os/freertos/freertos_service.c:37-68 | For every 64-bit n and non-zero 32-bit base: n = q*base + r with r < base |
| Division.Modular64 | component/os/freertos/freertos_service.c:459-472 | The remainder by the base cut to 32 bits |
| Division.TruncationHarmless | component/os/freertos/freertos_service.c:459-461 | Cutting the base to 32 bits is harmless for all n if and only if it fits them |
| ConnRows.HangRow | component/common/api/at_cmd/atcmd_lwip.c:1542-1567 | Linking a connection behind the last keeps the lists free of cycles and sharing |
| ConnRows.HangSeed | component/common/api/at_cmd/atcmd_lwip.c:1569-1592 | The same for a seed behind the last of its server |
| ConnRows.CutMainLinked | component/common/api/at_cmd/atcmd_lwip.c:1487-1491 | Unlinking a connection leaves the lists of the others |
| ConnRows.CutSeedLinked | component/common/api/at_cmd/atcmd_lwip.c:1496-1505 | Unlinking a seed leaves the rest of its list |
| ConnState.Change | component/common/api/at_cmd/atcmd_lwip.c:1446-1540 | A node outside the lists may change its fields, keep its index and give up its socket, without harm to the table |
| ConnState.CutCore | component/common/api/at_cmd/atcmd_lwip.c:1487-1507 | Unlinking keeps the invariant of the table, but for what was unlinked |
| ConnState.DeleteTakes | component/common/api/at_cmd/atcmd_lwip.c:1479-1540 | Deleting takes the node and its seeds out of the lists, and nothing else |
| ConnState.DeleteClosesOnce | component/common/api/at_cmd/atcmd_lwip.c:1510-1533 | The sockets closed by a deletion are those owned by the node and its seeds, each once, each open until then |
| ConnState.AllClosedOnce | component/common/api/at_cmd/atcmd_lwip.c:961-971 | The sockets closed when all connections are closed are those owned by the hung nodes but the sentinel, each once over the whole table, each open until then |
| ConnState.ClosedAreHeld | component/common/api/at_cmd/atcmd_lwip.c:961-971 | By the fields of the nodes: those sockets are the ones that a node behind the sentinel holds, other than a UDP seed |
| ConnTable.Table.Init | component/common/api/at_cmd/atcmd_lwip.c:2126-2131 | A pool of free nodes and the sentinel |
| ConnTable.Table.CreateNode | component/common/api/at_cmd/atcmd_lwip.c:1454-1477 | The first free node of the pool, carrying its own index; none if and only if all are in use |
| ConnTable.Table.HangNode | component/common/api/at_cmd/atcmd_lwip.c:1542-1567 | The connection hangs last, unless it is a server that is already there |
| ConnTable.Table.HangSeedNode | component/common/api/at_cmd/atcmd_lwip.c:1569-1592 | The seed hangs last under its server, unless that peer is already there |
| ConnTable.Table.SeekNode | component/common/api/at_cmd/atcmd_lwip.c:1594-1614 | Finds the hung node of that id, the sentinel excepted, if and only if there is one |
| ConnTable.Table.Unlink | component/common/api/at_cmd/atcmd_lwip.c:1486-1508 | One pass over both levels takes the node out, wherever it hangs |
| ConnTable.Table.FreeSeeds | component/common/api/at_cmd/atcmd_lwip.c:1510-1526 | The seeds of a server become free and their sockets are closed |
| ConnTable.Table.DeleteNode | component/common/api/at_cmd/atcmd_lwip.c:1479-1540 | The whole effect of a deletion: lists, free nodes, closed sockets in order, the ended task; the invariant is kept |
| ConnTable.Table.SocketCloseAll | component/common/api/at_cmd/atcmd_lwip.c:961-971 | Ends with only the sentinel left and every hung node free; the sockets that nodes other than UDP seeds held are closed in order, none twice, each open until then, and all others stay open |
| ConnTable.Table.TakeSocket | component/common/api/at_cmd/atcmd_lwip.c:149-151 | A node that hangs nowhere may be given a socket of its own |
| ConnTable.Table.Describe | component/common/api/at_cmd/atcmd_lwip.c:879-880 | A node that hangs nowhere may be given its address, port and task |
| ConnTable.Table.BorrowSocket | component/common/api/at_cmd/atcmd_lwip.c:1668-1676 | A UDP seed uses the socket of its server; this branch is compiled out at present, but the deletion of nodes still allows for such seeds |
| SystemData.SetSystemWord | component/common/utilities/update.c:361-392 | Only the chosen word changes, besides those of the backup sector, which ends erased when it was used, only erased cells are written, and at every step one of the sectors holds the old or the new contents |
| SystemData.Rewrite | component/common/api/at_cmd/atcmd_sys.c:331-360 | The same by way of the backup sector, for a word in any slot |
| SystemData.CopySector | component/common/api/at_cmd/atcmd_sys.c:343-354 | Copying a sector word by word into an erased one, with one word patched |
| OtaStream.ReceiveHalfWords | component/common/utilities/update.c:251-312 | However the stream is cut, flash holds it, padded to an even length, size and checksum are those of the stream, and every write has even length at an even offset |
| OtaStream.CarriedRead | component/common/utilities/update.c:274-304 | A waiting byte goes out with the first byte of the next read |
| OtaStream.Flush | component/common/utilities/update.c:309-314 | A waiting byte at the end goes out with a zero |
| OtaStream.ReceiveImage | component/common/utilities/update.c:570-619 | However the image is cut into reads of four bytes or more, flash holds it, the checksum is the sum of all but the last four bytes, those four are kept, and the read-back agrees |
| OtaStream.CountMore | component/common/utilities/update.c:579-604 | One more read keeps the running checksum that of all but the last four bytes |
| OtaStream.ReadBack | component/common/utilities/update.c:612-619 | The sum over flash, a buffer at a time |
| ParseParam.RoundTrip | component/common/api/at_cmd/log_service.c:211-266 | Splitting a command of at most eleven fields joined by commas gives back the fields that are kept |
| ParseParam.BracketedRoundTrip | component/common/api/at_cmd/log_service.c:222-261 | The same for at most ten fields in brackets |
| ParamGrammar.SplitCommand | component/common/api/at_cmd/log_service.c:211-266 | Of any command, with quotes and escapes, text behind a closing quote, and any run of commas and brackets between its items, argv gets each item and a null pointer for each gap between two commas; the last that argv has room for ends it, and it is said when a pointer or a quoted text would leave its buffer |
| ParamGrammar.SplitShort | component/common/api/at_cmd/log_service.c:211-266 | With ten arguments or less these are all the items and gaps, whatever delimiters stand between them |
| ParseParam.KeptAll | component/common/api/at_cmd/log_service.c:222-228 | All fields come back, the empty ones as null pointers, if and only if neither the first nor the last is empty |
| ParseParam.KeptTailIs | component/common/api/at_cmd/log_service.c:222-228 | Of the fields behind the first, all come back but a last empty one |
| ParseParam.UnquoteEscaped | component/common/api/at_cmd/log_service.c:243-253 | Undoing the escapes of a quoted field gives back its text |
| ParseParamLoop.Parse | component/common/api/at_cmd/log_service.c:211-266 | In place: argc and argv are those of the reference, each argument a terminated string in the buffer, other entries of argv untouched |
| ParseParamLoop.ParseJoined | component/common/api/at_cmd/log_service.c:211-266 | Splitting a command joined from at most eleven fields, in place: argc and argv stand for the fields that are kept, which are all of them if and only if neither the first nor the last is empty |
| ParseParamLoop.ParseCommand | component/common/api/at_cmd/log_service.c:211-266 | Splitting any such command in place: argc and argv stand for what it means |
| ParseParamLoop.Turn | component/common/api/at_cmd/log_service.c:221-262 | One round of the outer loop keeps the arguments already split |
| ParseParamLoop.Delims | component/common/api/at_cmd/log_service.c:222-229 | Delimiters become terminators, and two commas in a row a null pointer |
| ParseParamLoop.QuotedField | component/common/api/at_cmd/log_service.c:233-256 | The field without its escapes, copied back over itself, and terminators up to its closing quote |
| UartRing.AnyInterleaving | component/common/utilities/uart_socket.c:39-276 | Over every interleaving of arrivals and reads: the unread bytes are the last that arrived, reads return in order and without repeats, the bytes missing are exactly those that arrivals at a full ring cost, and nothing is missing if and only if no byte arrived at a full ring |
| UartRing.FullDrops | component/common/utilities/uart_socket.c:39-46 | A byte that arrives when 1024 are unread costs the oldest of them, or all in the last slot; the others stay unread in order with the new one behind them |
| UartRing.MissingIsLost | component/common/utilities/uart_socket.c:39-276 | Over any run, from any state, what is neither unread nor handed out grows by exactly what the arrivals at a full ring cost |
| UartRing.UartSocket.ReceiveByte | component/common/utilities/uart_socket.c:39-46 | The ring fields stand for the queue with the byte received |
| UartRing.UartSocket.Read | component/common/utilities/uart_socket.c:230-276 | The oldest unread bytes are copied out, as many as are asked for, or all there are if that is less, and the others stay unread |

## Left out

- JsonPrinter.PrintNumber: models 32-bit integers only, because the floating point formats of sprintf are not modelled.
- JsonParser.ParseNumberInto: takes doubles as exact reals, and the cast to int as truncation without a range.
- JsonParser.ParseStringInto: collects the string as a sequence and reads past the end of a malformed text (a lone backslash, a cut `\u`) as the terminator; the buffer it counts beforehand is the subject of JsonStringBuffer.BufferFitsIff.
- JsonParser.ParseWithOptions: does not model the deletion of a partial tree after an error.
- JsonList.ReplaceItemInArray: leaves the old item detached; freeing it is not modelled.
- JsonMinifyLoop.MinifyInPlace: requires that literals and block comments are closed, because the code runs out of its buffer otherwise.
- XmlParser.Parse: the buffers of a recursion are substrings, so the copying of the text is not modelled, and texts that make the code follow a null pointer are excluded.
- XmlDump.DumpTreeEx: requires that the dump fits, because the code writes past its buffer otherwise; negative values of `new_line` and `space` are not modelled.
- XmlAttributes.SetIsUpdate: attribute values hold no `=` and at most one kind of quote, and names are distinct, because the search can mistake such text for an attribute.
- JsonGrammar.TextParses: numbers outside the grammar of RFC 8259, such as `01`, `1.` or `1e`, are not looked at.
- XmlDocument.DocumentIff: of names that start with `?` or `!` it says nothing; for dumps that is XmlProlog.MarkedIsLost.
- XmlGrammar.ParseIff: behind a root whose end tag has spaces, text with an end tag of its name without them is not looked at; white space other than the space is not one in a tag, as in the code.
- XmlRoundTrip.RoundTrip: names and prefixes are not empty and hold none of space, `:`, `/`, `<`, `>`, attribute texts are stripped, hold no angle bracket and do not end in `/`, an element holds only elements or exactly one text; other trees are not looked at.
- XmlAttributes.ListTagRoundTrip: what is read when a value shows the declaration of the prefix in front of it is left to XmlRoundTrip.UriRead.
- XmlWhole.DumpAndParse: requires the condition of XmlProlog.ParseXmlRoundTrip, without which another document comes back, or none.
- TcmHeap.Tcm.AllocMem: sizes are not negative and leave room for rounding in an int; the lock is not modelled.
- Crc.CrcCheck: timeouts and the received bytes are parameters; the thread around it is not modelled.
- ConnTable.Table.DeleteNode: never called with the sentinel, and only with nodes in use, as its callers do; each critical section is one step.
- ConnTable.Table.HangNode: hangs only nodes that hang nowhere, as its callers do.
- OtaStream.ReceiveImage: reads are of at least four bytes, because the code reads in front of its buffer otherwise; bytes are unsigned.
- OtaStream.ReceiveHalfWords: bytes are unsigned, reads are not empty, and the erased region has room for the padding.
- ParseParamLoop.Parse: commands whose quotes are not closed, or that fill argv or the 64 bytes of a quoted field beyond their ends, are excluded.
- UartRing.UartSocket.Read: one step against the interrupt handler; races inside it are not modelled.
- Allocation failures, everywhere.
- xml_doc_name, xml_parse_doc, xml_find_element, xml_copy_tree, xml_set_text: variations of what is modelled.
- References to items of another tree (create_reference), cJSON_Delete, the creation of arrays of numbers and strings.
- The names of AT commands, sockets, Wi-Fi, the HTTP server, the mailboxes, the RTOS services and the generated bindings: no algorithm of their own, or over libraries not shown.
- StoreApInfo in the web server: the backup sector pattern again.
- The CMSIS pools, the tick accounting and the splitting of HTTP URLs: easy members only.
