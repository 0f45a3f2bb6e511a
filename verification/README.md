# Verified model of jbdtool

jbdtool talks to JBD battery management systems over serial, IP, Bluetooth and CAN
links, and keeps what it reads and writes in JSON and ini files. This project models
the code in it that has to be exactly right for data to survive a trip, and proves
that it does:

* **the JSON engine** (`parson.c`): the cursor parser, the two-pass serializer, string
  escapes with UTF-16 surrogates, UTF-8 checking, the comment blanker, the object store,
  dotted paths, comparison, copying and schema validation;
* **lists and configuration** (`list.c`, `cfg.c`): the doubly linked list with its
  embedded cursor and payload-swapping sort, and the ini reader and writer;
* **the BMS wire protocol** (`jbd.c`): frames and their checksum, the CAN CRC, and the
  two bounded request loops, for every behaviour of the transport;
* **bit fields** (`main.c`): masks shown as names, as text or as a JSON array, and read
  back;
* **netlink attributes** (`can.c`): building nested, padded attributes and parsing them.

Where the source updates things in place, so does the model: cursors, buffers, links and
arrays are classes and arrays, and each method is tied by its contract to a pure function
of the old state. The theorems are about those functions, so they hold of every call and
every run.

| files | what they hold |
|---|---|
| `CString`, `Bytes`, `Wrappers`, `Libc` | C strings, byte buffers, and the laws assumed of `sprintf("%1.17g")` and `strtod` |
| `JsonValue`, `JsonText`, `Utf8`, `JsonPrinter`, `JsonParser` | the JSON tree, string escapes, UTF-8, the pure printer and the pure parser |
| `JsonGrammar`, `JsonLiterals`, `JsonAcceptance` | JSON texts as trees of every choice a writer has, and the parser's agreement with them |
| `JsonRoundTrip`, `JsonLayout` | printer and parser undo each other, what exactly is accepted, and what printed text looks like |
| `JsonSerializer`, `JsonReader`, `JsonComments` | the imperative serializer, reader and comment blanker |
| `JsonObjects`, `JsonPaths`, `JsonEquality`, `JsonPointwise` | the object store, dotted paths, comparison, copy, validation, and what the last two mean at every path |
| `ListModel`, `LinkedList` | the list as a sequence with a cursor, and the linked nodes |
| `CfgModel`, `CfgRoundTrip`, `CfgLines`, `CfgComments`, `CfgBuffer`, `Cfg` | the configuration store as values, its round trips, lines and their parts, comments, which files are read the same over every line buffer, and the functions over a file |
| `JbdFrame`, `CanCrc`, `CanBurst`, `Transport`, `JbdSession` | frames, the CAN CRC by bytes and by bits, arbitrary transports, the request loops |
| `BitNames`, `BitNumbers`, `BitDisplay`, `BitRoundTrip` | parsing names and numbers, showing names, and the trips between |
| `Netlink` | attributes |

Things the proofs turned up, stated as lemmas or exact conditions:

* `json_value_equals` compares numbers with a tolerance, so it is not transitive
  (`JsonEquality.EqualsNotTransitive`); it is exactly where the tolerance is, as among
  integers (`JsonEquality.TransitiveExactly`). Reflexivity, symmetry, blindness to key order
  and agreement with `json_validate` hold for all values with unique keys.
* The parser accepts exactly the JSON texts of RFC 8259, with any `isspace` character as white
  space and the decimal numerals of `strtod`, with two exceptions: a minus sign without digits
  passes for zero at the end of a text (`JsonRoundTrip.ParseExactly`), and a zero directly
  followed by an exponent is refused (`JsonRoundTrip.RfcNumberAccepted`).
* A quote in a line comment counts as the start of a string when block comments are blanked
  (`JsonComments.QuoteInLineComment`).
* `is_valid_utf8` is exact for a whole C string, but given a shorter length it also accepts
  a text cut inside a sequence (`Utf8.PrefixExact`, `Utf8.CutSequenceAccepted`).
* The guard of `jbd_cmd` leaves out the three closing bytes, so three lengths pass it
  without fitting (`JbdFrame.OverrunsExactly`, `JbdFrame.OverrunAt250`).
* The JBD checksum does not see the order of bytes (`JbdFrame.SwapUnnoticed`).
* `jbd_can_get` takes any reply whose checksum field is zero, and so every reply too short to
  have one (`JbdSession.ShortReplyTaken`, `JbdSession.EmptyReplyTaken`); what passed carries its
  checksum exactly when the field says something (`JbdSession.GoodReplyChecked`).
* The CRC notices all damage within sixteen bits of the data and every odd number of flipped
  bits (`CanBurst.BurstDetected`, `CanBurst.OddFlipsDetected`), but not all damage that
  reaches into the checksum itself, which is sent high byte first. A damaged reply is taken
  exactly when it is left with a checksum field of zero, or when the damage does to the field
  what it does to the checksum of the data (`JbdSession.DamageTakenExactly`; an instance is
  `JbdSession.SpanningDamageTaken`).
* `jbd_rw` copies the payload of a good answer whole, so it goes past the caller's buffer
  exactly when the length returned is greater than the buffer's (`JbdSession.Rw`); every buffer
  of fewer than 249 bytes has such an answer, and only those (`JbdSession.LongPayloads`).
* With `-c` before `-j` the separator stays a blank, and the array text of two or more
  names is then not JSON (`BitRoundTrip.SeparatorMatters`).
* Labels of 31 characters or more do not survive the 32-byte label buffer; shorter ones
  always do (`BitRoundTrip.TruncationExactly`).
* A configuration line whose keyword reaches its end takes its value from what an earlier
  line left in the buffer (`CfgRoundTrip.OwnValueExactly`). So `cfg_read` is a function of the
  file exactly when no setting is left whose last value ran past all that the file had put
  into the buffer (`CfgBuffer.ReadExactly`); the file `[A]`, `KEYS` leaves one
  (`CfgBuffer.BareIsLoose`).
* Writing puts a `;` before every comment that has none, `#` comments included; nothing else
  changes on the way through a file (`CfgRoundTrip.WriteRead`).
* Removing a dotted path leaves the objects that setting it created
  (`JsonPaths.DotRemoveUndoes`).

## Model

| member | source | states |
|---|---|---|
| JsonRoundTrip.ParsePrint | parson.c:696-877 | for every well-formed value within the nesting limit and every delimiter behind it, parsing its compact or pretty text gives the value, with its key order, and leaves exactly what followed |
| JsonRoundTrip.ParsePrintedText | parson.c:1139-1147 | `json_parse_string` inverts both printers on whole texts |
| JsonRoundTrip.ParsedIsWellFormed | parson.c:696-877 | every tree the parser returns, from any text, has unique NUL-free keys and finite numbers and stays within the nesting limit, so it satisfies the conditions of the round trip |
| JsonRoundTrip.ParseExactly | parson.c:696-877 | from any text, `parse_value` returns a value and leaves a rest exactly when the text is blanks, a document of the RFC 8259 grammar of that value within the nesting limit, and the rest; or when it is a minus sign without digits, which passes for zero |
| JsonRoundTrip.ParseDelimited | parson.c:696-877 | in front of a delimiter it is exactly the grammar, without the exception |
| JsonRoundTrip.ParseTextExactly | parson.c:1139-1147 | the same for whole texts, behind the three octets of a byte order mark if they are there |
| JsonRoundTrip.LeadingZeroRefused | parson.c:270-283 | a zero in front of a digit is refused, with or without a minus sign, whatever follows |
| JsonRoundTrip.RfcNumberAccepted | parson.c:859-869 | every number of RFC 8259 in the range of `strtod` is accepted with its value, but for a zero directly followed by an exponent, which is refused |
| JsonRoundTrip.NestingExactly | parson.c:696-699 | 2049 brackets within each other are accepted, and one more is refused |
| JsonRoundTrip.LaidDoc | parson.c:891-1028 | printed text is the text of a valid document of the value printed |
| JsonAcceptance.ReadDoc | parson.c:696-877 | every valid document, with any blanks, escapes and numerals, is read whole with its value |
| JsonAcceptance.DocOf | parson.c:696-877 | whatever is read is a valid document of the value returned, behind blanks |
| JsonAcceptance.ReadKey | parson.c:737-752 | a key in any spelling, a colon, and blanks on both sides of it are read whole |
| JsonLiterals.QuotedLiteral | parson.c:559-694 | every literal, with two-character escapes, hexadecimal escapes in either case and surrogate pairs, is read whole with its value |
| JsonLiterals.LiteralOf | parson.c:559-694 | what is read as a string is such a literal: no raw control characters, no lone surrogates, no other escapes |
| JsonLiterals.NumeralOf | parson.c:859-869 | what is read as a number is a decimal numeral without superfluous leading zeros |
| JsonReader.ParseJson | parson.c:1139-1147 | the cursor parser, byte order mark included, returns what the pure parser says of the text |
| JsonReader.Cursor.ReadValue | parson.c:696-719 | moves the cursor exactly behind the value, or fails, as the grammar function says of the rest of the text |
| JsonReader.Cursor.ReadObject | parson.c:721-783 | the member loop agrees with the grammar: keys, colons, duplicate keys refused, closing brace |
| JsonReader.Cursor.ReadArray | parson.c:785-829 | the element loop agrees with the grammar up to the closing bracket |
| JsonReader.Cursor.ReadString | parson.c:831-844 | a string value agrees with the grammar |
| JsonReader.Cursor.ReadBoolean | parson.c:846-857 | the two literals agree with the grammar |
| JsonReader.Cursor.ReadNumber | parson.c:859-869 | a number is what `strtod` consumed, if it is decimal |
| JsonReader.Cursor.ReadNull | parson.c:871-877 | the literal agrees with the grammar |
| JsonReader.Cursor.SkipQuotes | parson.c:559-577 | succeeds exactly on a quoted string and stops exactly behind its closing quote |
| JsonReader.Cursor.ProcessString | parson.c:628-683 | its character loop computes the unescaping of exactly the bytes between the quotes, never reading the closing one |
| JsonReader.Cursor.GetQuotedString | parson.c:685-694 | returns the unescaped text and leaves the cursor behind the closing quote |
| JsonReader.StepSkips | parson.c:559-577 | a character that unescapes, however long its escape, is passed over whole by the quote scanner, so both scanners agree where the string ends |
| JsonReader.StepWithin | parson.c:628-683 | no escape in a string the scanner delimited reaches the closing quote |
| JsonText.Unescape | parson.c:628-683 | never produces more bytes than it consumes, so the output buffer suffices |
| JsonText.UnescapeEscape | parson.c:1030-1095 | unescaping the escaped form of any byte string, NUL and control bytes included, slashes escaped or not, gives it back |
| JsonText.SkipEscaped | parson.c:559-577 | the quote scanner passes over any escaped text without stopping inside it |
| JsonText.QuotedRoundTrip | parson.c:685-694 | reading a printed string behind which anything follows gives the string and the exact length |
| JsonText.Utf16DecodesToUtf8 | parson.c:579-623 | the `\u` form of every scalar value, as one unit or a surrogate pair (section 7 of RFC 8259), decodes to its UTF-8 (section 3 of RFC 3629), which the sequence check accepts with the same code point |
| JsonText.Utf16OnlyScalars | parson.c:579-623 | what is accepted is always a scalar value; lone or swapped surrogates never are |
| Utf8.VerifyIsGrammar | parson.c:216-256 | a sequence of n octets is accepted exactly when it is a UTF8-char of section 4 of RFC 3629 |
| Utf8.VerifyDecodes | parson.c:216-256 | the encoding of every scalar value is accepted, with its code point and length, whatever follows |
| Utf8.VerifyEncodes | parson.c:216-256 | everything accepted is the encoding of the scalar value decoded from it |
| Utf8.IsValidUtf8 | parson.c:258-268 | the loop computes the recursive check, reading past the given length as the C code does |
| Utf8.WholeStringExact | parson.c:258-268 | over a whole C string the check accepts exactly the UTF8-octets of RFC 3629 |
| Utf8.PrefixExact | parson.c:258-268 | given a shorter length, it accepts exactly those and the texts whose last sequence the length cuts |
| Utf8.CutSequenceAccepted | parson.c:258-268 | such a text is accepted: one octet of a two-octet sequence |
| JsonSerializer.SerializeR | parson.c:891-1028 | measuring (no buffer) and writing return the same length, the printer's; writing puts the printer's text there, touches nothing beyond its end mark and leaves it terminated |
| JsonSerializer.SerializeString | parson.c:1030-1095 | the same for strings, character by character |
| JsonSerializer.AppendIndent | parson.c:1097-1104 | the same for indentation |
| JsonSerializer.SerializationSize | parson.c:1539-1543 | the announced size is the length of the text plus one, compact or pretty |
| JsonSerializer.SerializeToBuffer | parson.c:1545-1556 | succeeds exactly when the buffer has the announced size, and a refused buffer is not touched |
| JsonSerializer.SerializeToString | parson.c:1580-1597 | the new buffer holds exactly the text and its terminator, and as a C string it is the whole text |
| JsonSerializer.PrintNulFree | parson.c:1030-1095 | no printed text contains NUL, though strings may |
| JsonLayout.PrintedLayout | parson.c:891-1104 | compact text has no white space outside literals; pretty text is the compact text with a new line of four blanks for each open bracket behind every comma and inside every non-empty bracket, and a blank behind every colon; without that white space it is the compact text again; every slash is escaped, or none, as asked |
| JsonLayout.PrettyIsLaidOut | parson.c:1097-1104 | text laid out in that way has every line indented by four blanks for each bracket open at its first character |
| JsonLayout.EscapeShortest | parson.c:1030-1095 | no literal of the grammar that stands for a string is shorter than the one printed when slashes are left alone |
| JsonLayout.EscapeForm | parson.c:1037-1085 | escaping a slash costs one character, and hexadecimal escapes are in lower case |
| JsonComments.RemoveComments | parson.c:318-351 | the in-place loop computes the pure blanking, of the same length |
| JsonComments.FindFirst | parson.c:318-351 | the end token found is the first one behind the start token |
| JsonComments.OnlySpacesWritten | parson.c:318-351 | every character stays or becomes a blank |
| JsonComments.CommentsBlanked | parson.c:318-351 | every character in a comment of the text becomes a blank and every other one stays; the literals of the text are exactly the literals of the result |
| JsonComments.LiteralsUntouched | parson.c:318-351 | a character inside a string literal of the text is never altered, and stays inside a literal |
| JsonComments.PrintedHasNoComments | parson.c:318-351 | blanking changes no printed text, not even where strings contain comment marks |
| JsonComments.ParseWithCommentsInverts | parson.c:1149-1162 | the comment-aware parser inverts both printers |
| JsonComments.CommentStripped | parson.c:318-351 | a comment goes from its start token up to and including the first end token behind it |
| JsonComments.BlockCommentSkipped | parson.c:1149-1166 | a block comment in front of any text changes nothing of what is parsed |
| JsonComments.LineCommentSkipped | parson.c:1149-1166 | nor does a line comment that the pass for block comments leaves alone |
| JsonComments.QuoteInLineComment | parson.c:318-351 | a quote in a line comment makes that pass miss the next block comment |
| JsonObjects.ObjectStore.constructor | parson.c:354-365 | an empty store |
| JsonObjects.ObjectStore.AddMember | parson.c:374-397 | appends unless the name is there, growing by doubling exactly when full |
| JsonObjects.ObjectStore.Resize | parson.c:399-427 | growing keeps every member; zero is refused, whatever the store holds, and then nothing changes |
| JsonObjects.ObjectStore.Find | parson.c:429-441 | the search finds the first member of the name |
| JsonObjects.ObjectStore.Get | parson.c:429-441 | lookup returns its value |
| JsonObjects.ObjectStore.RemoveMember | parson.c:443-464 | removal moves the last member into the gap and keeps the others |
| JsonObjects.ObjectStore.SetMember | parson.c:1824-1843 | replaces in place or adds; a value with a parent is refused |
| JsonObjects.ObjectStore.Clear | parson.c:2000-2011 | empties the store and keeps its capacity |
| JsonObjects.AddRefines | parson.c:374-397 | adding a new name is map update |
| JsonObjects.SetRefines | parson.c:1824-1843 | replacing is map update |
| JsonObjects.RemoveRefines | parson.c:443-464 | swap-with-last removal is map removal, and succeeds exactly for known names |
| JsonObjects.ApplyRefines | parson.c:374-464 | each operation keeps names unique and does to the map what it should, result included |
| JsonObjects.RunRefines | parson.c:374-464 | so does any sequence of add, set, remove and clear, and the count is the size of the map |
| JsonObjects.PlacesExactly | parson.c:374-464 | a new name goes behind all others, a known one keeps its place, and the last member takes the place of a removed one |
| JsonPaths.DotSetGet | parson.c:1890-1930 | after a successful set, the same path reads the new value |
| JsonPaths.DotSetElsewhere | parson.c:1890-1930 | every path that is neither a prefix nor an extension of it reads as before |
| JsonPaths.DotSetFailure | parson.c:1890-1930 | a failed set changes nothing, at any depth |
| JsonPaths.DotSetSucceeds | parson.c:1890-1930 | it succeeds exactly when the value is free and no step of the path is blocked |
| JsonPaths.BlockedMeaning | parson.c:1890-1930 | blocked means that some proper prefix of the path holds a value that is not an object |
| JsonPaths.DotSetKeepsUnique | parson.c:1890-1930 | names stay unique in every object of the tree |
| JsonPaths.DotGetCompose | parson.c:1197-1204 | reading a joined path is reading its parts one after the other |
| JsonPaths.DotRemoveUndoes | parson.c:466-479 | removing a path that was absent and newly set succeeds and makes it absent again; the tree is the old one exactly when no object on the way had to be created |
| JsonPaths.DotRemoveExactly | parson.c:466-479 | removal succeeds exactly when the path leads somewhere; then the path is absent and every unrelated one reads as before, otherwise nothing changes |
| JsonEquality.EqualsReflexive | parson.c:2073-2136 | every value equals itself |
| JsonEquality.Pigeonhole | parson.c:2073-2136 | equal counts and one-sided lookup suffice: every key of the second object is a key of the first |
| JsonEquality.EqualsSymmetric | parson.c:2073-2136 | comparison is symmetric on values with unique keys, although only the first object's keys are looked up |
| JsonEquality.EqualsIgnoresOrder | parson.c:2073-2136 | reordering the keys of one side, at any depth, does not change the answer |
| JsonEquality.OrderBlind | parson.c:2073-2136 | nor does reordering both sides |
| JsonEquality.TransitiveExactly | parson.c:2073-2136 | on values whose numbers come from any given set, comparison is transitive exactly when the number tolerance is transitive in that set |
| JsonEquality.IntegersTransitive | parson.c:2073-2136 | so it is transitive on values whose numbers are integers |
| JsonEquality.EqualsNotTransitive | parson.c:2073-2136 | and not in general |
| JsonEquality.DeepCopy | parson.c:1459-1537 | the recursive copy rebuilds the value, equal to its source both ways, and fails exactly when some object repeats a key |
| JsonEquality.ValidateRespectsEquals | parson.c:2013-2071 | equal values pass exactly the same schemas |
| JsonPointwise.EqualsExactly | parson.c:2073-2139 | trees with unique names are equal exactly when at every path both have nothing, or values of one kind with identical strings and booleans, equally many children, and numbers less than 0.000001 apart |
| JsonPointwise.ValidateExactly | parson.c:2013-2071 | a value passes exactly when at every path it has the kind the schema demands there, an object all the names demanded and no fewer members |
| LinkedList.List.constructor | list.c:156-175 | an empty list |
| LinkedList.List.Add | list.c:78-110 | appends; links stay mutually inverse, and the cursor is set on the first element |
| LinkedList.List.AddList | list.c:112-136 | appends all elements of the other list in order |
| LinkedList.List.Count | list.c:138-154 | counts the elements |
| LinkedList.List.Delete | list.c:177-218 | unlinks the first node of that payload, moving the cursor on when it stood there |
| LinkedList.List.Dup | list.c:236-263 | a new list with the same elements |
| LinkedList.List.GetNext | list.c:265-286 | returns the element under the cursor and moves on |
| LinkedList.List.IsNext | list.c:288-291 | tells whether there is one |
| LinkedList.List.Reset | list.c:293-299 | puts the cursor on the first element |
| LinkedList.List.Sort | list.c:313-357 | for any strict weak order and either direction, terminates with the payloads ordered, a permutation of the old ones, on unchanged nodes |
| LinkedList.SwapCloser | list.c:313-357 | each swap leaves strictly fewer later elements on the wrong side of the current one, and the settled prefix settled |
| ListModel.IterationInOrder | list.c:265-299 | whatever adds and deletes are interleaved, deletes of the element under the cursor included, an iteration returns elements in insertion order, each at most once, and accounts for every element |
| ListModel.IterationComplete | list.c:265-299 | an iteration from a reset that ran to its end has returned every element still in the list, except those added after it was over |
| ListModel.AddAllAppends | list.c:112-136 | appending a list is concatenation |
| ListModel.CompareStringsStrict | list.c:301-311 | string comparison meets what the sort asks, both ways |
| ListModel.CompareStringsExactly | list.c:301-311 | it tells which string ends first or has the smaller character where they first differ |
| CfgRoundTrip.WriteRead | cfg.c:709-741 | for every store whose text is well formed, reading what was written gives the same sections, items, order and comments, whatever the line buffer held; comments come back with a leading `;`, so the store itself comes back exactly when every comment had it |
| CfgRoundTrip.StoreTextMarked | cfg.c:728-731 | the file does not show whether a comment had its `;` before |
| CfgRoundTrip.ReadWriteRead | cfg.c:414-526 | a store read from any tidy file does not depend on the line buffer and is well formed; written and read again it comes back with its comments marked, and from then on unchanged |
| CfgRoundTrip.SettingSurvives | cfg.c:280-342 | a setting made in a well-formed store, with any comment, is got again after writing and reading |
| CfgRoundTrip.SetItemKeepsGood | cfg.c:280-342 | setting keeps a store well formed |
| CfgRoundTrip.ReadLine | cfg.c:374-412 | a well-formed line is taken as it stands and the rest of the file is left |
| CfgRoundTrip.ItemOfLine | cfg.c:482-504 | the line of a well-formed item is split into that item again |
| CfgRoundTrip.HeaderLine | cfg.c:452-470 | the header of a well-formed name is recognised and gives that name |
| CfgRoundTrip.ValueWithoutEquals | cfg.c:495-498 | when the keyword reaches the end of its line, the value is whatever the buffer holds one place behind that end |
| CfgRoundTrip.OwnValueExactly | cfg.c:482-504 | the item read from a line is independent of the buffer exactly when the keyword ends before the line does |
| CfgRoundTrip.ReadIndependent | cfg.c:414-526 | for a file whose items all have their own value, `cfg_read` is a function of the file |
| CfgBuffer.ReadExactly | cfg.c:414-526 | `cfg_read` gives the same store over every initial line buffer exactly when one pass over the file, which tracks the part of the buffer already determined, leaves no loose setting |
| CfgBuffer.SettingExactly | cfg.c:414-526 | the same for each setting by itself: it is read alike over every two buffers exactly when it is not among the loose ones |
| CfgBuffer.FilledOver | cfg.c:374-412 | a line overwrites the front of the buffer and leaves the rest as it was |
| CfgBuffer.ItemOver | cfg.c:482-498 | the value of a line runs on into the old buffer exactly when no NUL stands behind its keyword in the determined front |
| CfgBuffer.BareKeyword | cfg.c:482-498 | a keyword without `=` behind the first header takes over what the buffer held from place five on |
| CfgBuffer.BareIsLoose | cfg.c:414-526 | that file is read alike over two buffers exactly when they agree there, and its setting is loose |
| CfgModel.SetThenGet | cfg.c:280-342 | what was set is got, under any spelling of section and keyword; every other setting reads as before |
| CfgComments.SetThenItem | cfg.c:280-342 | the comment afterwards is the one given, or else the one the item had; every other item is as it was, comment included |
| CfgComments.SetKeepsPlaces | cfg.c:280-342 | sections and items keep their places; new ones stand last |
| CfgComments.CommentAttached | cfg.c:475-520 | in an open section, a comment line of either mark becomes, as it stands, the comment of the item line behind it, and the next item has none |
| CfgComments.HeaderDropsComment | cfg.c:452-471 | a comment that no item took is dropped at the next header |
| CfgLines.NonAsciiIgnored | cfg.c:374-412 | a file is read as if its bytes outside ASCII were not there |
| CfgLines.BlanksIgnored | cfg.c:374-412 | white space around a line changes nothing |
| CfgLines.LongLineCut | cfg.c:374-412 | a line is cut behind 1021 characters, the next character is lost, and what follows is a line of its own |
| CfgLines.TrimExactly | utils.c:67-85 | `trim` takes off blanks and control characters in front and white space behind |
| CfgLines.HeaderCut | cfg.c:452-470 | at most 63 characters of a section name count |
| CfgLines.KeywordCut | cfg.c:482-498 | at most 63 characters of a keyword count, and the value then starts behind the next one |
| Cfg.ReadLine | cfg.c:374-412 | the character loop leaves in the buffer, and in the file, what the scan of the text says: spaces in front skipped, other than ASCII dropped, at most 1021 characters, trimmed |
| Cfg.Read | cfg.c:414-526 | the reading loop ends with the store the pure reader gives for the file |
| Cfg.ProcessLine | cfg.c:446-519 | one line opens, closes or extends a section as the pure reader says |
| Cfg.SectionName | cfg.c:461-466 | the bracketed name in upper case, at most 63 characters of it |
| Cfg.ItemKeyword | cfg.c:485-492 | the characters before the `=` in upper case, at most 63 of them |
| Cfg.AddTo | cfg.c:506-517 | an item of the same keyword is deleted and the new one goes to the end |
| Cfg.Info.Write | cfg.c:709-741 | writes exactly the text of the store |
| Cfg.Info.GetSection | cfg.c:528-550 | finds the first section of the name in upper case |
| Cfg.Info.CreateSection | cfg.c:129-151 | appends an empty section under the name in upper case |
| Cfg.Info.LookupItem | cfg.c:173-187 | finds the first item of the keyword |
| Cfg.Info.Get | cfg.c:189-210 | returns the value found by the two lookups |
| Cfg.Info.Set | cfg.c:280-342 | replaces value and, if given, comment in place, or appends, creating the section when missing |
| JbdFrame.Crc | jbd.c:36-46 | the 16-bit accumulator ends with the negated byte sum |
| JbdFrame.Verify | jbd.c:48-90 | accepts a buffer exactly when it is a frame of the request layout for that second byte, with some third byte and at most 255 payload bytes |
| JbdFrame.Cmd | jbd.c:92-116 | writes the frame, no data in a read request, or refuses with the header left; the rest of the buffer is zero and memory behind it stays, except that the frame goes past the buffer exactly for the lengths of the next row |
| JbdFrame.OverrunsExactly | jbd.c:106-112 | the guard passes and the closing bytes go past a buffer of `size` exactly for `size - 7 < n <= size - 4` |
| JbdFrame.OverrunAt250 | jbd.c:106-112 | an instance: 250 bytes of payload in the 256 bytes of `jbd_rw` |
| JbdFrame.FrameInjective | jbd.c:48-116 | a frame is read in one way only |
| JbdFrame.RequestVerifies | jbd.c:48-116 | a built frame is accepted under its second byte exactly when its payload fits the length byte |
| JbdFrame.ChecksumNeverWraps | jbd.c:36-46 | over the at most 257 covered bytes the sum fits 16 bits, so equal checksums mean equal sums |
| JbdFrame.CorruptionUnnoticed | jbd.c:48-90 | changes in status and payload go unnoticed exactly when they keep the byte sum |
| JbdFrame.OneSidedCorruptionRefused | jbd.c:48-90 | changes that only raise bytes, or only lower them, are always refused |
| JbdFrame.SingleByteRefused | jbd.c:48-90 | so is one changed byte anywhere in the frame |
| JbdFrame.SwapUnnoticed | jbd.c:36-46 | two payload bytes may change places unnoticed |
| JbdFrame.KnownFrames | jbd.c:92-116 | two requests and a reply, byte by byte |
| CanCrc.CanCrc | jbd.c:183-199 | the shift loop computes the register function, for messages of any length |
| CanCrc.StepInjective | jbd.c:191-196 | one shift is injective on 16-bit states |
| CanCrc.StepLinear | jbd.c:191-196 | and linear over xor |
| CanCrc.StepsSpread | jbd.c:191-196 | eight shifts push every non-zero byte beyond the low half of the register |
| CanCrc.TwoBytesInjective | jbd.c:183-199 | from a given state, the state behind two bytes determines both |
| CanCrc.AdjacentBytesDetected | jbd.c:183-199 | messages that differ only inside two neighbouring bytes never have the same CRC |
| CanCrc.SingleByteDetected | jbd.c:183-199 | nor do messages that differ in one byte |
| CanBurst.CrcIsBits | jbd.c:183-199 | the byte loop is a loop over single bits, lowest bit of each byte first |
| CanBurst.WindowState | jbd.c:183-199 | up to sixteen bits go through the register as one number mixed in at the start |
| CanBurst.BurstDetected | jbd.c:183-199 | messages that differ only within sixteen consecutive bits, wherever the byte borders are, never have the same CRC |
| CanBurst.CrcLinear | jbd.c:183-199 | the register is linear over xor on whole messages |
| CanBurst.CrcOfDamaged | jbd.c:183-199 | what damage does to the CRC depends on the damage alone |
| CanBurst.OddFlipsDetected | jbd.c:183-199 | messages whose numbers of ones differ by an odd number never have the same CRC |
| CanBurst.KnownCrc | jbd.c:183-199 | the CRC of two bytes, in numbers |
| JbdSession.Rw | jbd.c:296-325 | at most five rounds, each sending the same frame, or nothing when it is refused for its length, although the caller's data is cleared; a length is returned exactly when some round verifies before any read fails, and the data is then the whole payload framed in the first such answer, past the caller's buffer where it is longer, with zeros up to that buffer's end where it is shorter |
| JbdSession.LongPayloads | jbd.c:319-323 | some answer delivers more bytes than the caller's buffer has exactly when that buffer has fewer than 249 |
| JbdSession.GoodIsFramed | jbd.c:319-323 | a round is good for exactly the payload around which the device built a frame |
| JbdSession.StopsAtFirstGood | jbd.c:296-325 | the stopping round is good exactly when a good one comes before any failure, and is then the first |
| JbdSession.CanGet | jbd.c:202-225 | at most four rounds; success exactly when an acceptable reply comes before any write or read fails, and the data is then that reply with zeros behind it |
| JbdSession.CanAttempt | jbd.c:209-220 | one round: write, clear, read, compare checksums |
| JbdSession.DamagedReplyRefused | jbd.c:215-220 | a reply with its checksum, damaged within two neighbouring covered bytes, is never taken |
| JbdSession.DamagedByteRefused | jbd.c:215-220 | with one damaged byte anywhere, the checksum field included, it is taken exactly when the field is left zero |
| JbdSession.DamageTakenExactly | jbd.c:215-220 | a reply that carries its checksum, with any bits flipped, is taken exactly when its field is left zero or the flipped bits of the field are the CRC, started from zero, of those of the data |
| JbdSession.SpanningDamageTaken | jbd.c:215-220 | an instance: one damage across the border between data and checksum that goes unnoticed in every reply that carries its checksum |
| JbdSession.ShortReplyTaken | jbd.c:209-220 | every reply of at most six bytes is taken with the check on, because the cleared buffer supplies a checksum field of zero |
| JbdSession.EmptyReplyTaken | jbd.c:209-220 | the empty reply is, and it does not carry its checksum |
| JbdSession.GoodReplyChecked | jbd.c:215-220 | a reply that passed carries its checksum exactly when its field is not zero or the checksum of its bytes is |
| JbdSession.KnownField | jbd.c:216 | the checksum field holds its high byte first |
| BitNames.ParseBits | main.c:674-730 | returns the mask, or refuses, as the specification of numbers and name lists says |
| BitNames.ParseNames | main.c:704-729 | the nested token loops give the union of the masks of all tokens, or refuse at an unknown one |
| BitNames.NextLabel | main.c:709-714 | takes a whole run of characters and keeps at most 31 of them |
| BitNames.FindFirst | main.c:719-721 | the first entry of a name counts |
| BitNames.SeparatorExactly | main.c:709-718 | white space, comma, bar and plus separate names |
| BitNumbers.EveryNumberStored | main.c:683-702 | the decimal, hexadecimal and octal numerals of any number, with spaces around them and a plus sign allowed, store that number up to 65535 and are refused beyond |
| BitNumbers.NumberStored | main.c:683-702 | the same for every numeral, with leading zeros and digits in either case; with a minus sign only zero is accepted |
| BitNumbers.NumberThenMore | main.c:690-706 | a numeral with anything but spaces behind it is read as names |
| BitDisplay.Buffer.AddStr | main.c:327-344 | appends separator, quotes and name if all of it fits, else nothing, and never overruns the buffer |
| BitDisplay.Display | main.c:396-441 | shows the names of the mask in table order, as text or as array text, inside both buffers |
| BitDisplay.JoinArray | main.c:1325-1344 | joins the strings of an array with commas, stopping at the first that does not fit its buffer |
| BitDisplay.AddedAllIsJoin | main.c:327-344 | what is shown is the join of the names that were kept |
| BitDisplay.KeptAll | main.c:327-344 | nothing is dropped when all names fit together |
| BitDisplay.JoinedArrayIsJoin | main.c:1325-1344 | an array of names is joined to the same text as their plain display |
| BitDisplay.JoinedArrayStops | main.c:1325-1343 | joining takes exactly the texts in front of the first that does not leave a character of the 128 unused |
| BitRoundTrip.TokensSplit | main.c:704-713 | any separator splits a list into the tokens of its two sides |
| BitRoundTrip.OnlyNamesMatter | main.c:674-730 | two lists that mention the same names parse alike: order, case, repeats and separators do not matter |
| BitRoundTrip.TruncationHarmless | main.c:709-718 | with labels of at most 30 characters, cutting a token never makes it match |
| BitRoundTrip.TruncationHarmful | main.c:709-718 | with a label of 31 characters or more in the table, some token means something else when cut |
| BitRoundTrip.TruncationExactly | main.c:709-718 | cutting is harmless for every token exactly when all labels have at most 30 characters |
| BitRoundTrip.TextRoundTrip | main.c:396-416 | for any good table and any mask with a bit in it whose names fit, the text shown is parsed to the mask within the table |
| BitRoundTrip.DisplayNeverLies | main.c:396-416 | even when names had to be dropped, what is read back has no bit the mask lacks |
| BitRoundTrip.NothingRefused | main.c:683-687 | a mask with no bit in the table is shown as nothing, which is refused |
| BitRoundTrip.ParseArrayText | main.c:405-409 | the array text parses to the array of the names |
| BitRoundTrip.SeparatorMatters | main.c:856-860 | with a blank for separator it parses exactly up to one name; with a comma always |
| BitRoundTrip.ArrayRoundTrip | main.c:1325-1350 | shown as a JSON array, stored in any style, read, joined and parsed: the mask within the table |
| BitRoundTrip.ProgramMasksSurvive | main.c:99-121 | for the program's two tables everything fits, so both trips hold for every mask with one of their bits |
| Netlink.Builder.AddAttrL | can.c:558-577 | writes the attribute at the aligned tail and pads, or refuses and changes nothing |
| Netlink.Builder.AddAttr32 | can.c:536-556 | the same for a 32-bit value |
| Netlink.ParseRtattr | can.c:277-286 | ends on any bytes; each entry leads to the last attribute of its type, types out of range are passed over |
| Netlink.LookupNone | can.c:277-286 | an entry is empty exactly when no attribute of its type was met |
| Netlink.LookupLeads | can.c:277-286 | otherwise it leads to one that was |
| Netlink.LookupLast | can.c:277-286 | and no attribute behind that one has its type |
| Netlink.ParsedEncoded | can.c:277-286 | padded attributes are read back in order, whatever the padding holds |
| Netlink.Recovered | can.c:277-286 | with distinct types, the table leads to exactly the attributes written and is empty elsewhere |
| Netlink.AddedHolds | can.c:558-577 | one call extends the region by its attribute, or by nothing, and keeps all before |
| Netlink.CallsReadBack | can.c:536-577 | after any sequence of calls, parsing gives exactly the attributes that found room, in order |
| Netlink.AddOptions | can.c:696-707 | adds the options asked for, in the order of the message, all of which find room |
| Netlink.SetLinkRequest | can.c:687-714 | with the two outer lengths patched in, the request parses as one link info holding the kind and the data, and the data as the options asked for |
| Netlink.NestedRequest | can.c:709-713 | the patched headers make both nested regions parse |
| Netlink.KnownAttributes | can.c:536-577 | the attributes of a request, byte by byte |

## Left out

Not modelled, because it would add only easy members or is foreign code:

- Transports (`bt.c`, `ip.c`, `serial.c`, the sockets of `can.c`), MQTT, locking, logging, daemon and module code, and command-line handling. A transport is an arbitrary source of answers; a read that fails is taken to leave the buffer unchanged.
- Memory allocation and freeing, and the paths that handle their failure: allocation succeeds.
- Rendering and scanning of numbers inside `sprintf` and `strtod`: `Libc.Numbers` is any pair of conversions with a set of numbers on which they undo each other, print at most 63 plausible characters and stop at a delimiter; `strtod` also uses all the digits it can, and a decimal or hexadecimal numeral, or nothing of a minus sign without digits; the integers of up to 17 digits show that such pairs exist. Statements about well-formed values are about numbers of that set.
- Subnormal doubles for which `strtod` sets ERANGE: `parse_number_value` then refuses what the serializer printed, so they cannot belong to that set. A longer numeral of exactly such a value is scanned without ERANGE, although its 17-digit form is refused: `Libc.Numbers` has every scanned value in the set, so `JsonRoundTrip.ParsedIsWellFormed` says nothing of texts with such numerals. Negative zero: numbers are `real`, which has one zero.
- `int` overflow of the serializer's running total, for texts beyond 2 GB.
- Array operations of `parson.c` other than what parsing, copying and comparing use, typed setters and getters, and the parent pointers: a value already owned is a flag of the setters.
- Scaling of voltages and temperatures, cell statistics, and the single-register branches of `pdisp`.
- `strele`, `conv_type` and the typed accessors of `cfg.c`.
- Opening and closing of files; a file is its unread text, its end-of-file flag and what was written.
- Printed messages, among them the error message of `jbd_can_get`, which appears exactly when, with the check on, the fourth attempt succeeds, and the pauses between rounds.

What the modelled members do not capture:

- JsonPaths.DotSetGet: nested objects are values here, so the in-place update of the inner object and aliasing of its wrapper are not part of this model; the single-level store is `JsonObjects.ObjectStore`.
- JsonComments.LineCommentSkipped: comments with quotes, backslashes or slashes are left out, because the first pass looks into them (`JsonComments.QuoteInLineComment`).
- JsonReader.ParseJson: the text is an immutable sequence under a moving cursor; reading its end yields NUL.
- JsonReader.Cursor.ProcessString: the output buffer is an array of the input's length plus one, as in the source, and never overrun; shrinking it to the final length is left out.
- LinkedList.List.Add: payloads are values; the copied bytes, their size and the mutex are not part of this model.
- LinkedList.List.Delete: payloads are compared with `==`, where the C code compares payload addresses: with addresses as payloads, which are distinct, this is the C comparison.
- LinkedList.List.AddList: the second list is another one; appending a list to itself follows its own tail and does not end in the C code.
- Cfg.Info.GetSection: sections and items are sequences handed out by position, where the C code keeps them in the lists modelled by `LinkedList`.
- Cfg.Info.Set: names and keywords longer than their buffers, for which the C code writes past them, are excluded by preconditions, also in `Cfg.Info.Get`, `Cfg.Info.GetSection` and `Cfg.Info.CreateSection`.
- Cfg.Read: a value taken from behind the end of its line stops at the end of the line buffer at the latest.
- CfgRoundTrip.ReadWriteRead: files with control characters, or with item lines whose `=` is missing or out of reach, are not tidy; for the latter the value is not the line's own (`CfgRoundTrip.OwnValueExactly`).
- CfgRoundTrip.ReadIndependent: a sufficient condition, which looks at each line by itself; the exact one, which also counts what earlier lines put into the buffer and what later lines replace, is `CfgBuffer.ReadExactly`.
- JbdFrame.Cmd: where the frame goes past the buffer, the memory behind it has to exist; what it belongs to is not part of this model.
- JbdSession.Rw: the three lengths for which `jbd_cmd` writes past the command buffer are excluded; for longer ones the length -1 that the C code passes on is a request without a packet. An accepted payload longer than the caller's buffer, such as the 128 bytes of `jbd_get_pack`, is part of the contract; the memory behind that buffer has to exist, and what it belongs to is not part of this model.
- JbdSession.CanGet: the buffer is as long as the length asked for.
- BitNames.ParseBits: `strtol` is modelled without its saturation, which only meets values that are refused anyway; the output mask of a refused value is not stated.
- BitDisplay.Buffer.AddStr: the character array is represented by the C string in it.
- Netlink.Builder.AddAttrL: `nlmsg_len` is a field beside the buffer, bytes are little-endian, and the contents of the two message headers are left zero.
- Netlink.SetLinkRequest: interface lookup, the up and down flags, and sending are left out.
