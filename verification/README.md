# A verified model of volclava's text and accounting cores

volclava is a batch system in the LSF family. This project models the parts of
its command-line tools that carry the most logic, and proves what they promise.

* **JSON (`lsbatch/cmd/cJSON.c`, behind `bjobs -json`).** `JsonText` has the value
  trees and the text that stands for each of them. `JsonNumber`, `Utf8`,
  `JsonString` and `JsonParser` say what each parse function yields;
  `JsonParseBuffer` is the buffer object that moves `offset` and `depth` and builds
  the items. `JsonGrammar` has the grammar of RFC 8259 with the meaning of its
  texts, and `JsonNumerals` and `JsonReads` prove that the parser reads all of it.
  `JsonPrinter` is the growing print buffer. `JsonRoundTrip` shows that printed
  text belongs to the grammar, which ties printer and parser together, and
  `JsonLayout` describes its layout on the characters alone. `JsonNode` has the
  items on the heap, their doubly linked child lists, runs of edits and
  duplication; `JsonEdit` has what edits mean for whole trees, and `JsonReport`
  the report that `bjobs` builds with them.
  `JsonCompare` and `JsonItemCompare` have comparison. `Bits` defines the bit
  operations of C on numbers.
* **Event replay and time accounting (`lsbatch/bhist`).** `EventChain` says what
  `addEvent` does to a job and what every replay of a log keeps; `EventRecords`
  is the linked chain. `TimeAccounting` counts seconds one by one and proves when
  time is conserved; `TimeColumns` says in terms of the log's status codes which
  seconds each column holds; `Summary` is the accounting loop of `displayhist`.
  `JobTable` is the ring of job records with its id table.
* **Checkpointing (`chkpnt`).** `CheckpointVars` is the variable table with its
  file, `JobFile` the job-file rewriter; both read files in the pieces that
  `fgets` delivers, described in `Lines`.
* **Commands (`lsbatch/cmd`).** `JobIds` expands job-array index lists into
  packed ids; `HostSort` sorts the host table in place and shows each host once.

`Sequences` and `Options` hold small shared definitions.

Modelling conventions: a C byte is a `char` and a C string a `string` without NUL;
doubles are `real` numbers without rounding; `int` widths are written out where
they matter (buffer sizes, saturation of `valueint`, packed ids). A table or file
that the source rewrites is a field that methods reassign; linked structures are
objects with a ghost sequence beside their pointers, and a tree of items also
carries the value it stands for as a ghost field. The clock, the log position,
the nesting limit and the `fgets` buffer size are parameters. `requires` clauses that mention ghost
arguments only name the position of an item that the source is given by pointer.

Results worth knowing before reading the table:

* Every text of the JSON grammar is read as what it stands for, if and only if it
  opens no more brackets than the limit allows and has no number of more than 63
  characters; strings end at an escaped zero byte.
* Printing into a caller's buffer succeeds exactly when two bytes more than the
  text are there; the header asks for five.
* The scan and decode passes of `parse_string` can disagree on where escapes
  start, and still the allocation always suffices.
* Two objects with repeated keys can compare unequal although they are copies;
  `JsonCompare.CompareMeans` gives the exact condition.
* A checkpoint variable survives the file exactly when its line, newline included,
  fits one read; a new job command comes back exactly when the command without its
  newline fits.
* `buildNewJobFile` replaces the old command exactly when its line fits the read
  buffer; of a longer one all but the first piece stays in the new file.

## Model

| member | source | states |
|---|---|---|
| JsonRoundTrip.RoundTrip | lsbatch/cmd/cJSON.c:1084-1443 | For every nesting limit and every tree of null, booleans, int-range integers, C strings, arrays and objects, formatted or not: parsing the printed text succeeds if and only if the nesting is within the limit, and then gives the same tree and consumes exactly the text. |
| JsonReads.DocumentReads | lsbatch/cmd/cJSON.c:1084-1177 | Every text of the JSON grammar (any blanks, all escapes, surrogate pairs, fractions and exponents, with or without a byte order mark) is accepted if and only if its brackets stay within the limit and its numbers within 63 characters; then the value is the tree it stands for and the end is that of the text, or of the document if more may follow. The one exception, a bare number that is too long, is named. |
| JsonReads.WhateverFollows | lsbatch/cmd/cJSON.c:1084-1177 | Without `require_null_terminated` the result is the same whatever follows the document, if it cannot continue a number. |
| JsonReads.DocReads | lsbatch/cmd/cJSON.c:1317-1369 | The induction behind it: a value of the grammar at any offset and depth, followed by anything that cannot continue a number. |
| JsonReads.ArrayReads | lsbatch/cmd/cJSON.c:1446-1541 | The same for arrays, with blanks around every element. |
| JsonReads.ObjectReads | lsbatch/cmd/cJSON.c:1606-1716 | The same for objects, with blanks around keys, colons, values and commas. |
| JsonReads.LiteralReads | lsbatch/cmd/cJSON.c:778-904 | A string literal made of plain characters, the eight two-character escapes and `\u` escapes with their surrogate pairs is read as the bytes these stand for, in shortest UTF-8, up to a zero byte. |
| JsonReads.NumberReads | lsbatch/cmd/cJSON.c:305-379 | A number of the grammar is read to its end with its value if and only if it has at most 63 characters; of a longer one the rest is left. |
| JsonNumerals.NumeralReads | lsbatch/cmd/cJSON.c:305-379 | `strtod`, exact: sign, digits, fraction and exponent give the digits as one integer times the power of ten that exponent and point ask for. |
| JsonReads.DenotesOne | lsbatch/cmd/cJSON.c:1317-1369 | A text of the grammar stands for at most one tree, so the results above determine what is read. |
| JsonRoundTrip.Printed | lsbatch/cmd/cJSON.c:1372-1443 | What is printed for a tree, formatted or not, is a text of the grammar that stands for that tree, and readable within exactly the limits that the nesting allows. |
| JsonRoundTrip.ArrayPrinted | lsbatch/cmd/cJSON.c:1544-1603 | The same for arrays. |
| JsonRoundTrip.ObjectPrinted | lsbatch/cmd/cJSON.c:1719-1830 | The same for objects. |
| JsonRoundTrip.EscapeInverse | lsbatch/cmd/cJSON.c:907-1026 | Scan and decode undo the printer's escaping, for every C string and any text around it. |
| JsonRoundTrip.IntegerReads | lsbatch/cmd/cJSON.c:550-617 | A printed integer followed by any character that cannot belong to a number is read back. |
| JsonLayout.TextPiece | lsbatch/cmd/cJSON.c:1372-1443 | Deleting the blanks outside of string literals turns the formatted text into the unformatted one, at whatever depths; the unformatted text is left as it is. |
| JsonLayout.NoBlanks | lsbatch/cmd/cJSON.c:1192-1254 | Outside of literals unformatted text has no blank at all. |
| JsonLayout.FewBlanks | lsbatch/cmd/cJSON.c:1192-1254 | Outside of literals formatted text has no blanks but spaces, tabs and line ends. |
| JsonLayout.Layout | lsbatch/cmd/cJSON.c:1544-1830 | Behind every character of a formatted document: a colon is followed by exactly one tab, a comma in an array by exactly one space; a comma in an object and an opening brace by a new line with exactly one tab for each open bracket and a key; a closing brace stands on a line with one tab less; nothing else is followed by a blank. |
| JsonLayout.TextFits | lsbatch/cmd/cJSON.c:1719-1830 | The same for a value behind any open brackets. |
| JsonRoundTrip.TextInjective | lsbatch/cmd/cJSON.c:1372-1443 | Two different printable trees never print alike, whatever the formatting and the nesting of either. |
| JsonRoundTrip.ValueShape | lsbatch/cmd/cJSON.c:1317-1369 | In whatever the parser accepts, all strings and keys are C strings, whatever the numbers are, and the nesting is within the limit. |
| JsonRoundTrip.CStringsPrint | lsbatch/cmd/cJSON.c:1372-1443 | A tree is printable exactly when its strings are C strings and its numbers int-range integers. |
| JsonRoundTrip.ReparseStable | lsbatch/cmd/cJSON.c:1084-1177 | For every accepted text whose numbers are int-range integers, printing the result and parsing again changes nothing. |
| JsonNumber.PrintedAsInteger | lsbatch/cmd/cJSON.c:550-617 | The "%d" branch is taken exactly for integers that fit an int, where `valueint` is the number itself. |
| JsonNumber.ValueIntIs | lsbatch/cmd/cJSON.c:305-379 | `valueint` is the number truncated towards zero, held at the ends of the range of an int. |
| Utf8.Utf8BytesShortest | lsbatch/cmd/cJSON.c:657-775 | The bytes written for a code point are a UTF-8 form of it (section 3 of RFC 3629), and every other form is longer. |
| Utf8.Utf8BytesInjective | lsbatch/cmd/cJSON.c:657-775 | The bytes determine the code point. |
| Utf8.ReadLiteralAccepts | lsbatch/cmd/cJSON.c:657-775 | Every spelling of a code point outside of the surrogates, one unit or a pair, each digit in either case and the most significant first, is accepted with the right length and value. |
| Utf8.HexReads | lsbatch/cmd/cJSON.c:620-653 | Four hexadecimal digits are read as the number they spell, most significant first. |
| Utf8.HexSpelled | lsbatch/cmd/cJSON.c:620-653 | Whatever is read as a number other than zero is spelled there. |
| Utf8.SurrogatesInvert | lsbatch/cmd/cJSON.c:657-775 | Decoding the surrogates of section 2.1 of RFC 2781 gives back the code point, for all code points above 0xFFFF. |
| Utf8.RejectsLoneSurrogates | lsbatch/cmd/cJSON.c:657-775 | A spelled unit is rejected if and only if it is a surrogate without its other half. |
| Utf8.ReadLiteral | lsbatch/cmd/cJSON.c:657-775 | A literal takes 0, 6 or 12 characters inside the string and never denotes more than 0x10FFFF, so the source's last error branch cannot be reached. |
| Utf8.ParseHex4 | lsbatch/cmd/cJSON.c:620-653 | At most 0xFFFF, and nonzero only for four hexadecimal digits; `HexReads` and `HexSpelled` say which number. |
| Utf8.BitEncodeIs | lsbatch/cmd/cJSON.c:752-768 | The loop with the source's masks and shifts on the code point writes the bytes of the model, for every code point. |
| Utf8.PairBits | lsbatch/cmd/cJSON.c:712-712 | The code point of a surrogate pair as the source puts it together with masks, a shift and an or. |
| JsonString.AllocationSuffices | lsbatch/cmd/cJSON.c:778-904 | For every input the decoded bytes and the terminator fit the size that the scan pass computed, even where the passes disagree on escapes. |
| JsonString.StepWithinBudget | lsbatch/cmd/cJSON.c:791-882 | No step of the decode pass produces more than the scan pass counted for the input that the step uses. |
| JsonString.PassesCanDisagree | lsbatch/cmd/cJSON.c:791-882 | An input on which the two passes see different escape boundaries. |
| JsonParser.ParseValue | lsbatch/cmd/cJSON.c:1317-1369 | Terminates on every input; success strictly advances and stays below the buffer length. |
| JsonParser.ParseString | lsbatch/cmd/cJSON.c:778-904 | The same for strings, with failure positions inside the buffer. |
| JsonParser.Skip | lsbatch/cmd/cJSON.c:1043-1066 | Whitespace skipping never passes the last byte. |
| JsonParser.RequireNullIs | lsbatch/cmd/cJSON.c:1132-1140 | With `require_null_terminated` a text is accepted if and only if it is without, and only blanks follow the value; the value is the same. |
| JsonParser.ErrorPosition | lsbatch/cmd/cJSON.c:1100-1177 | The reported error position lies in the buffer. |
| JsonParseBuffer.ScanString | lsbatch/cmd/cJSON.c:791-816 | The scan loop finds the closing quote and the number of escapes of the scan specification. |
| JsonParseBuffer.EncodeInto | lsbatch/cmd/cJSON.c:657-775 | The right-to-left byte loop writes exactly the UTF-8 form and nothing before it. |
| JsonParseBuffer.DecodeInto | lsbatch/cmd/cJSON.c:815-882 | In the array that the scan pass sized, every write is in range, and the result is the decoded text with its terminator, or the position of the bad escape. |
| JsonParseBuffer.ParseBuffer.SkipWhitespace | lsbatch/cmd/cJSON.c:1043-1066 | The loop moves the offset as specified. |
| JsonParseBuffer.ParseBuffer.ParseStringHere | lsbatch/cmd/cJSON.c:778-904 | Result and offset are those of the specification. |
| JsonParseBuffer.ParseBuffer.ParseNumberHere | lsbatch/cmd/cJSON.c:305-379 | Result and offset are those of the specification. |
| JsonParseBuffer.ParseBuffer.CopyToken | lsbatch/cmd/cJSON.c:305-379 | The number token is copied into 64 bytes with a terminator, never beyond. |
| JsonParseBuffer.ParseBuffer.ParseValueInto | lsbatch/cmd/cJSON.c:1317-1369 | Outcome and offset are those of the specification; on success the depth is restored, the offset in range, and the item is the root of a well-formed tree of new items that stands for the specified value. |
| JsonParseBuffer.ParseBuffer.ParseArrayInto | lsbatch/cmd/cJSON.c:1446-1541 | The same for arrays, refused at the nesting limit; the children form a chain closed at the head. |
| JsonParseBuffer.ParseBuffer.ParseElementsInto | lsbatch/cmd/cJSON.c:1481-1518 | The loop: the items linked so far are well formed, share nothing, and stand for the elements read. |
| JsonParseBuffer.ParseBuffer.ParseObjectInto | lsbatch/cmd/cJSON.c:1606-1716 | The same for objects. |
| JsonParseBuffer.ParseBuffer.ParseMembersInto | lsbatch/cmd/cJSON.c:1639-1694 | The same for the loop over members, keys included. |
| JsonParseBuffer.ParseWithOpts | lsbatch/cmd/cJSON.c:1084-1177 | The entry point succeeds exactly as specified, with a well-formed tree of new items for the specified value, or a position inside the text. |
| JsonPrinter.PrintBuffer.Ensure | lsbatch/cmd/cJSON.c:444-527 | Room for the request and a terminator, exactly when it can be had; growth keeps the text already written. |
| JsonPrinter.PrintBuffer.UpdateOffset | lsbatch/cmd/cJSON.c:530-540 | The offset moves to the terminator of the text just written. |
| JsonPrinter.PrintBuffer.PrintNumber | lsbatch/cmd/cJSON.c:550-617 | Writes the number's text behind the offset, exactly when it fits. |
| JsonPrinter.PrintBuffer.CountEscapes | lsbatch/cmd/cJSON.c:907-966 | The first loop counts precisely how much longer the escaped text is. |
| JsonPrinter.PrintBuffer.PrintString | lsbatch/cmd/cJSON.c:907-1026 | Writes the quoted, escaped text behind the offset, exactly when it fits. |
| JsonPrinter.PrintBuffer.PrintValue | lsbatch/cmd/cJSON.c:1372-1443 | For every well-formed tree of items and through any reallocations: on success the buffer holds what was there and then the text of the tree with its terminator; success exactly when the text and two bytes fit. |
| JsonPrinter.PrintBuffer.PrintArray | lsbatch/cmd/cJSON.c:1544-1603 | The same for arrays, walking the chain of children. |
| JsonPrinter.PrintBuffer.PrintObject | lsbatch/cmd/cJSON.c:1719-1830 | The same for objects, with the layout that `JsonLayout.Layout` describes. |
| JsonPrinter.Print | lsbatch/cmd/cJSON.c:1192-1254 | The returned array is the text and its terminator, nothing else. |
| JsonPrinter.PrintBuffered | lsbatch/cmd/cJSON.c:1267-1295 | Whatever size is guessed first, the array starts with the text and its terminator. |
| JsonPrinter.PrintPreallocated | lsbatch/cmd/cJSON.c:1297-1314 | Succeeds if and only if the buffer is at least two bytes longer than the text, and then holds it. |
| JsonPrinter.TextNulFree | lsbatch/cmd/cJSON.c:530-540 | Printed text holds no NUL, so re-measuring finds all of it. |
| JsonNode.Node.GetItem | lsbatch/cmd/cJSON.c:1856-1873 | Walking the chain finds the child at an index, or nothing. |
| JsonNode.Node.Append | lsbatch/cmd/cJSON.c:1961-1992 | Appends to the children; head's `prev` is the tail, the tail's `next` is null, neighbours point at each other. Only links change: types, values, keys and everything below the items stay. |
| JsonNode.Node.Detach | lsbatch/cmd/cJSON.c:2192-2226 | Removes exactly that child, keeps the chain well formed and leaves the item unlinked. Only links change: types, values, keys and everything below the items stay. |
| JsonNode.Node.Insert | lsbatch/cmd/cJSON.c:2268-2300 | Inserts at the index, or appends beyond the end; refuses negative indices and no item. Only links change: types, values, keys and everything below the items stay. |
| JsonNode.Node.Replace | lsbatch/cmd/cJSON.c:2302-2349 | Updates the child at the index and leaves the old item unlinked. Only links change: types, values, keys and everything below the items stay. |
| JsonNode.Run | lsbatch/cmd/cJSON.c:1961-2349 | Any run of append, insert, detach and replace with detached items keeps the chain well formed and acts on the children as the same edits act on a sequence. Only links change: types, values, keys and everything below the items stay. |
| JsonEdit.EditTree | lsbatch/cmd/cJSON.c:1961-2349 | An edit of a root with a detached tree leaves a tree, and its value changes by the same append, insert, removal or update of its elements or members; the other detached trees stay trees. |
| JsonEdit.RunTree | lsbatch/cmd/cJSON.c:1961-2349 | The same for any run of edits. |
| JsonEdit.EditStands | lsbatch/cmd/cJSON.c:1961-2349 | If the children stand for the elements or members, the edited children stand for the edited ones. |
| JsonReport.AddItemToArray | lsbatch/cmd/cJSON.c:1995-1998 | Adding to a root: refused for no item and for the root itself, otherwise a tree with one more element. |
| JsonReport.AddItemToObject | lsbatch/cmd/cJSON.c:2016-2056 | The same with a key for the item. |
| JsonReport.GetArraySize | lsbatch/cmd/cJSON.c:1833-1854 | The number of children, cast to an int. |
| JsonReport.CreateRecord | lsbatch/cmd/bjobs.c:1103-1306 | The record of a job is a tree with one string member for each field, in order. |
| JsonReport.CreateReport | lsbatch/cmd/bjobs.c:149-373 | The report is a tree: the command, the number of records, and the records in order. |
| JsonReport.PrintReport | lsbatch/cmd/bjobs.c:149-381 | Whatever the jobs are, what is printed is the formatted text of the report, to which the results on grammar and layout apply, and a parser that admits three levels reads it back as the report. |
| JsonNode.Duplicate | lsbatch/cmd/cJSON.c:2716-2797 | A recursive copy is a well-formed tree of fresh items that stands for the same value; a shallow one has no children. |
| JsonCompare.CompareMeans | lsbatch/cmd/cJSON.c:2996-3119 | On int-range numbers, comparison holds if and only if both trees denote the same (objects as maps, so up to key order) and members that share a key agree. |
| JsonCompare.CompareIsEquivalence | lsbatch/cmd/cJSON.c:2996-3119 | Symmetric, transitive, and reflexive exactly on trees whose repeated keys agree. |
| JsonCompare.UniqueKeysCohere | lsbatch/cmd/cJSON.c:2996-3119 | Trees with unique keys meet that condition, so there comparison is an equivalence. |
| JsonCompare.CompareSelf | lsbatch/cmd/cJSON.c:2996-3119 | A tree with unique keys compares equal to its copies, whatever its numbers are. |
| JsonItemCompare.CompareItems | lsbatch/cmd/cJSON.c:2996-3119 | Along the linked items, with NULL and with one item given twice: an item equals itself, and wherever that shortcut cannot be told from the values (no shared items, or unique keys) the result is the comparison of the values. |
| JsonItemCompare.GetObjectItem | lsbatch/cmd/cJSON.c:1885-1915 | The walk along the chain finds the first member with the key. |
| JsonItemCompare.DuplicateCompares | lsbatch/cmd/cJSON.c:2716-2797 | A duplicate of a tree with unique keys compares equal to its original. |
| JsonCompare.RepeatedKeysNotReflexive | lsbatch/cmd/cJSON.c:2996-3119 | An object with a repeated key that does not compare equal to its copy. |
| JsonCompare.CompareDoubleOnInts | lsbatch/cmd/cJSON.c:543-547 | The relative-epsilon comparison is equality on int-range integers. |
| JsonCompare.CompareDoubleNotTransitive | lsbatch/cmd/cJSON.c:543-547 | Off the integers it is not transitive: 1, 1 + 2^-52 and 1 + 2^-51. |
| JsonCompare.Find | lsbatch/cmd/cJSON.c:1885-1915 | The first member with a key, or none. |
| EventChain.ReplaySorted | lsbatch/bhist/read.event.c:93-176 | After any sequence of accepted, rejected and tail-moving calls the chain is in order of time and still starts with its first event. |
| EventChain.AddEventKeeps | lsbatch/bhist/read.event.c:93-176 | One call keeps the order, the first event and a tail inside the chain. |
| EventChain.ReplayGrows | lsbatch/bhist/read.event.c:93-176 | A replay of old log files only never drops an event that was accepted. |
| EventChain.AddEventIs | lsbatch/bhist/read.event.c:93-176 | One call in full: status, reasons and end time are overwritten; the tail goes back to the head exactly for the first later event that is no submission once the current log is open; the event then goes behind the tail and cuts off what stood there, unless it lies before the tail in time or repeats it (kinds, status and times spelled out). |
| EventChain.FlagIs | lsbatch/bhist/read.event.c:93-176 | When a later call may move the tail back: from the moment an event other than a submission came in from an old file, until the tail was moved. |
| EventChain.ReplayKeepsAll | lsbatch/bhist/read.event.c:127-154 | For a log read from the head the chain is exactly the logged events if and only if each is no earlier than the one before it and does not repeat it. |
| EventRecords.JobRecord.Add | lsbatch/bhist/read.event.c:93-176 | On the linked records `addEvent` has the outcome that `EventChain.AddEventIs` describes, status fields and result code included. |
| TimeAccounting.UnfinishedConserves | lsbatch/bhist/bhist.c:889-997 | Without a search window and without a finishing event the six columns add up to the time from the first event to now, or to the last counted event if that is later. |
| TimeAccounting.FinishedConserves | lsbatch/bhist/bhist.c:889-997 | If the only finishing event is a plain final DONE or EXIT they add up to the time from the first event to that one. |
| TimeAccounting.ReplayIsPlain | lsbatch/bhist/read.event.c:93-176 | Every replay that starts with a submission meets the order conditions of the conservation results. |
| TimeAccounting.TotalExact | lsbatch/bhist/bhist.c:940-997 | Where no second is counted twice, the total is the elapsed time if and only if no second is lost. |
| TimeAccounting.ChargeCountIs | lsbatch/bhist/bhist.c:940-997 | Exactly which intervals are counted twice (zombie exits that come back) and which not at all. |
| TimeAccounting.EventSeconds | lsbatch/bhist/bhist.c:889-997 | The seconds from an event to the next counted one belong to the columns of that event. |
| TimeColumns.ColumnIs | lsbatch/bhist/bhist.c:889-997 | The seconds counted for a column are the sum of the intervals that it takes in, by the status codes of the log. |
| TimeColumns.InColumnIs | lsbatch/bhist/bhist.c:940-997 | An interval is in a column exactly if the effective status at its event and the one before it, the exit reasons and the next event say so. |
| TimeColumns.EffectiveIs | lsbatch/bhist/bhist.c:844-888 | The status that the loop carries along is the nearest one that is not zero, or what was left from before. |
| Summary.History | lsbatch/bhist/bhist.c:821-1028 | From log to summary: for every log that starts with a submission, whatever `addEvent` rejects or drops, each column is the sum of the intervals that its status codes take in; all columns add up to the time from submission to now for an unfinished job, and to the end for one that plainly ended. |
| Summary.ReplayLog | lsbatch/bhist/read.event.c:93-176 | Feeding every event of a log to `addEvent` leaves the records of the replay, whose order, first event and losses `EventChain.ReplaySorted` and `EventChain.ReplayKeepsAll` describe. |
| Summary.Account | lsbatch/bhist/bhist.c:821-1028 | The loop over the linked records: each column is the sum of the intervals, from one non-switch event to the next or to now, whose effective status is in that column, by the status codes; the carried time stamp for negative intervals is never used. |
| Summary.Turn | lsbatch/bhist/bhist.c:844-997 | One turn: the inherited status, and the columns brought up to the next counted event. |
| Summary.SkipSwitches | lsbatch/bhist/bhist.c:854-861 | The next event that is not a queue switch. |
| Summary.Charge | lsbatch/bhist/bhist.c:940-997 | Column by column: the status codes, exit reasons and following events for which the switch statement adds an interval to it. |
| JobTable.LookupFindsNewest | lsbatch/bhist/read.event.c:1173-1210 | After any run of additions and removals every indexed id leads to a record in the ring, with no later record of that id. |
| JobTable.LookupFindsLastAdded | lsbatch/bhist/read.event.c:1173-1210 | What a lookup finds is decided by the last step about that id alone: the record it added, or nothing after a removal. |
| JobTable.FreedOk | lsbatch/bhist/read.event.c:500-574 | Removing a record keeps the agreement of index and list and removes nothing else from the ring. |
| JobTable.AddedOk | lsbatch/bhist/read.event.c:1173-1210 | Adding a record keeps the agreement of index and ring; `AddedRing` says which record goes. |
| JobTable.AddedRing | lsbatch/bhist/read.event.c:1173-1210 | An addition removes a record if and only if it is the one indexed under the job id and has the same submission time; the others keep their order and the new record is the last. |
| JobTable.Remains | lsbatch/bhist/read.event.c:1191-1199 | After any run of additions a record is still in the ring if and only if the next record of its job id, if there is one, was submitted at another time. |
| JobTable.RemainInOrder | lsbatch/bhist/read.event.c:1173-1210 | What remains stands in the order in which it was added. |
| JobTable.RunOfAdditions | lsbatch/bhist/read.event.c:1173-1210 | Such a run is one of those of additions and removals, so their results hold of it. |
| JobTable.LookupAddAll | lsbatch/bhist/read.event.c:1173-1210 | After it a lookup finds a record if and only if it is the last one added under that id. |
| JobTable.JobList.constructor | lsbatch/bhist/read.event.c:66-75 | The empty ring: the sentinel linked to itself. |
| JobTable.JobList.InJobList | lsbatch/bhist/read.event.c:46-53 | The record becomes the last of the ring, which stays linked both ways. |
| JobTable.JobList.OffJobList | lsbatch/bhist/read.event.c:55-64 | The ring closes over the removed record. |
| JobTable.JobList.FreeJobRecord | lsbatch/bhist/read.event.c:500-574 | Pointers and table end up as the specification says, ring and index in agreement. |
| JobTable.JobList.AddJob | lsbatch/bhist/read.event.c:1173-1210 | On pointers and table an addition has the outcome that `JobTable.AddedRing` describes, with the re-submission case; the record starts with no events and the status PEND. |
| CheckpointVars.FreshReadHasLastValues | chkpnt/echkpnt.env.c:169-259 | After any run of writes that the format can hold, a fresh read of the file succeeds with unique names and the last value written under every name. |
| CheckpointVars.ComesBackExactly | chkpnt/echkpnt.env.c:194-259 | For any table with unique names, reading its file gives the table back if and only if every variable has a name that starts with a letter and is free of `=` and newlines, a value free of quotes and newlines, and a line that fits the buffer. |
| CheckpointVars.FileIs | chkpnt/echkpnt.env.c:282-320 | The file has one line for each variable, in order: name, `=`, the value in quotes, newline. |
| CheckpointVars.OneTooLong | chkpnt/echkpnt.env.c:216-253 | A line one character too long makes the whole read fail. |
| CheckpointVars.WrittenLookup | chkpnt/echkpnt.env.c:169-190 | In the table, every name has the value written last. |
| CheckpointVars.WrittenKeeps | chkpnt/echkpnt.env.c:323-392 | Names stay unique through any run of writes. |
| CheckpointVars.VarStore.Get | chkpnt/echkpnt.env.c:149-165 | The value under a name, or nothing. |
| CheckpointVars.VarStore.Insert | chkpnt/echkpnt.env.c:323-392 | New name, new value or no change, told apart by the result code. |
| CheckpointVars.VarStore.UpdateFile | chkpnt/echkpnt.env.c:282-320 | The file becomes the serialised table. |
| CheckpointVars.VarStore.Write | chkpnt/echkpnt.env.c:169-190 | If file and table agreed with unique names, they still do, in all three cases. |
| CheckpointVars.VarStore.WriteAll | chkpnt/echkpnt.env.c:169-190 | The same over any run. |
| CheckpointVars.VarStore.FillTable | chkpnt/echkpnt.env.c:194-259 | Succeeds exactly when every line can be read; otherwise the table is empty and the file forgotten. |
| JobFile.RebuiltCommand | chkpnt/erestart.c:694-777 | For a job file that has a command, reading the rebuilt file returns the new command if and only if it is one line, not blank, no comment, without leading space, and fits the buffer. |
| JobFile.BuildNewJobFile | chkpnt/erestart.c:694-777 | Of the pieces that `fgets` delivers, every one is copied verbatim except the first command after each mark (blank pieces between do not matter). If every line fits the buffer the same holds of the lines. Without a command the file is copied. |
| JobFile.RewritesLines | chkpnt/erestart.c:694-777 | If all lines but the users' commands fit the buffer, the new file is the line by line rewrite of the old one if and only if the users' commands fit too. |
| JobFile.LongCommandLeaves | chkpnt/erestart.c:726-760 | A command line that takes two reads leaves its second piece in the new file as a line of its own. |
| JobFile.LongCommandExample | chkpnt/erestart.c:726-760 | A job file on which that happens. |
| JobFile.LongLine | chkpnt/erestart.c:726-760 | Piece by piece, a long command line gives strictly more text than the new command. |
| JobFile.GetUserCmd | chkpnt/erestart.c:518-570 | The first command piece whose nearest non-blank piece before it is a mark, or nothing if there is none. |
| JobFile.FoundOnce | chkpnt/erestart.c:518-570 | That description determines the result. |
| JobFile.IsUserCmdLineMark | chkpnt/erestart.c:573-621 | True if and only if the line is `#`, spaces, `LSBATCH:`, `User` and `input` with at least one space between words, and only spaces behind. |
| JobFile.TheMarkLine | chkpnt/erestart.c:573-621 | Two lines, with single and with several spaces, that are marks. |
| JobFile.CommandTextIsOneLine | chkpnt/erestart.c:536-562 | Whatever is returned as a command is one line of the form above. |
| Lines.TakesAll | chkpnt/echkpnt.env.c:216-216 | Full pieces followed by any text are read back one by one before that text. |
| Lines.ChunksShape | chkpnt/erestart.c:726-726 | Reading a text piece by piece loses nothing, and all pieces but the last end with a newline or a full buffer. |
| Lines.ChunksAreLines | chkpnt/erestart.c:726-726 | The pieces are the lines of the text if and only if every line, newline included, fits. |
| JobIds.ExpansionExact | lsbatch/cmd/cmd.jobid.c:96-185 | For a checked index list each packed id occurs exactly once; an id is there if and only if its job is the given one and its index lies on one of the progressions. |
| JobIds.FirstsOrder | lsbatch/cmd/cmd.jobid.c:418-471 | Ids stand in the order of their first occurrence. |
| JobIds.FirstsDistinct | lsbatch/cmd/cmd.jobid.c:418-471 | No id twice, none lost, none invented. |
| JobIds.AllMembers | lsbatch/cmd/cmd.jobid.c:207-227 | The loops visit exactly the indices from start to end in whole steps. |
| JobIds.UnpackInvertsPack | lsbatch/lsbatch.h:630-639 | The index always comes back; the job id comes back exactly when it fits a C int. |
| JobIds.PackInvertsUnpack | lsbatch/lsbatch.h:630-639 | Packing the parts of an id gives it back exactly when its low word fits a C int. |
| JobIds.PackInjective | lsbatch/lsbatch.h:633-634 | Different pairs have different ids. |
| JobIds.PackBits | lsbatch/lsbatch.h:633-634 | The shift and the bitwise or of the macro are the arithmetic of the model. |
| JobIds.UnpackBits | lsbatch/lsbatch.h:635-639 | So are the shift and the masks that take an id apart. |
| JobIds.CheckRanges | lsbatch/cmd/cmd.jobid.c:380-413 | Accepted exactly when, with open ends closed, every range and step lies within 1 and 0xFFFF. |
| JobIds.InRangeIs | lsbatch/cmd/cmd.jobid.c:380-413 | An open end counts as 65535, and a range passes if and only if 1 <= start <= end <= 65535 and 1 <= step <= 65535. |
| JobIds.OpenRange | lsbatch/cmd/cmd.jobid.c:207-227 | A range with an open end reaches exactly the indices from its start to 65535 in whole steps. |
| JobIds.Add | lsbatch/cmd/cmd.jobid.c:161-177 | Grows by a block exactly when full, keeps what is stored and appends the id unless it is there. |
| JobIds.AddRange | lsbatch/cmd/cmd.jobid.c:159-179 | One range, with the index bounded so that it cannot overflow. |
| JobIds.SpecJobIds | lsbatch/cmd/cmd.jobid.c:96-185 | The ids of all arguments, each once; a bare zero means the current job and empties the result. |
| JobIds.SpecIdxs | lsbatch/cmd/cmd.jobid.c:187-230 | The indices of a list, each once. |
| JobIds.JobIdList | lsbatch/cmd/cmd.jobid.c:418-471 | The ids of one argument, refused exactly for job id zero. |
| HostSort.SortHosts | lsbatch/cmd/bhosts.c:473-492 | The Shell sort leaves a sorted permutation for every length, though it swaps equal names. |
| HostSort.Sift | lsbatch/cmd/bhosts.c:480-487 | For every gap the inner loop extends the prefix whose entries that gap apart are in order. |
| HostSort.RepeatHost | lsbatch/cmd/bhosts.c:494-506 | True exactly when an earlier entry has the same name. |
| HostSort.ShowDistinct | lsbatch/cmd/bhosts.c:236-240 | The shown names are exactly the names of the table, none twice, and increase strictly if the table is sorted. |
| HostSort.ShowHosts | lsbatch/cmd/bhosts.c:208-215 | Sorting (unless a resource requirement fixed the order) and showing: each host of the reply exactly once, in increasing order when sorted, with nothing lost from the table. |
| HostSort.StrcmpSign | lsbatch/cmd/bhosts.c:482-482 | `strcmp` is zero exactly on equal names and changes sign when the names are swapped. |
| HostSort.StrcmpLess | lsbatch/cmd/bhosts.c:482-482 | A name is smaller if and only if, at the first difference, it has ended or has the smaller character. |
| HostSort.StrcmpTransitive | lsbatch/cmd/bhosts.c:482-482 | `strcmp` orders names transitively. |

## Left out

- Which texts outside of the grammar the parser also accepts (a number such as `-.5`, `\u` with bad digits read as zero).
- Floating point: rounding in `strtod`, the "%1.15g" and "%1.17g" branches of `print_number`, NaN and infinities; only int-range integers are printed, numbers read are exact.
- Allocation failures, the allocation hooks and the NULL-argument checks of cJSON.
- `cJSON_Raw`, reference items, case-insensitive lookup and `cJSON_Minify`: they add cases without adding depth.
- Deleting the items of a failed parse; they are simply unreachable in the model.
- Buffers given to `cJSON_ParseWithLength` without a terminating NUL.
- JsonCompare.CompareIsEquivalence: only for int-range numbers, because the comparison of other numbers is not transitive.
- JsonItemCompare.CompareItems: says only that an item equals itself where items are shared and keys are repeated.
- JsonEdit.EditTree: the edited item is a root; an edit inside a tree also changes the values of the items above it, which `bjobs` never does.
- The texts of the fields of a `bjobs` record; they are inputs.
- JsonRoundTrip.ReparseStable: only for results whose numbers are int-range integers, because other numbers are printed with rounding.
- JsonNode.Run: replaced items are not used again, because the source deletes them.
- The chronological chain, the `-t` mode, CPU normalisation, `stayTime` and all printing of `bhist`.
- Summary.Account: an event whose id does not match the request is skipped by a jump; a record is only shown after it matched, and the model charges every event.
- The `read_*` functions that fill event records from the log; the records are inputs.
- Freeing of job and event records; a freed record is one that is no longer reachable.
- NUL bytes inside the checkpoint and job files, where the C string functions stop early.
- I/O failures (`fopen`, `rename`, `chmod`), the NULL arguments of `writeEchkpntVar`, and copying the variable file to another directory.
- The argument grammar of job ids and `idxparse`; their results are inputs.
- Everything that talks to daemons: submission, queries, authentication and scheduling.
