# Verified model of the JSON engine, the delegated-task scheduler and the agent's small state machines

The project models four parts of the agent in Dafny and proves what they promise.

- **The JSON engine** (`lib/cjson.c`) and what is layered on it. `Json` holds the values and a pure
  serializer, `Grammar` the parser as a function, `Overread` its one read behind the buffer. `Rfc8259` is
  JSON as the standard derives it, written out byte by byte and without the other two: `Reading` proves that
  derived texts are parsed to their value, `Writing` that printed texts are derived in their layout, and
  `RoundTrip` puts the two together. `Nodes` is the heap form with its `next`, `prev` and `child`
  pointers; `Parser` and `Printer` are the imperative parser and printer, proved against the two
  functions; `Lists` the edits of child lists; `Comparison` and `Trees` comparison, look-up and
  duplication. `Rewriter` is the request builder's rewrite to pure ASCII, `Sanitizer` the in-place UTF-8
  sanitizer, `Utf8` the definitions of RFC 3629 both rest on.
- **The delegated-task scheduler**. `Dependencies` is the comma-separated key list; `Scheduler` the
  tasks, counts, caps and what every run keeps; `Dispatch` the store and the launchers, with other threads
  acting between any two store calls: workers finish, fail, wait for an answer and go on; `Progress`
  acyclic graphs, fair passes that get everything done, and serial batches.
- **Small concurrent state machines**: `Learning` (review jobs), `Cancel` (cancellation tokens),
  `Queue` (the byte ring buffer) and `Interactive` (waiting for a reply). Each section under the lock is
  one atomic step.
- **Persistent windows and codecs**: `SessionLog`, `Facts` and `Wav`.

`dafny verify dfyconfig.toml` checks everything.

## How to read it

Where the source changes state step by step the model is a method or a class, and its `ensures` tie the
new state to a function of the old one; the lemmas are about those functions. A byte is an `int` below
256, masks and shifts are ranges, quotients and remainders. C strings are byte sequences without NUL,
and `CString` cuts a buffer at its first NUL. Integer widths are written out where they matter: INT_MAX
in the printer, saturation in the number parser, 32-bit and 64-bit `size_t` in `Wav`, 64-bit tokens in
`Cancel`. Concurrent runs are sequences of atomic steps. In the scheduler the method `Others` stands for
any number of steps of other threads and is called wherever the source leaves the store's lock; a ghost
field records all states of the store, and they form a run in the sense of `Scheduler.IsRun`. The
launchers promise `Scheduler.KeepsCaps` of that record: when the caps hold before and nothing but claims
makes a task count as running, every new state is within the caps. Without other threads, or with workers
that just succeed, they also promise `Scheduler.OnlyClaims`. In
`Learning` and `Cancel` a ghost log records the run and the invariants are about that log, so they hold
after every interleaving of the methods.

What the code really needs of its callers appears as `requires`: nodes of a list edit belong to the
parent or to a separate tree, a node appended to a list has no `next`; chat ids are shorter
than their slots; at most 32 chats use cancellation; one dispatcher pass at a time; no two
tasks of one coordinator in different chats; rewrites of a history pass some of its records in order.

## Where code and documentation or expectation differ

- `include/cjson.h:162` asks for 5 spare bytes for a preallocated print; 2 are enough and necessary
  (`Printer.PrintPreallocated`).
- A number of more than 63 characters is not read to its end (`Reading.LongNumberIsNotRead`); up to there
  every number of the grammar that is an int is (`Reading.NumberIsRead`).
- Comparison is not reflexive on objects with repeated keys (`Comparison.RepeatedKeyIsNotItself`);
  `Comparison.SameMeansEqual` gives the exact condition for all trees.
- A dependency list of more than 191 characters is cut without an error, and then waits for other keys
  than it was given (`Dependencies.ScannedBuilt`, `Dependencies.LongNamesAreCut`).
- The caps on running tasks can be exceeded in two ways. The counts leave out tasks that wait for an answer
  or report a blocker: a task waits, the next one is started, and the first one goes on
  (`Scheduler.WaitingBreaksTheCap`). And the record of a single background task is created as running
  without a look at the counts (`Scheduler.SinglesBreakTheCap`). `Scheduler.CapsInRun` gives the exact
  condition over whole runs. The launchers keep the caps in every state they add, those of claims whose
  worker does not start included, unless a waiting task goes on meanwhile (`Dispatch.TaskStore.LaunchOne`,
  `LaunchReady`, `LaunchForRuntime`). That started tasks have their dependencies done holds in every run.
- `wav_parse` does not end on every input: the step of a chunk is computed in 32 bits, and the size
  0xFFFFFFF8 makes it 0 (`Wav.LoopingFileNeverStops`). It ends if and only if the walk never comes back to
  an offset (`Wav.StopsWithoutReturn`); with a 64-bit `size_t` that is: if and only if no header from which
  the walk goes on has that size (`Wav.EndsWithoutZeroStep`).
- On the 32-bit target for which the player is built the sums wrap: `wav_parse` accepts a payload that
  leaves the buffer (`Wav.EscapingFileIsAccepted`), exactly when the end of the payload wraps
  (`Wav.PayloadInside`), and can read in front of the buffer (`Wav.StrayFileGoesAstray`).
- Messages that a waiting turn sets aside come back behind the others (`Interactive.QuietWait`), and are
  lost when a push of the wait meets a full queue: behind the loop, or inside it when a producer fills the
  slot of the popped message (`Interactive.WaitConserves`, `Interactive.PushBackCanFail`). When what is
  queued and what others push meanwhile is at most 16, nothing is lost (`Interactive.NothingLostWhenAllFits`).
- Merging the same facts twice can change the list (`Facts.MergeTwiceCanChange`). For a text with at most
  12 different facts it does not if and only if all of them are still there after the first merge
  (`Facts.MergeTwiceUpToTwelve`); `Facts.MergeTwiceExactly` gives the condition for every text.
- A fact line of 256 bytes or more is cut, and stored again by every merge because the whole line is looked
  up (`Facts.LongLineIsStoredTwice`). The file is a fixed point of its reader exactly when no stored line
  ends in a blank or is there twice (`Facts.ReadBackExactly`).
- `parse_object` can read one byte behind a buffer that ends in a comma without terminator
  (`Overread.TrailingCommaReadsBehind`), and never behind another one (`Overread.ReadsBehindNeedsComma`).

## Model

| member | source | states |
|---|---|---|
| RoundTrip.DocumentRoundTrip | lib/cjson.c:1312-1825 | parsing a printed tree of depth at most 1000 gives the tree back and stops at its last byte: pretty and compact, raw and ASCII-only strings, with and without the terminator check (RFC 8259, sections 4, 5 and 7) |
| RoundTrip.ValueRoundTrip | lib/cjson.c:1312-1438 | the same at any offset of any surrounding text, at any nesting depth that stays within the limit |
| RoundTrip.StringRoundTrip | lib/cjson.c:773-1021 | a printed C string, raw or as ASCII literals, is read back as the same bytes |
| RoundTrip.NumberRoundTrip | lib/cjson.c:305-379 | the %d text of every int is read back as that int, whatever non-number byte follows |
| RoundTrip.ReadsUnicodeLiteral | lib/cjson.c:652-770 | the one or two hexadecimal literals of a code point are decoded to its UTF-8 bytes: RFC 2781, section 2, into RFC 3629, section 3 |
| RoundTrip.RewrittenBodyMeansTheSame | arch/host/llm_proxy_request.c:95-181 | if all strings are well-formed UTF-8 the rewritten body is pure ASCII and parses to the same tree |
| RoundTrip.RewritesText | arch/host/llm_proxy_request.c:95-181 | rewriting the whole printed text is the same as printing every string in ASCII form, at every level and in front of any further text |
| Reading.DocumentIsRead | lib/cjson.c:1095-1711 | every text that RFC 8259 derives, sections 2 to 7 with all literal names, white space, escapes and forms of numbers, is parsed to exactly the value it stands for, when it nests at most 1000 levels, its numbers are ints of at most 63 characters and its strings have no NUL; with and without a terminator in the buffer, and with and without the check for it |
| Reading.ValueIsRead | lib/cjson.c:1312-1711 | the same for a value at any offset of any text and at any depth within the limit |
| Reading.StringIsRead | lib/cjson.c:773-877 | every derived string is read as its bytes: plain characters, the eight two-character escapes, \u literals in either case and surrogate pairs |
| Reading.NumberIsRead | lib/cjson.c:305-379 | a number of the grammar of section 6 that is an int is read to its end and exactly if and only if it has at most 63 characters |
| Reading.LongNumberIsNotRead | lib/cjson.c:307-355 | 1. and 62 zeros: a number of 64 characters that is not read to its end |
| Reading.BadDigitsCountAsZero | lib/cjson.c:615-649 | four characters that are not all hexadecimal digits count as 0 |
| Reading.LoneSurrogateIsRejected | lib/cjson.c:652-702 | a string with one surrogate alone is rejected |
| Reading.UnknownEscapeIsRejected | lib/cjson.c:836-877 | so is a reverse solidus in front of any character but the nine of section 7 |
| Reading.BrokenArrayIsRejected | lib/cjson.c:1441-1536 | an array whose items are followed by anything but a comma or its closing bracket is rejected: a missing comma, the wrong bracket, or garbage |
| Reading.TrailingCommaIsRejected | lib/cjson.c:1441-1536 | so is one with a comma behind its last item |
| Reading.BrokenObjectIsRejected | lib/cjson.c:1601-1711 | the same for an object and its closing brace |
| Reading.MissingColonIsRejected | lib/cjson.c:1660-1676 | a key that is not followed by a colon is no member |
| Reading.GarbageIsRejected | lib/cjson.c:1124-1133 | with the check for the terminator nothing but white space may stand behind the value |
| Writing.TextIsDerived | lib/cjson.c:1367-1825 | every printed text derives its value by RFC 8259, in every style, and in exactly one layout: no white space in compact text; in pretty text a space behind the commas of arrays, a tab behind colons, and every member on its own line with one tab for each level; characters as they are wherever that is allowed, the solidus unescaped, literals in lower case for control characters and in upper case where the text is ASCII only |
| Writing.CharsAreDerived | lib/cjson.c:902-1021 | the printed characters of a string are derived from it in that form, raw or as ASCII literals |
| Grammar.ParseValue | lib/cjson.c:1312-1364 | every accepted value ends strictly behind its start and inside the buffer, and is nested no deeper than the levels left below 1000 |
| Grammar.ParseDocument | lib/cjson.c:1095-1172 | every accepted document ends inside the buffer, is at most 1000 deep and holds only C strings and int numbers |
| Overread.ReadsBehindNeedsComma | lib/cjson.c:1658-1662 | the byte behind the buffer is read only when the last byte is a comma, and the parse then fails: parse_string is called at the end of the buffer |
| Overread.TerminatedIsSafe | lib/cjson.c:1095-1137 | text that brings its terminator is never read behind its end |
| Overread.TrailingCommaReadsBehind | lib/cjson.c:1658-1662 | an object that ends in a comma, without a terminator: the byte behind it is read |
| Utf8.EncodeCodePoint | lib/cjson.c:652-770 | decoding a character of RFC 3629, section 4 gives a scalar value, and encoding that value gives its bytes again |
| Parser.EstimateSuffices | lib/cjson.c:786-877 | for every literal, including those whose bad hexadecimal digits let the second pass fall out of step with the first, the first pass's estimate is at least the number of bytes the second pass writes |
| Parser.EscapeFits | lib/cjson.c:819-877 | one escape never uses more than the room counted for the characters it takes, even when it runs into the closing quote |
| Parser.MeasureString | lib/cjson.c:786-817 | the first pass stops at the closing quote the grammar names, and its length minus the skipped bytes is the counted room |
| Parser.UnescapeInto | lib/cjson.c:819-877 | the second pass, in a buffer of the estimated size, writes exactly the unescaped bytes or rejects the literal, and never writes outside |
| Parser.ConvertUtf16Literal | lib/cjson.c:652-770 | one literal or surrogate pair becomes its UTF-8 bytes, or is rejected, as the grammar says |
| Parser.ParseHex4 | lib/cjson.c:615-649 | four hexadecimal digits of either case, and 0 as soon as one character is none |
| Parser.ParseBuffer.SkipWhitespace | lib/cjson.c:1038-1061 | moves the offset over bytes up to 32 and steps back onto the last byte at the end of the buffer |
| Parser.ParseBuffer.SkipByteOrderMark | lib/cjson.c:1064-1077 | skips the UTF-8 byte order mark under the source's length condition |
| Parser.ReadNumberChars | lib/cjson.c:305-355 | copies at most 63 number characters in front of the conversion |
| Parser.ParseValue | lib/cjson.c:1312-1364 | the heap parser accepts exactly what the grammar accepts, leaves the offset behind the value, restores the depth, and builds a valid node tree for the value out of new nodes |
| Parser.ParseArray | lib/cjson.c:1441-1536 | likewise for arrays: the loop with its step-back offset builds the linked list of exactly the items |
| Parser.ParseObject | lib/cjson.c:1601-1711 | likewise for objects and their keys |
| Parser.ParseWithLength | lib/cjson.c:1095-1172 | on every byte buffer the parse ends, with a valid tree equal to what the grammar reads, or null exactly when the grammar rejects |
| Printer.Ensure | lib/cjson.c:439-522 | keeps every byte in front of the offset through any growth, and succeeds exactly when the needed bytes and one more fit the largest possible buffer |
| Printer.UpdateOffset | lib/cjson.c:525-535 | moves the offset to the NUL behind what has been written |
| Printer.PrintString | lib/cjson.c:902-1021 | appends exactly the quoted and escaped string and a NUL, or fails exactly when they and one more byte cannot fit |
| Printer.CountEscapes | lib/cjson.c:928-953 | the counted escape characters are exactly the growth of the escaped text over the input |
| Printer.PrintValue | lib/cjson.c:1367-1438 | appends exactly the serialized value and a NUL behind what was printed before |
| Printer.PrintArray | lib/cjson.c:1539-1598 | appends exactly the serialized array, whatever growths happen on the way |
| Printer.PrintObject | lib/cjson.c:1714-1825 | appends exactly the serialized object in the chosen layout |
| Printer.PrintPreallocated | lib/cjson.c:1292-1309 | succeeds if and only if the text, its NUL and one spare byte fit the buffer, and then holds the text and its NUL; two bytes of slack are enough where include/cjson.h:162 promises five |
| Printer.Print | lib/cjson.c:1187-1290 | for every initial size the result is exactly the text, and is missing only when text and slack exceed INT_MAX |
| Rewriter.DecodeAt | arch/host/llm_proxy_request.c:105-127 | recognises exactly the lead bytes with enough continuation bytes behind them, and computes their value |
| Rewriter.SequenceIsRewritten | arch/host/llm_proxy_request.c:105-175 | a complete sequence of two to four bytes becomes a literal of the value it carries, or the two of a surrogate pair, also when it is overlong or the value a surrogate |
| Rewriter.OtherByteStays | arch/host/llm_proxy_request.c:105-175 | every other byte stays: ASCII, stray continuation bytes, lead bytes without enough continuation bytes and bytes from 0xF8 on |
| Rewriter.RewrittenLength | arch/host/llm_proxy_request.c:97-134 | on every input the counting pass gives the length of the rewritten text; it equals the input length only when nothing changes |
| Rewriter.WriteRewritten | arch/host/llm_proxy_request.c:137-175 | on every input the writing pass fills the buffer of the counted size exactly, NUL included |
| Rewriter.RewriteBody | arch/host/llm_proxy_request.c:95-181 | the body is rewritten, also where the source skips the second pass |
| Rewriter.SendAndReceive | arch/host/llm_proxy_request.c:90-182 | printing a node tree, rewriting the text and parsing it again gives a valid tree of the same value out of new nodes, from pure ASCII |
| Nodes.Finish | lib/cjson.c:1515-1526 | the end of the list builders: the hung nodes become the children, head and last item are tied, and the node carries the value |
| Nodes.Hang | lib/cjson.c:1485-1497 | one more node behind the last one, next and prev mutual inverses |
| Lists.AddItemToArray | lib/cjson.c:1956-1987 | appends: children and value are the old ones with the item behind them; null and self are refused and change nothing |
| Lists.InsertItemInArray | lib/cjson.c:2263-2290 | inserts in front of the child at the index, or at the end when there is none; negative indices are refused |
| Lists.DetachItemViaPointer | lib/cjson.c:2187-2221 | removes exactly that child; the detached tree is intact, unlinked and shares no node with the parent |
| Lists.DetachItemFromArray | lib/cjson.c:2223-2231 | removes exactly the child at the index, or changes nothing when there is none |
| Lists.ReplaceItemViaPointer | lib/cjson.c:2292-2339 | exactly one child is replaced, also when it is the first, the last or the only one |
| Lists.GetArrayItem | lib/cjson.c:1851-1868 | the walk reaches the child at the index or null |
| Lists.LinkBefore | lib/cjson.c:2278-2288 | the pointer assignments alone keep next and prev mutual inverses with the head's prev at the last item |
| Lists.LinkLast | lib/cjson.c:1964-1984 | the same for the append at the end |
| Lists.Unlink | lib/cjson.c:2194-2218 | the same for a detached first, middle or last item |
| Lists.Relink | lib/cjson.c:2304-2335 | the same for a replaced item |
| Lists.TreeOfInserted | lib/cjson.c:2263-2290 | inserting a node into the child list is inserting its value, or its member, into the value of the container |
| Lists.InsertedMeans | lib/cjson.c:2263-2290 | the inserted item is at the index, the items in front of it stay and the others move up by one |
| Lists.DetachUndoesInsert | lib/cjson.c:2187-2290 | on values, detaching undoes inserting and inserting undoes detaching |
| Comparison.SameMeansEqual | lib/cjson.c:2986-3109 | for all trees and both key modes: the comparison succeeds if and only if members of one name agree with each other in both trees and the trees are equal with objects read as maps |
| Comparison.DistinctKeysCompareAsMaps | lib/cjson.c:3060-3104 | with distinct keys the double search through the members is equality of the objects as key-to-value maps |
| Comparison.DistinctKeysAreCoherent | lib/cjson.c:3060-3104 | distinct keys at every level are the condition a caller can check for members to agree |
| Comparison.SameIsAnEquivalence | lib/cjson.c:2986-3109 | symmetric and transitive on all trees, reflexive exactly on the trees whose repeated names agree |
| Comparison.RepeatedKeyIsNotItself | lib/cjson.c:3060-3104 | a repeated key with two values: the tree does not compare equal to an exact copy of itself |
| Comparison.First | lib/cjson.c:1880-1910 | the first member of the name, with every earlier one of another name |
| Comparison.FirstMeans | lib/cjson.c:1880-1910 | the same by the bytes of the keys: equal ones, or equal but for the case of ASCII letters |
| Comparison.FoldMeans | lib/cjson.c:133-154 | two keys fold to the same name exactly when they differ at most in the case of ASCII letters |
| Comparison.DistinctKeysCompareAlike | lib/cjson.c:2986-3109 | with distinct keys at every level the comparison succeeds exactly for trees with equal scalars, arrays equal item by item, and objects whose members have counterparts of the same key in each other, in any order |
| Comparison.MeantAt | lib/cjson.c:1880-1910 | the map of an object has a name exactly when the look-up finds it, with the value of the member the look-up returns |
| Comparison.TolerantComparisonOfInts | lib/cjson.c:538-542 | on int values the tolerant comparison of doubles is equality |
| Trees.Compare | lib/cjson.c:2986-3109 | on nodes of separate trees and on different nodes of one tree, such as a node and its own descendant: true exactly for the same node, or for nodes of one kind that are the same value; null and unfilled nodes are never equal |
| Trees.ComparePartners | lib/cjson.c:3065-3082 | one of the two loops over members: every member of the first object has its partner in the second |
| Trees.GetObjectItem | lib/cjson.c:1880-1910 | the child of the first member of that name, in either key mode, or null |
| Trees.CompareFolded | lib/cjson.c:133-154 | zero exactly for strings that are equal but for the case of ASCII letters |
| Trees.Duplicate | lib/cjson.c:2706-2787 | a fresh, detached, valid tree with the same value and key, or without its children when the copy is shallow |
| Trees.CompareWithCopy | lib/cjson.c:2706-3109 | a recursive copy compares equal to its source exactly when repeated names agree, so always with distinct keys |
| Sanitizer.SanitizedIsProper | lib/text.c:73-142 | every result is well-formed UTF-8 without control bytes other than newline, return and tab; exactly such texts stay as they are; a second run changes nothing |
| Sanitizer.CleanIsProper | lib/text.c:79-142 | the same for the second loop alone, on every byte string, and the text never grows |
| Sanitizer.CleanKeepsProper | lib/text.c:82-139 | proper text is kept whatever stands behind it, and does not change what happens to the rest |
| Sanitizer.KeptIsChar | lib/text.c:9-16 | the loop keeps a sequence exactly when it is a character of RFC 3629, section 4 that is no forbidden control byte |
| Sanitizer.AsciiIsKept | lib/text.c:73-142 | whatever is broken around them, the ASCII bytes that may stay are all kept, in their order, and no other control byte stays |
| Sanitizer.ProperAroundIsKept | lib/text.c:73-142 | proper text in front of a broken place and behind it stays as it is and does not change what becomes of that place |
| Sanitizer.FixKeepsWellFormed | kernel/context/context_build.c:22-61 | the repair of truncated sequences is the identity on well-formed text |
| Sanitizer.FixTruncated | kernel/context/context_build.c:22-61 | the in-place loop leaves exactly the repaired text and its NUL; what a broken sequence loses is in AsciiIsKept and ProperAroundIsKept |
| Sanitizer.CleanInPlace | lib/text.c:79-142 | the in-place loop, its write index never in front of its read index, leaves exactly the cleaned text and its NUL |
| Sanitizer.SanitizeUtf8Json | lib/text.c:73-142 | both passes in place, on any NUL-terminated buffer |
| Dependencies.ScannedBuilt | drivers/tool/tool_delegate_dependency.c:202-260 | the list is scanned back as exactly the sanitized non-empty keys it was built from if and only if the joined keys fit the buffer with their NUL |
| Dependencies.LongNamesAreCut | drivers/tool/tool_delegate_dependency.c:202-240 | five names of 47 letters joined in the 192-byte buffer are not scanned back as the five keys |
| Dependencies.BuiltIsJoined | drivers/tool/tool_delegate_dependency.c:202-217 | whatever the size, the buffer holds the keys with commas between them, cut at the size |
| Dependencies.ScannedCut | drivers/tool/tool_delegate_dependency.c:223-240 | a cut list is scanned as keys that need no more room than the buffer has |
| Dependencies.BuiltListMeansItsNames | drivers/tool/tool_delegate_dependency.c:202-260 | a list that fits is satisfied exactly when every named dependency with a non-empty key is done |
| Dependencies.SanitizeTaskKey | drivers/tool/tool_delegate_dependency.c:182-200 | letters in lower case, digits, '_', '-' and '.', cut one below the buffer size |
| Dependencies.KeyOfPlainName | drivers/tool/tool_delegate_dependency.c:182-200 | the key of a name out of digits, letters, '_', '-' and '.' is the name in small letters, byte by byte, up to 47 of them |
| Dependencies.OtherBytesAreDropped | drivers/tool/tool_delegate_dependency.c:182-200 | any other byte, wherever it stands in a name, leaves the key as it is |
| Dependencies.FirstToken | drivers/tool/tool_delegate_dependency.c:223-240 | the first key of a list reaches to the next comma or the end but not beyond 47 bytes, and the rest is scanned in the same way |
| Dependencies.SeparatorsAreSkipped | drivers/tool/tool_delegate_dependency.c:223-230 | blanks and commas in front are skipped |
| Dependencies.AppendDependency | drivers/tool/tool_delegate_dependency.c:202-217 | in the buffer: an empty key changes nothing, else a comma where needed and the key, both cut at the size |
| Dependencies.BuildList | drivers/tool/tool_delegate_request.c:157-164 | appending all names of an array to a zeroed buffer leaves the built list |
| Dependencies.NextToken | drivers/tool/tool_delegate_dependency.c:225-240 | one round of the cursor loop reads the next key of at most 47 characters and moves on |
| Dependencies.DependenciesSatisfied | drivers/tool/tool_delegate_dependency.c:219-260 | true exactly when every scanned key belongs to some task that is done |
| Scheduler.Clamped | drivers/tool/tool_delegate_dispatch.c:14-54 | every limit ends between 1 and the size of its table, and requests in that range are kept |
| Scheduler.DriftsKeepsInvariant | drivers/tool/tool_delegate_background.c:85-108 | whatever workers do between two claims (finish, fail, wait for an answer or go on), every started task keeps its dependencies done |
| Scheduler.ClaimKeepsInvariant | drivers/tool/tool_delegate_dispatch.c:205-210 | claiming a ready queued task keeps every started task's dependencies done, whatever the counts are |
| Scheduler.SafeInRun | drivers/tool/tool_delegate_dispatch.c:133-238 | in every state of every run of claims, ends, requests, blockers, new batches and single tasks a running or done task has all its dependencies done |
| Scheduler.StepCaps | kernel/tooling/delegate/delegate_task_query.c:384-430 | a step from a state within the caps breaks one exactly when it makes a task count as running where no room is left: a claim, a waiting task that goes on, or a single task that is created as running |
| Scheduler.CapsInRun | kernel/tooling/delegate/delegate_task_query.c:384-430 | over whole runs: all caps hold in every state if and only if every claim, every waiting task that goes on and every single task that is created meets room |
| Scheduler.WaitingBreaksTheCap | kernel/tooling/delegate/delegate_task_store.c:601-672 | with caps of 1, every claim made with room and no single task there is a run that ends with two running tasks: a request leaves the count, the next task starts, the request is cleared |
| Scheduler.SinglesBreakTheCap | drivers/tool/tool_delegate_runtime.c:128-183 | two single background tasks exceed a cap of 1 without any claim and without a task that waits, because their records are created as running without a look at the counts |
| Scheduler.OneStepKeepsCaps | kernel/tooling/delegate/delegate_task_query.c:384-430 | a step that claims nothing, or claims with room, leaves the caps only when something other than a claim makes a task count as running |
| Scheduler.CalmCount | kernel/tooling/delegate/delegate_task_query.c:384-430 | while no waiting task goes on, no count of running tasks grows between two claims |
| Dispatch.ClaimMeetsRoom | drivers/tool/tool_delegate_dispatch.c:64-210 | a claim behind counts that showed room meets room, whatever happened since, unless a waiting task has gone on |
| Dispatch.CalmSinceCounted | drivers/tool/tool_delegate_dispatch.c:64-240 | the states between the counts and the claim of a launch attempt: no waiting task has gone on in them unless the run shows one that did |
| Dispatch.SeenKeepsCaps | drivers/tool/tool_delegate_dispatch.c:258-380 | a launch attempt adds only states within the caps, also those of claims whose worker does not start, as long as nothing but claims makes a task count as running |
| Scheduler.ReadyStays | drivers/tool/tool_delegate_dependency.c:219-260 | a satisfied dependency list stays satisfied in every continuation of the run, because done is final |
| Scheduler.RecordMeans | kernel/tooling/delegate/delegate_task_projection.c:640-700 | a key is done in the coordinator's record exactly when some task of the coordinator with that key is done |
| Scheduler.CountUpdate | kernel/tooling/delegate/delegate_task_query.c:384-430 | changing one task changes each running count by that task alone; running tasks with a blocker or a pending request do not count |
| Scheduler.CountsMeans | kernel/tooling/delegate/delegate_task_query.c:384-430 | a running task counts when neither a request is pending nor a blocker is reported: in all, for its coordinator and for its chat |
| Dispatch.TaskStore.ClaimQueued | kernel/tooling/delegate/delegate_task_store.c:442-474 | the one atomic step from queued to running; any other status is refused and nothing changes |
| Dispatch.TaskStore.FinishWorker | drivers/tool/tool_delegate_background.c:85-108 | the worker's step from running to done or failed keeps the invariant; a task that still reports a blocker fails |
| Dispatch.TaskStore.Complete | kernel/tooling/delegate/delegate_task_store.c:476-515 | a completed task is done and no longer waits, or failed when a blocker is still reported |
| Dispatch.TaskStore.SetHold | kernel/tooling/delegate/delegate_task_store.c:560-672 | a pending request and a blocker, each on its own, are set or cleared and nothing else changes |
| Dispatch.TaskStore.Others | drivers/tool/tool_delegate_background.c:40-110 | any number of steps of other threads between two store calls: workers finish, fail, wait and go on, and idle tasks stay as they are; every state on the way belongs to a run and is within the caps unless a waiting task goes on |
| Dispatch.TaskStore.StartWorker | drivers/tool/tool_delegate_dispatch.c:219-240 | a worker starts, or other threads act and then the claimed task is given up; no count has grown |
| Dispatch.TaskStore.StartSingle | drivers/tool/tool_delegate_runtime.c:128-183 | the record of a single task is running at once: the caps still hold if and only if there was room |
| Dispatch.TaskStore.RunningCount | kernel/tooling/delegate/delegate_task_query.c:384-430 | the number of running tasks that neither wait for an answer nor report a blocker, of all, of a coordinator or of a chat |
| Dispatch.TaskStore.ScanAgents | drivers/tool/tool_delegate_dispatch.c:133-238 | the loop over a snapshot: either it starts one task that is still startable, or the budget is used up, or every startable task of the snapshot has been given up; with room at its start every state on the way is within the caps |
| Dispatch.TaskStore.TryStart | drivers/tool/tool_delegate_dispatch.c:176-240 | from the kind check to the started worker, with other threads acting between any two store calls: a queued task has become running and its worker has started, or it has failed; with room every state on the way is within the caps |
| Dispatch.TaskStore.LaunchOne | drivers/tool/tool_delegate_dispatch.c:258-380 | at most one worker is started; its task was queued, in the coordinator, of a valid kind and ready, behind counts that showed room, and every startable task in front of it has been given up; else a count showed no room or nothing startable was left; every new state is within the caps unless a waiting task goes on |
| Dispatch.TaskStore.LaunchReady | drivers/tool/tool_delegate_dispatch.c:62-256 | the rounds end because each one takes a task out of the queue; finality holds; on return a count showed no room or no task that was startable still waits; every new state is within the caps unless a waiting task goes on, which cannot happen without other threads |
| Dispatch.TaskStore.LaunchForRuntime | drivers/tool/tool_delegate_lifecycle.c:10-46 | one fair pass: every coordinator with queued tasks gets its turn, at most one worker is started for each coordinator, whatever finishes meanwhile, and every new state is within the caps unless a waiting task goes on |
| Dispatch.TaskStore.AddBatch | kernel/tooling/delegate/delegate_task_store.c:337-370 | planned tasks of a coordinator, new or with tasks already, keep the invariant and the caps |
| Dispatch.Launched | drivers/tool/tool_delegate_dispatch.c:62-380 | a launch takes exactly one task out of the queue and moves no task backwards |
| Progress.NotStuck | drivers/tool/tool_delegate_dispatch.c:133-162 | with resolved, acyclic dependencies, while no task of the coordinator runs or has failed, every waiting task implies a startable one |
| Progress.RunToCompletion | drivers/tool/tool_delegate_lifecycle.c:10-53 | fair passes over any active coordinators, with workers that succeed at any time during a pass or behind it: every task of every coordinator without failed, waiting or invalid tasks gets done, whatever has failed or waits elsewhere, and every state on the way is within the caps |
| Progress.SerialOrder | drivers/tool/tool_delegate_repo_batch.c:1002-1038 | in every state that keeps the invariant, a step of a serial batch that has started finds all earlier steps done |
| Progress.SerialIsResolved | drivers/tool/tool_delegate_repo_batch.c:1002-1038 | the dependencies of a serial batch are resolved and acyclic |
| Progress.StepKeys | drivers/tool/tool_delegate_repo_batch.c:590-596 | the generated keys survive sanitizing, list building and scanning |
| Progress.StepKeyIs | drivers/tool/tool_delegate_repo_batch.c:590-596 | the key of a step is task_ and its number in decimal digits |
| Progress.BuildSerialBatch | drivers/tool/tool_delegate_repo_batch.c:1002-1038 | step i carries its own key and depends on step i - 1 alone |
| Progress.RunSerialBatch | drivers/tool/tool_delegate_repo_batch.c:965-1048 | a serial batch handed to a store with any other work, failed and waiting tasks included, is run to its end with successful workers, in fair passes and within the caps |
| Learning.Step | kernel/learning.c:321-407 | every critical section changes one slot and keeps: one slot per chat, rerun implies running, never queued and running together, the table records exactly the unanswered requests, starts never outnumber accepted requests |
| Learning.Reviews.Schedule | kernel/learning.c:385-407 | an accepted request is recorded at once; refused only for an empty chat, or when all 16 slots belong to other chats |
| Learning.WaitingMeans | kernel/learning.c:327-407 | what the table records is every chat with an accepted request that no start has followed yet |
| Learning.Reviews.Pick | kernel/learning.c:327-346 | a job is picked exactly when one is queued, it is the first queued one, and its start is logged |
| Learning.Reviews.Finish | kernel/learning.c:350-362 | a job that was asked for meanwhile is queued again, else its slot is freed |
| Learning.Reviews.FindJob | kernel/learning.c:45-64 | the slot of the chat, or else a free slot if there is one |
| Learning.SlotChanged | kernel/learning.c:45-64 | changing one slot changes what is recorded for its chat only |
| Cancel.LiveUntilNextEvent | kernel/cancel.c:78-123 | a token is live exactly while no later begin or cancel happened on its chat |
| Cancel.CancelledForever | kernel/cancel.c:110-123 | a token reported cancelled stays cancelled in every continuation |
| Cancel.TokensIncrease | kernel/cancel.c:78-92 | of two begins of a chat the later one has the larger token, and no token is 0 |
| Cancel.UnknownIsLive | kernel/cancel.c:110-123 | nothing is cancelled for the empty chat or for a chat without a begin or a cancel |
| Cancel.SlotForChat | kernel/cancel.c:46-76 | with at most 32 chats every chat finds its slot or a free one, so nothing is evicted |
| Cancel.Step | kernel/cancel.c:78-108 | a begin or a cancel changes the slot of its chat only, and the table goes on describing the history |
| Cancel.Table.BeginTurn | kernel/cancel.c:78-92 | returns the token of the history; the empty chat gets 0 and leaves no trace |
| Cancel.Table.RequestCancel | kernel/cancel.c:95-108 | appends a cancel to the history of the chat |
| Cancel.Table.IsCancelled | kernel/cancel.c:111-123 | the answer is the one the history gives, also for unknown and empty chats |
| Queue.Queue.Send | drivers/platform/os.c:57-78 | a full queue refuses and changes nothing; else the item goes behind the others, and everything sent is everything received and the contents |
| Queue.Queue.Receive | drivers/platform/os.c:80-101 | the oldest item leaves, byte for byte as it was sent; an empty queue changes nothing |
| Queue.RingSent | drivers/platform/os.c:70-72 | writing one slot of the byte ring extends the items it holds and leaves the others alone |
| Queue.RingReceived | drivers/platform/os.c:93-95 | moving the head drops the oldest item and keeps the others |
| Interactive.ReplyFormat | kernel/interactive.c:117-154 | a payload is recognised if and only if it is the prefix, the wanted kind and id without colons, a value and a colon-free flag; the value may hold colons and is cut at 2047 bytes |
| Interactive.PayloadParses | drivers/channel/gateway/ws_client.c:975-985 | what the gateway sends is read back as the value and the flag it was built from |
| Interactive.WaitInteractiveReply | kernel/interactive.c:156-207 | the wait ends with the messages and the reply that the loop and the requeue give as functions of the queue and of what other threads push and pop: before every pop, between a pop and its push back, and before every push of a message set aside |
| Interactive.LoopConserves | kernel/interactive.c:172-199 | at the end of the loop every message that was there or arrived is in the queue, set aside, the reply, taken by another thread, or lost, and one is lost exactly when a push back met a full queue |
| Interactive.RequeueConserves | kernel/interactive.c:202-205 | the same for the pushes of the messages set aside, with events of other threads before each of them |
| Interactive.LoopLosesNothing | kernel/interactive.c:194-198 | when nothing arrives between a pop and its push back, the loop loses no message |
| Interactive.PushBackCanFail | kernel/interactive.c:194-198 | from a full queue of messages for others: the wait sets 16 aside, other producers fill the queue and the slot of the next popped message, and the push back loses it |
| Interactive.WaitConserves | kernel/interactive.c:165-206 | whatever other threads do, no message is lost by the wait if and only if none of its own pushes, in the loop and behind it, meets a full queue |
| Interactive.NothingLostWhenAllFits | kernel/interactive.c:165-206 | a condition that can be checked beforehand: when what is queued and what others push meanwhile number at most 16, nothing is lost |
| Interactive.QuietWait | kernel/interactive.c:165-206 | without other producers nothing overflows: the first matching message is taken out, those in front of it move behind the rest, and nothing else changes |
| Interactive.FirstAnswerIsReturned | kernel/interactive.c:172-206 | on a quiet queue exactly the first message is taken that has the turn's channel, its chat or a non-empty parent chat, and a payload of the wanted kind and id; returned are its value, cut at 2047 bytes, and whether its flag starts with 1 |
| Interactive.NoAnswerNoReply | kernel/interactive.c:172-206 | without such a message among those that are reached there is no reply |
| Interactive.OnlyAnswersAreReturned | kernel/interactive.c:172-206 | whatever other threads do, no other message is ever returned |
| Interactive.PushAllKeeps | ipc/bus.c:25-32 | the bus keeps what fits in order and drops the rest |
| SessionLog.NextSeqOfNumbered | drivers/memory/session_store_file.c:84-126 | on a numbered history the next sequence number is one above the last one, and appending with it keeps the numbers strictly increasing |
| SessionLog.NextSeqOfUnnumbered | drivers/memory/session_store_file.c:84-126 | records without numbers count by their position |
| SessionLog.ShownMeans | drivers/memory/session_store_file.c:59-66 | readers see every record but those whose content starts with the mark of a compaction summary |
| SessionLog.SubsequenceIsNumbered | drivers/memory/session_store_file.c:455-534 | a rewrite with some of the records in their order keeps the numbers positive and strictly increasing |
| SessionLog.Store.FindNextSeq | drivers/memory/session_store_file.c:84-126 | the scan of the file gives one above the highest number a reader sees |
| SessionLog.Store.Append | drivers/memory/session_store_file.c:188-233 | the record gets the next number and is the last one readers see, unless it is a compaction summary |
| SessionLog.Store.Rewrite | drivers/memory/session_store_file.c:455-534 | readers see exactly the given records afterwards |
| SessionLog.Store.History | drivers/memory/session_store_file.c:235-337 | the ring gives exactly the last visible records, oldest first: as many as wanted, or as configured when none or more are wanted, at most 96 and at least one |
| SessionLog.Store.GetWindowMeta | drivers/memory/session_store_file.c:359-442 | limit, count, total, first and last number describe that window, and the next number is what the next append writes |
| SessionLog.RingTakes | drivers/memory/session_store_file.c:293-298 | one write into the ring appends a record, or replaces the oldest one when the ring is full |
| SessionLog.WindowGrows | drivers/memory/session_store_file.c:293-298 | one more record makes the window longer by it or drops the oldest one |
| Facts.PrintedIsRead | drivers/memory/session_store_file_facts.c:112-152 | reading the printed file gives exactly the facts it was printed from |
| Facts.ReadIsKept | drivers/memory/session_store_file_facts.c:112-152 | whatever has been written, lines that were cut included, what is read from the file is trimmed, distinct and at most 12 |
| Facts.ReadBackExactly | drivers/memory/session_store_file_facts.c:112-152 | the stored lines are read back from the printed file if and only if they are a kept list: none cut behind a blank, none there twice |
| Facts.LongLineIsStoredTwice | drivers/memory/session_store_file_facts.c:62-78 | a line of 256 bytes is cut, not recognised by the next merge and stored again |
| Facts.PrintedFits | drivers/memory/session_store_file_facts.c:12-14 | the printed file always fits the 4096-byte read buffer |
| Facts.PrintedMeans | drivers/memory/session_store_file_facts.c:140-150 | the file is the heading line and for every fact a line with a hyphen, a space and the fact |
| Facts.CollectedIsKept | drivers/memory/session_store_file_facts.c:44-91 | whatever is merged, the facts stay trimmed, non-empty, pairwise distinct and at most 12 |
| Facts.FirstInFirstOut | drivers/memory/session_store_file_facts.c:78-86 | the list is the last 12 of the old facts and the appended ones in order |
| Facts.MergeTwice | drivers/memory/session_store_file_facts.c:112-152 | when all facts together number at most 12, nothing is lost and merging the same text again changes nothing |
| Facts.MergeAgain | drivers/memory/session_store_file_facts.c:112-152 | the same whenever the facts of the text have all survived the first merge |
| Facts.MergeTwiceExactly | drivers/memory/session_store_file_facts.c:44-91 | for every text the second merge changes nothing if and only if all facts of the text are still there, or it appends at least 12 facts of which the last 12 are the list |
| Facts.MergeTwiceUpToTwelve | drivers/memory/session_store_file_facts.c:44-91 | for a text with at most 12 different facts the second merge changes nothing if and only if every fact of the text is still there after the first |
| Facts.ThirteenFacts | drivers/memory/session_store_file_facts.c:78-86 | beyond 12 that condition is not necessary: 13 facts merged into an empty list evict the first one, and a second merge gives the same list |
| Facts.MergeTwiceCanChange | drivers/memory/session_store_file_facts.c:78-86 | with 13 distinct facts a second merge of the same text can change the list |
| Facts.AppendUniqueFactLines | drivers/memory/session_store_file_facts.c:44-91 | the loop over the lines, with its look-up and shift, leaves exactly the collected facts in the table |
| Facts.AddLine | drivers/memory/session_store_file_facts.c:62-86 | one line: skipped, known, appended, or appended with the oldest one shifted out |
| Facts.NormalizeFactLine | drivers/memory/session_store_file_facts.c:16-42 | trims the line and takes one list marker off |
| Facts.MarkersAreTaken | drivers/memory/session_store_file_facts.c:34-42 | one of the markers -, * and + with a space or a tab behind it is taken off, with all white space around |
| Facts.OtherLinesAreTrimmed | drivers/memory/session_store_file_facts.c:16-42 | any other line is only trimmed |
| Facts.FactFile.Merge | drivers/memory/session_store_file_facts.c:112-152 | for every text, long lines included, the file becomes the printed form of the merged list; its facts are that list if and only if the list is a kept one, which it is when every line fits its slot |
| Wav.ParseInvertsBuild | arch/mips/voice_wake_mips.c:233-264 | for every non-empty payload, odd lengths included, and every configuration in field range, reading the written file gives the same configuration and payload, on 32-bit and 64-bit targets |
| Wav.BuildWav | arch/mips/voice_wake_mips.c:233-264 | header and payload as laid out in the "Waveform Audio File Format (WAVE)" section of Multimedia Programming Interface and Data Specifications 1.0; no file for an empty payload |
| Wav.HeaderBytes | arch/mips/voice_wake_mips.c:233-264 | the 44 bytes of the header: names, sizes and fields with the lowest byte first, byte rate and block align as the products divided by 8 where they fit an int |
| Wav.ChunkMeans | arch/mips/audio_io_mips.c:240-262 | what the loop makes of a chunk, by its bytes: a format chunk of at least 16 bytes, another format than PCM, the payload, and chunks that are skipped; the next chunk starts at an even distance |
| Wav.WriteLe32 | arch/mips/voice_wake_mips.c:223-231 | four little-endian bytes behind what is there, or nothing when they do not fit |
| Wav.WriteLe16 | arch/mips/voice_wake_mips.c:215-221 | two little-endian bytes behind what is there, or nothing when they do not fit |
| Wav.WavParse | arch/mips/audio_io_mips.c:225-270 | on every input on which the source ends without reading outside the buffer, in either word size, the result is that of the walk: early returns, configuration and payload; the payload lies inside the buffer if and only if its end does not wrap |
| Wav.StopsWithoutReturn | arch/mips/audio_io_mips.c:225-262 | on every input and either target the loop is left, early returns included, if and only if the walk never comes back to an offset |
| Wav.EndsWithoutReturn | arch/mips/audio_io_mips.c:225-270 | the source ends with all reads inside the buffer if and only if the walk never comes back to an offset and never leaves the buffer; these are the inputs of the reader's contract |
| Wav.EndsWithoutZeroStep | arch/mips/audio_io_mips.c:225-262 | with a 64-bit size_t, for every buffer below 2^63 bytes, it ends if and only if no header from which the walk goes on has the size 0xFFFFFFF8, and no read is ever outside the buffer |
| Wav.LoopingFileNeverStops | arch/mips/audio_io_mips.c:259-261 | a 20-byte file on which the loop is never left, on both targets |
| Wav.EscapingFileIsAccepted | arch/mips/audio_io_mips.c:254-257 | a 60-byte file that is accepted on a 32-bit target with a payload of 0xFFFFFFF0 bytes; on a 64-bit target its data chunk is not taken |
| Wav.StrayFileGoesAstray | arch/mips/audio_io_mips.c:240-262 | a 20-byte file on which the walk on a 32-bit target reads outside the buffer |
| Wav.TakenChunk | arch/mips/audio_io_mips.c:244-257 | a payload that passes the length test lies inside the buffer if and only if the sum of the test does not wrap |
| Wav.PayloadInside | arch/mips/audio_io_mips.c:240-269 | for every walk that ends with a payload, on both targets, it lies inside the buffer if and only if its end does not wrap, and always with a 64-bit size_t and a buffer below 2^63 bytes |
| Wav.PlayPayload | arch/mips/audio_io_mips.c:294-302 | the blocks written add up to the payload, or to a prefix of it at the first device error |

## Left out

- Floating-point numbers: numbers are the ints the parser stores in `valueint`, saturated as in the source; the decimal text in front is read exactly, and the comparison of doubles is modelled over reals on int values only.
- Locale handling, allocation failure, allocation hooks, error positions, Raw and reference items, `cJSON_Minify`, `cJSON_SetValuestring` and the constructors of single items: they add no hard property or assume libc behaviour.
- Lists.AddItemToArray: the parent is an array or an object; items hung below other kinds of nodes are not modelled, nor is the append to a list whose head has no `prev`.
- Lists.ReplaceItemViaPointer: the deletion of the replaced tree is not modelled, only that its links are cleared.
- Trees.Compare: trees that share nodes without one node being below the other are not modelled; the engine builds such trees with reference items only.
- Adding to, detaching from and replacing in objects by key are compositions of `Trees.GetObjectItem` with the list edits and would add only easier members.
- Dispatch.TaskStore.AddBatch: `delegate_task_store_mark_running`, which nothing calls, is not modelled; records are not removed or reused.
- Dispatch.TaskStore.TryStart: a task record that has vanished between snapshot and look-up is not modelled, because records are not removed.
- Dispatch.TaskStore.LaunchReady: each round is the body of the single launcher, which the source repeats in both functions; log lines and the allocation of the snapshot are left out.
- Dispatch.TaskStore.LaunchForRuntime: the scan test is the positive queued count, which already makes the coordinator's status queued or running; no launch returns an error, so the first error is always 0.
- Progress.RunToCompletion: coordinators with failed or waiting tasks take part and are not promised to end; failed tasks leave those that depend on them waiting, as in the source.
- Dispatch.TaskStore.SetHold: only running tasks get a request or a blocker, from their own worker.
- Dispatch.TaskStore.Others: the other threads are workers; batches and single tasks are created between launch passes, because one dispatcher acts at a time.
- Progress.BuildSerialBatch: prompts, descriptions and agent kinds of the steps are left out, and the batch goes to the store without its JSON form.
- Cancel.Table.BeginTurn: the eviction of the first slot by a 33rd chat, chat ids that are cut, and 64-bit wrap-around are excluded by preconditions.
- Learning.Reviews.Schedule: chat ids of 32 bytes and more, which the slot would cut, are excluded; what a review does is not modelled.
- Queue.Queue.Send: a blocked caller is one that is refused and tries again; condition variables and timeouts are left out.
- Interactive.WaitInteractiveReply: messages are values with channel, chat and content on a queue of at most 16; their layout as bytes in the ring buffer, the clock and the parent route look-up are parameters or left out.
- SessionLog.Store.History: ids, sources and timestamps of records, lines longer than the read buffer, and records without role or content are left out; a file that does not exist is an empty one.
- SessionLog.Store.Rewrite: only rewrites with records of the current history are covered.
- Facts.MergeTwice: the theorems about merging the same text twice are about texts whose lines fit their slots.
- Wav.BuildWav: the int products of the byte rate and the block align, whose overflow C leaves open, wrap around before they are divided; the reader ignores both fields.
- Grammar.NumberValue: the decimal value is truncated exactly, where the source rounds it to a double first (0.99999999999999999999 gives 1 there and 0 here).
- File-system effects, locks on files, HTTP and sockets, audio devices, LLM calls, prompts, classifiers, timers, Base64, configuration, routing and skills: input and output, foreign calls, heuristics, or easier members beside these cores.
