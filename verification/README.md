# Verified models of the tree, JSON, scheduler and checksum code

Four parts of the repository, each in the form its code has, each proved against a specification that stands on its own.

- **Red-black tree** (`RedBlackTree.dfy`). The macros of `NtyCo/core/nty_tree.h` as a class of linked nodes. A ghost
  sequence `order` says what the tree holds; every method is proved against it, and `ValidMeansRedBlack` ties the ghost
  bookkeeping to an independent definition of red-black trees.
- **JSON** (`JsonText.dfy`, `JsonPrinted.dfy`, `JsonLiteral.dfy`, `JsonGrammar.dfy`, `JsonRoundTrip.dfy`,
  `JsonPrinter.dfy`, `JsonParser.dfy`, `JsonDocument.dfy`, `JsonNesting.dfy`, `JsonUnicode.dfy`, `JsonMinify.dfy`,
  `JsonMinifyGrammar.dfy`, `JsonMinifyText.dfy`, `JsonMinifyMeaning.dfy`, `JsonMinifyAnyText.dfy`, `JsonList.dfy`).
  `JsonText` says what the text of an item is and what item a text stands for, as functions. `JsonPrinted` writes out
  the bytes of the first, and `JsonGrammar` gives a grammar with meanings of its own that the second is proved to accept
  and to read exactly. `JsonRoundTrip` proves that the second undoes the first, wherever the blanks between the tokens
  are kept or left out. The printer (a growing buffer) and the parser (an offset that moves over the input, a two-pass
  string decoder) are classes proved to compute exactly these functions, with every write inside its buffer. The
  in-place minifier is a method on an array; what it makes of texts with comments, of printed texts, and of any text
  that parses, and when these keep their meaning, follows from its function. The child list is a class of its own.
- **Scheduler** (`Scheduler.dfy`, `SleepTree.dfy`). The run loop of `NtyCo/core/nty_schedule.c` with coroutines whose
  functions are arbitrary finite sequences of actions: wait for one descriptor, queue up again, create another
  coroutine, return. Events are an arbitrary answer of the poller. The sleep tree is a second class, under a clock that
  never goes back.
- **Checksum and framing** (`Crc32.dfy`, `RpcFraming.dfy`). The table-driven CRC-32 of `crc32.c` against a register that
  takes one bit at a time, its algebra, and the frames built from it.

## What came out

- The tree and the checksum keep their promises; the list and the framing do so under exact conditions.
- `add_item_to_array` leaves a sound list exactly if the list was empty, or the item is not in it and its `next` is
  null. Otherwise the pointers are those of no list at all: a child that is appended to a second list breaks that one,
  and a list whose own last child is appended again never ends. `cJSON_InsertItemInArray` breaks the list whenever the
  item is in it already. So does `cJSON_ReplaceItemViaPointer` with a child as the replacement, except that the first
  child stays alone, and all others are lost, if it replaces the last of three or more. With an item of another parent,
  it and `cJSON_DetachItemViaPointer` leave both lists sound exactly if the item was neither the first nor the last one.
- A frame is received as it was sent exactly if its payload is shorter than 65536 bytes and the two calls of `recv` give
  the whole header and the whole payload.
- The receiver does not tell one to five bytes, at the end of a stream or from a call that gives no more, from a whole
  header. It takes them for an empty request exactly if they are all zero; otherwise it stops for a wrong checksum, or,
  if there are five and the last one asks for a payload, fails its assertion where that does not arrive.
- `cJSON_PrintPreallocated` succeeds exactly if the buffer has one byte more than the text and its terminator need.
- What was printed reads back exactly up to a nesting depth of 1000; deeper texts are printed, but refused by the parser.
- The parser accepts exactly the texts of the grammar, with any bytes up to 32 between the tokens: JSON, and beyond it
  numbers as `strtod` takes them, any bytes inside strings, and escapes whose digits are none.
- A byte order mark is skipped only in a buffer of five bytes or more, so a mark and a one-byte text without a
  terminator do not parse.
- A `\u` escape whose four bytes are not all hexadecimal digits is not refused: it reads as code point 0.
- `cJSON_Minify` leaves exactly the tokens of a text with blanks and comments between them, and these parse to what the
  text means, if no string ends in a backslash.
- `cJSON_Minify` takes the closing quote of a string that ends in a backslash for an escaped one. Minifying a formatted
  text gives the unformatted text exactly if no string and no key ends in a backslash, except a string with nothing but
  closing brackets of arrays behind it; with a line end after the text there is no such exception. The minified text
  stands for the same item exactly if no blank and no slash stands before the first quote of a string that the scanner
  enters out of step: of an array of a backslash and any string without quotes and slashes, the second string loses its
  blanks. More generally, for any text that parses, the minified text stands for the same item if the minifier takes
  nothing out of string literals; and only then, as long as what it takes out of them are blanks and slashes that stand
  for themselves. If it takes a part of an escape, the minified text may not parse at all.
- `nty_schedule_sched_sleepdown` takes another sleeper out of the tree for good exactly if that one has the time the
  caller last slept until. In no run of coroutines that sleep by `nty_coroutine_sleep` does that happen: whoever went to
  sleep and was not woken since is asleep, until the time his call came to. It takes a direct call with no time to
  sleep, whose time then equals a sleeper's.
- The timespec of `nty_schedule_epoll` is never too long, but lacks exactly the milliseconds behind the whole seconds for
  timeouts of a second or more.
- `nty_schedule_sched_wait` or-s the constants 0 and 1 into the status instead of their bits. The later check for them
  still never fires, because the status is cleared before every resume by an event.

## Model

| member | source | states |
|---|---|---|
| RedBlackTree.Tree.Insert | NtyCo/core/nty_tree.h:579-606 | For every valid tree and new node: either the node with an equal key is returned and nothing changes, or the tree stays valid and its order is the old one with the node put in at its sorted place. The count that every rotation adds one to grows by at most 2, and the count that every turn of the recolouring loop adds one to by at most log2(n+1), n nodes being in the tree afterwards |
| RedBlackTree.Tree.InsertColor | NtyCo/core/nty_tree.h:391-432 | From any tree whose only fault is a red node under a red parent (or a red root), the loop ends in a valid tree with the same order, and in it the count of rotations grows by at most 2 and that of turns by at most log2(n+1) |
| RedBlackTree.Tree.Remove | NtyCo/core/nty_tree.h:511-576 | For every valid tree and node in it, the tree stays valid and its order is the old one without exactly that node. The count of rotations grows by at most 3, and that of turns of the recolouring loop by at most log2(n+1), n nodes being left |
| RedBlackTree.Tree.RemoveColor | NtyCo/core/nty_tree.h:434-509 | From any tree whose only fault is one black node missing on the paths through one link, the loop ends in a valid tree with the same order, red-sibling rotation included, and the count of rotations grows by at most 3 and that of turns by at most log2(n+1) |
| RedBlackTree.Tree.RotateLeft | NtyCo/core/nty_tree.h:325-344 | A rotation at any node changes only the links of the two nodes, the parent and the moved subtree, and keeps all links sound and the order as it is |
| RedBlackTree.Tree.RotateRight | NtyCo/core/nty_tree.h:346-365 | The mirror image of the left rotation |
| RedBlackTree.Tree.Find | NtyCo/core/nty_tree.h:609-624 | Returns a node with the key if there is one, and null only if there is none |
| RedBlackTree.Tree.Nfind | NtyCo/core/nty_tree.h:627-645 | Returns the node with the least key at or above the search key, and null only if all keys are below it |
| RedBlackTree.Tree.Next | NtyCo/core/nty_tree.h:648-667 | Returns the node right after the given one in the order, or null after the last |
| RedBlackTree.Tree.Prev | NtyCo/core/nty_tree.h:670-689 | Returns the node right before the given one in the order, or null before the first: so it inverts Next |
| RedBlackTree.Tree.MinMax | NtyCo/core/nty_tree.h:692-703 | Returns the first node of the order for a negative argument and the last one otherwise, null for an empty tree |
| RedBlackTree.Tree.Foreach | NtyCo/core/nty_tree.h:717-720 | Starting at the minimum and taking Next until null visits exactly the order: every node once, in increasing key order |
| RedBlackTree.Tree.ValidMeansRedBlack | NtyCo/core/nty_tree.h:389-703 | The links of a valid tree spell a binary tree with a black root, no red node with a red child, equally many black nodes on every path, and sorted in-order nodes that are exactly `order` |
| RedBlackTree.Tree.ValidMeansShallow | NtyCo/core/nty_tree.h:389-703 | The height of a valid tree of n nodes is at most 2 log2(n+1) |
| RedBlackTree.Tree.ValidMeansMirrored | NtyCo/core/nty_tree.h:294-306 | In a valid tree the parent links mirror the child links and only the root has no parent |
| RedBlackTree.CountBounds | NtyCo/core/nty_tree.h:389-509 | For binary trees in general: k black nodes on every path and no two reds in a row mean at least 2^k - 1 nodes and a height of at most 2k (one more under a red root) |
| RedBlackTree.HeightBound | NtyCo/core/nty_tree.h:389-509 | Every red-black tree of n nodes is at most 2 log2(n+1) high |
| JsonText.StringRoundTrip | cJSON.c:819-1068 | parse_string on the text print_string_ptr writes for any byte string, wherever it stands in a buffer, returns that string and stops right after the closing quote |
| JsonRoundTrip.NumberRoundTrip | cJSON.c:307-408 | The decimal form of any int, not followed by a number byte, parses to that int and to its end |
| JsonText.SomeLibcReadsInts | cJSON.c:307-408 | What the round trips ask of strtod can be had: a conversion that reads signed decimal digits reads the printed form of every int exactly and to its end |
| JsonRoundTrip.ValueRoundTrip | cJSON.c:1363-1881 | parse_value on the printed text of any item of int-range numbers and NUL-free strings within the nesting limit, formatted or not, at any indentation and any place in a buffer, returns the same item, child order and keys included, and stops exactly at the end of the text; only for a number must no number byte follow |
| JsonRoundTrip.StyledRoundTrip | cJSON.c:1363-1881 | The same for texts that keep the formatted text's blanks in some places and leave them out in others, as a scanner with one bit of state decides |
| JsonRoundTrip.ArrayRoundTrip | cJSON.c:1492-1649 | The same for arrays |
| JsonRoundTrip.ElementsRoundTrip | cJSON.c:1529-1559 | The loop over the elements reads back any non-empty list of printed elements |
| JsonRoundTrip.ObjectRoundTrip | cJSON.c:1652-1881 | The same for objects |
| JsonRoundTrip.MembersRoundTrip | cJSON.c:1691-1739 | The loop over the members reads back any non-empty list of printed members |
| JsonLiteral.StringsExactly | cJSON.c:819-946 | parse_string reads the string s from o to e exactly if a literal for s stands there: between two quotes, units of the scan (a byte, or a backslash and any byte) that are also pieces with meanings that make up s (a byte, one of the eight escapes of one letter, the escapes of a code point for its UTF-8 form, or an escape with bad digits for a NUL byte) |
| JsonGrammar.ParsesExactlyTheGrammar | cJSON.c:1363-1767 | For every buffer, offset and depth, parse_value reads an item up to an offset exactly if a text of the grammar stands there that means the item: words, numbers, literals, arrays and objects with any bytes up to 32 before and behind each token, nested at most 1000 deep |
| JsonGrammar.SpacedRoundTrip | cJSON.c:1085-1767 | For every item of int-range numbers and NUL-free strings within the nesting limit, and any blanks before and behind each of its printed tokens, parse_value reads the item back and ends behind the last token |
| JsonGrammar.NumberBytesAre | cJSON.c:328-353 | The bytes that are copied for strtod are exactly 0123456789+-eE. |
| JsonPrinted.PrintedString | cJSON.c:949-1068 | A string is printed, between quotes, as its bytes one after the other: \" \\ \b \f \n \r \t for these seven, \u00 and two lower-case digits for every other byte below 32, and the byte itself for all others |
| JsonPrinted.PrintedWords | cJSON.c:1429-1453 | null, false and true |
| JsonPrinted.PrintedNumber | cJSON.c:591-640 | An int between -2147483648 and 2147483647 is printed in its decimal form, with a sign only if negative and no leading zeros, and any other number as the library formats it |
| JsonPrinted.PrintedArray | cJSON.c:1590-1649 | The elements between brackets, with a comma between each two, and one space behind it if formatted |
| JsonPrinted.PrintedObject | cJSON.c:1770-1881 | The members between braces, with a comma between each two; formatted, each on a line of its own with its tabs and a tab behind the colon, and the tabs of the column before the closing brace |
| JsonParser.StepFits | cJSON.c:698-816 | No step of the decoding pass writes more bytes than the scanning pass counted for the input it takes, for any input |
| JsonParser.StartsAreSparse | cJSON.c:838-853 | Escapes never start at adjacent bytes, so k bytes hold at most half as many starts, rounded up |
| JsonParser.ParseBuffer.ScanLiteral | cJSON.c:831-865 | The scanning pass finds the closing quote, or none, and counts the escape starts before it |
| JsonParser.ParseBuffer.DecodeString | cJSON.c:858-918 | For every input the decoding pass, its terminator included, stays inside the allocation_length + 1 bytes, fails exactly on an invalid escape, and otherwise writes the decoded string |
| JsonParser.ParseBuffer.DecodeLiteral | cJSON.c:698-816 | The \u decoder takes 6 or 12 bytes or refuses, and writes the encoding of the code point |
| JsonParser.ParseBuffer.WriteUtf8 | cJSON.c:754-810 | The byte loop writes the encoding of the code point, front part of the output untouched |
| JsonParser.ParseBuffer.ReadHex4 | cJSON.c:661-694 | Reads the number that four hexadecimal digits of either case spell, 0 if one is not a digit |
| JsonParser.ParseBuffer.ReadString | cJSON.c:819-946 | Succeeds exactly when the specification does, with the same string and end |
| JsonParser.ParseBuffer.ReadValue | cJSON.c:1363-1415 | For every buffer, offset and depth, parse_value succeeds exactly when the specification does, with the same item and end, and leaves the depth as it was |
| JsonParser.ParseBuffer.ReadArray | cJSON.c:1492-1587 | parse_array computes the specification, nesting limit included |
| JsonParser.ParseBuffer.ReadObject | cJSON.c:1652-1767 | parse_object computes the specification, nesting limit included |
| JsonParser.ParseBuffer.SkipWhite | cJSON.c:1085-1108 | Skips bytes up to 32, and steps back onto the last byte if nothing else is left |
| JsonPrinter.PrintBuffer.Ensure | cJSON.c:485-568 | Makes room exactly when offset, request and one byte more fit into INT_MAX bytes (or into the caller's buffer), keeps every byte, and then the request fits behind the offset |
| JsonPrinter.PrintBuffer.CountEscaped | cJSON.c:964-1000 | The counting pass predicts the length of the escaped string exactly |
| JsonPrinter.PrintBuffer.WriteEscaped | cJSON.c:1019-1063 | The writing pass emits exactly the escaped string and nothing before it |
| JsonPrinter.PrintBuffer.PrintString | cJSON.c:949-1068 | Writes the quoted string, or fails exactly when it does not fit |
| JsonPrinter.PrintBuffer.PrintValue | cJSON.c:1418-1489 | For every item, print_value leaves exactly the item's text, terminated, at the old offset and everything before it as it was, and fails exactly if the text and two bytes more do not fit |
| JsonPrinter.PrintBuffer.PrintArray | cJSON.c:1590-1649 | The same for arrays |
| JsonPrinter.PrintBuffer.PrintObject | cJSON.c:1770-1881 | The same for objects |
| JsonPrinter.Print | cJSON.c:1234-1310 | cJSON_Print and cJSON_PrintUnformatted return the text of every item whose text and two bytes more fit into INT_MAX bytes, and nothing otherwise |
| JsonPrinter.PrintPreallocated | cJSON.c:1343-1360 | Succeeds exactly if the caller's buffer holds the text and two bytes more, and then holds the text and its terminator |
| JsonPrinter.PrintableMeansCStrings | cJSON.c:1418-1489 | Everything that reads back can be printed |
| JsonDocument.ParseWithLengthOpts | cJSON.c:1142-1219 | Computes the document specification: byte order mark, blanks, value, terminator if required |
| JsonDocument.ParseWithOpts | cJSON.c:1126-1139 | Parses a C string with its terminator as part of the buffer |
| JsonDocument.NothingFollows | cJSON.c:1142-1219 | With a terminator required, a C string parses exactly if it parses without and only blanks follow the value, and the end returned is the terminator |
| JsonDocument.ValueEnd | cJSON.c:1363-1415 | No value ends with a NUL byte, so the parser never runs past a terminator |
| JsonDocument.DocumentRoundTrip | cJSON.c:1085-1219 | A printed text parses back to its item, after a byte order mark or none, between any blanks, formatted or not, terminator required or not |
| JsonDocument.UnterminatedRoundTrip | cJSON.c:1111-1124 | The same without a terminator, exactly except for a mark and a text of one byte |
| JsonNesting.ReadsBackUpToTheLimit | cJSON.c:1492-1508 | For items of any nesting depth, the printed text parses back to the item if it nests at most 1000 deep and is refused otherwise |
| JsonNesting.ParsedPrintsAndReparses | cJSON.c:1142-1219 | Printing is a normal form: whatever text an item was parsed from, if it has only int-range numbers and NUL-free strings, its printed text parses to the same item |
| JsonNesting.ParsedIsShallow | cJSON.c:1363-1415 | Whatever is parsed nests within what the limit leaves at the parser's depth |
| JsonNesting.DeepValue | cJSON.c:1652-1668 | A printed value that nests too deep for the depth the parser is at is refused, wherever it stands |
| JsonUnicode.Utf8IsTheEncoding | cJSON.c:754-810 | The bytes written for a code point are its one well-formed encoding after the syntax in section 4 of RFC 3629: every other byte string decodes to something else or not at all |
| JsonUnicode.Utf8Encodes | cJSON.c:754-810 | Every well-formed sequence is what is written for the code point it stands for |
| JsonUnicode.HexValueIs | cJSON.c:667-685 | A byte has the value d exactly if it stands at place d of 0123456789abcdef or of 0123456789ABCDEF |
| JsonUnicode.HexReads | cJSON.c:661-694 | parse_hex4 reads a number exactly if four digits spell it |
| JsonUnicode.EscapesDecode | cJSON.c:698-816 | The one or two escapes that spell the units of a code point (section 2.1 of RFC 2781) decode to its UTF-8 encoding |
| JsonUnicode.EscapesAccepted | cJSON.c:713-750 | An escape with four hexadecimal digits is accepted exactly if it spells a code point, alone or as a surrogate pair inside the string |
| JsonUnicode.BadDigitsReadAsZero | cJSON.c:661-694 | An escape without four hexadecimal digits is accepted as code point 0 |
| JsonMinify.MinifyInPlace | cJSON.c:2909-2955 | On a buffer that holds any C string, the loop with its two pointers leaves exactly the minified string and a terminator, reads nothing behind the old terminator and overwrites nothing unread |
| JsonMinify.CopyString | cJSON.c:2887-2907 | minify_string moves the string to the front unchanged, up to where its scanner ends it |
| JsonMinify.SkipLine | cJSON.c:2860-2871 | The one-line comment is skipped up to behind its line end or to the terminator |
| JsonMinify.SkipComment | cJSON.c:2873-2885 | The other comment is skipped up to behind the first star and slash or to the terminator |
| JsonMinify.MinifyIsIdempotent | cJSON.c:2909-2955 | For every text, minifying twice is minifying once |
| JsonMinifyGrammar.MinifyLeavesTheTokens | cJSON.c:2860-2955 | For every text of the grammar with spaces, tabs, line ends and comments of both kinds between its tokens, before and behind it, and no string that ends in a backslash: the minified text is exactly the tokens, and parses to what the text means |
| JsonMinifyGrammar.GapGoes | cJSON.c:2860-2885 | Blanks, one-line comments up to their line end and comments up to their first star and slash leave nothing |
| JsonMinifyGrammar.StringEnds | cJSON.c:2887-2907 | The minifier ends a string exactly at the first quote that does not stand right behind a backslash |
| JsonMinifyText.StringScan | cJSON.c:2887-2907 | minify_string ends a printed string at its closing quote if the string does not end in a backslash, and otherwise runs on from behind that quote |
| JsonMinifyText.MinifiedIsUnformatted | cJSON.c:2909-2955 | For every item, minifying the formatted text gives the unformatted one exactly if no string and no key ends in a backslash, except a string with nothing but closing brackets of arrays behind it |
| JsonMinifyText.MinifiesWithLineEnd | cJSON.c:2909-2955 | With a line end after the text, exactly if no string and no key ends in a backslash |
| JsonMinifyText.BadItem | cJSON.c:2887-2907 | If a string or key of the item ends in a backslash, then before any text with a blank ahead of its next quote the minified text keeps a blank where the unformatted one has none |
| JsonMinifyText.FromItem | cJSON.c:2887-2955 | If the scanner takes nothing out of any string, whether it starts in step or not, the minified text is the item's text with its blanks kept exactly where the scanner is out of step |
| JsonMinifyMeaning.LostItem | cJSON.c:2887-2955 | If the scanner takes a byte out of some string or key, then wherever the minified text stands and whatever whole pieces follow, it does not parse to the item |
| JsonMinifyMeaning.MeaningSurvives | cJSON.c:2909-2955 | For every item, the minified formatted text parses to that item exactly if no blank and no slash stands before the first quote of a string that the scanner enters out of step |
| JsonMinifyMeaning.PairIsSqueezed | cJSON.c:2887-2907 | Of the array of a backslash and any string without quotes and slashes, the minified text parses to the array of a backslash and that string without its blanks: another item exactly if it has one |
| JsonMinifyAnyText.MinifiedTextParses | cJSON.c:2887-2955 | For every C string that parses up to its terminator and out of whose string literals the minifier takes no comment and no part of an escape, the minified text parses up to its terminator too, and stands for the same item exactly if it takes none |
| JsonMinifyAnyText.MinifiedTextMeansTheSame | cJSON.c:2909-2955 | For every C string that parses up to its terminator: if the minifier takes nothing out of string literals, the minified text parses to the same item |
| JsonMinifyAnyText.DecodeSim | cJSON.c:2887-2907 | A string literal that loses blanks and slashes, but no part of an escape, still decodes, to the same string exactly if it loses none |
| JsonMinifyAnyText.TornIsRefused | cJSON.c:2887-2955 | A text that parses and whose minified text does not: the slash of an escape is taken, and the backslash escapes the closing quote |
| JsonList.LinkedIsUnique | cJSON.c:2012-2043 | The pointers determine the sequence of children |
| JsonList.Chain | cJSON.c:1527-1573 | The chaining of the items as they are parsed, and the head's link to the last one at the end, make a sound list of exactly these items in this order |
| JsonList.ListItem.Get | cJSON.c:1907-1924 | Returns the child at an index, null past the end |
| JsonList.ListItem.Size | cJSON.c:1884-1905 | Counts the children |
| JsonList.ListItem.Add | cJSON.c:2012-2043 | Appends to the sequence of children, unless the item is null or the parent itself; the list is sound afterwards exactly if it was empty, or the item was not in it and its next was null, and otherwise no sequence has these links |
| JsonList.AddTwice | cJSON.c:2012-2043 | A call that breaks a list: a child that has a next, appended to a second list that is not empty; no sequence has the links of that one afterwards |
| JsonList.AddTail | cJSON.c:2012-2043 | Another such call: a list's own last child, which has no next, appended once more |
| JsonList.SharedMeansSame | cJSON.c:2012-2043 | Two sound lists that share an item are the same list |
| JsonList.ListItem.Detach | cJSON.c:2243-2277 | Removes exactly the given child from the sequence, keeps the list sound and leaves the child with null links. For a child of another parent, both lists are sound afterwards exactly if it was neither the first nor the last one; for the last one, this list has no sequence any more, and for the first and the last one, the other has none |
| JsonList.ListItem.Insert | cJSON.c:2319-2351 | Inserts at the index, or appends past the end; inserted, the list is sound afterwards exactly if the item was not in it, and appended, exactly as for Add; otherwise no sequence has these links |
| JsonList.ListItem.Replace | cJSON.c:2353-2400 | Updates the sequence at the given child, keeps the list sound and leaves the old child with null links. If the replacement is a child itself, the first child is left alone where it replaces the last of three or more, and elsewhere no sequence has the links. For an item of another parent, both lists are sound afterwards exactly if it was neither the first nor the last one |
| JsonList.ListItem.DetachAt | cJSON.c:2279-2287 | Removes the child at an index and returns it; does nothing for an index out of range |
| JsonList.ListItem.ReplaceAt | cJSON.c:2402-2410 | Updates the child at an index, with the same exact outcome for a replacement that is a child already; refuses an index out of range |
| Scheduler.SegmentIs | NtyCo/core/nty_coroutine.c:257-284 | Behind any creations, and fewer renices than make five, a coroutine stops at a descriptor to wait on, at a sleep of no time, at the fifth renice, or at the end of its function, and what it created before is created in that order |
| Scheduler.Schedule.Resume | NtyCo/core/nty_coroutine.c:226-255 | From any reachable state, a resume runs the coroutine to its next stop: exactly the scripts it creates queue up, then itself if it requeues, the waiting tree changes exactly in its own entries, it is freed exactly if its function returns, and the invariant holds again. It fails exactly if it polls a descriptor another coroutine waits on |
| Scheduler.Schedule.Proceed | NtyCo/core/nty_socket.c:76-119 | One stretch of a coroutine, deregistration of the descriptor it has waited on included, does what the specification of its script says, and afterwards the poller again watches exactly the descriptors some coroutine waits on |
| Scheduler.Schedule.SchedWait | NtyCo/core/nty_schedule.c:150-179 | The waiting tree gets the coroutine under the descriptor; the first assertion never fires, the second exactly if someone else waits on it |
| Scheduler.Schedule.DoneMeansNoneLeft | NtyCo/core/nty_schedule.c:261-266 | In every reachable state nty_schedule_isdone holds exactly if every coroutine has exited and been freed, and exactly if spawned_coroutines is 0 |
| Scheduler.Schedule.RunReady | NtyCo/core/nty_schedule.c:329-341 | One pass resumes exactly the coroutines queued when it began, each once and first in first out; the queue then holds exactly those that queued up meanwhile; the end-of-file branch is never taken |
| Scheduler.Schedule.RunEvents | NtyCo/core/nty_schedule.c:344-360 | However the resumed coroutines register again, every event of a batch resumes exactly the coroutine that waited on its descriptor when the poller answered; the search never comes back empty, because the poller watches exactly the descriptors some coroutine waits on before and after each resume |
| Scheduler.Schedule.Wake | NtyCo/core/nty_schedule.c:121-131 | For every descriptor the poller watches, the search finds the coroutine that waits on it |
| Scheduler.Schedule.Turn | NtyCo/core/nty_schedule.c:321-361 | One turn of the run loop keeps the invariant, resumes all that were queued first and in their order, and takes at least as much off the work left as it makes resumes. It asks the poller after that pass, once, exactly if the queue is empty then, and resumes exactly the coroutines that wait on what it reports for the descriptors registered then, from the last event to the first; if something queued up meanwhile, it takes no event. It makes a resume if the poller answers and a coroutine is left |
| Scheduler.Schedule.Run | NtyCo/core/nty_schedule.c:316-367 | Over whole runs: each live coroutine is in exactly one of the ready queue and the waiting tree, the counter equals the number of live coroutines, and the loop ends only when all were freed. A run of any length makes no more resumes than the work it takes off what was left at its start; each question to the poller gets the answer of its turn, and whoever waited on what it reports is resumed next; a loop that is not done has taken all its turns; it gets to its end within as many turns as there is work if the poller never answers with no event |
| Scheduler.SegmentShrinks | NtyCo/core/nty_coroutine.c:226-255 | Every stretch a coroutine runs takes at least one off the work left in its script and in those it creates |
| Scheduler.Schedule.WorkShrinks | NtyCo/core/nty_schedule.c:316-367 | Every resume takes at least one off the work left for all coroutines together |
| SleepTree.Sleeping.SchedSleepdown | NtyCo/core/nty_schedule.c:87-109 | Ends with the caller at the least free time at or above its target; all other sleepers stay exactly if none has the time the caller last slept until |
| SleepTree.Sleeping.CoroutineSleep | NtyCo/core/nty_coroutine.c:267-277 | Among coroutines of which each sleeps under its own time, or has a time that is over and no one's, a call puts the caller to sleep until the least time from its target on that no other sleeper has, moves no one else and keeps that so; with no time to sleep, nothing changes |
| SleepTree.Sleeping.Run | NtyCo/core/nty_schedule.c:87-109 | Over every run in which coroutines go to sleep and the loop wakes them, in any order and any number of times, no sleeper is lost. Each call puts its caller to sleep until the least time from its target on that none of the others has who went to sleep and were not woken since; each expiry wakes the one of these with the least time, exactly if that has come; in the end these are exactly those asleep, each until his time; and the wake-up times of all who woke are added to the strictly increasing record of the class |
| SleepTree.HistoryIsDetermined | NtyCo/core/nty_schedule.c:87-109 | The steps of a run leave no choice: two histories in which each turn is what its step has to come to are equal |
| SleepTree.Sleeping.ExpireTurn | NtyCo/core/nty_schedule.c:248-259 | Of the sleepers and times a history says, the one with the least time wakes, exactly if that has come, and the tree then holds the others, each under his time |
| SleepTree.LoseSleeper | NtyCo/core/nty_schedule.c:87-109 | How a sleeper is lost: after a direct call with no time to sleep that gives the caller a sleeper's time, the caller's next call takes that sleeper out of the tree, never woken |
| SleepTree.Sleeping.Expired | NtyCo/core/nty_schedule.c:248-259 | Takes out the sleeper with the least time if that has come, never early; together with the class invariant: over every run all wake-up times are strictly increasing, sleepers that go back to sleep included |
| SleepTree.Sleeping.Drain | NtyCo/core/nty_schedule.c:323-327 | The loop over the sleepers who are due, where each one who wakes may sleep again for any time and the clock is read anew for every test: all wake in strictly increasing order of time, none before it is due, every other one stays where it is, and at the end no one who sleeps is due; if no one sleeps again, it ends by itself and wakes exactly those who were due |
| SleepTree.Sleeping.MinTimeout | NtyCo/core/nty_schedule.c:268-281 | Returns the time until the first sleeper is due, 0 if one is due already, the default if no one sleeps |
| SleepTree.Sleeping.Timeout | NtyCo/core/nty_schedule.c:283-298 | The poller may wait only if nothing is ready and no one is due: exactly three seconds if no one sleeps, and otherwise the gap to the first sleeper, less its whole milliseconds if it is a second or more |
| SleepTree.TimespecIsShort | NtyCo/core/nty_schedule.c:289-295 | The timespec is a proper one; below one second it is the timeout, and from there on it lacks exactly the milliseconds behind the whole seconds. So it is never longer, and equal to the timeout exactly below one second or within a millisecond after a whole second |
| Crc32.InitTable | crc32.c:13-26 | Entry i of the table is i after eight shifts of the register |
| Crc32.CalcCrc32 | crc32.c:28-36 | For byte sequences of every length, the table-driven loop computes the CRC-32 of section 8 of RFC 1952, defined one bit at a time |
| Crc32.GeneratorIsTaken | crc32.c:16-25 | The register takes the 33 coefficients of the generator polynomial of section 8 of RFC 1952, written out by their exponents, from 0 to 0: it divides by that polynomial |
| Crc32.CheckValue | crc32.c:28-36 | The checksum of the nine bytes of 123456789 is 0xCBF43926 |
| Crc32.TableStep | crc32.c:32-34 | One look-up does the work of eight message bits, for every register and byte |
| Crc32.Absorb | crc32.c:13-36 | Taking n message bits one at a time is adding them all to the register and then shifting n times |
| Crc32.TableXor | crc32.c:16-25 | The entry for an XOR is the XOR of the entries |
| Crc32.SerialXor | crc32.c:28-36 | The register is linear in its start and the message together |
| Crc32.ChecksumXor | crc32.c:28-36 | For any two messages of one length, the checksum of their XOR is the XOR of their checksums and that of as many zero bytes |
| Crc32.WindowIsInjective | crc32.c:28-36 | The map from a window of up to 32 message bits to the register is injective |
| Crc32.RegisterIsInjective | crc32.c:28-36 | Later bits preserve a difference of the registers |
| Crc32.BurstIsSeen | crc32.c:28-36 | Messages of one length that differ only inside 32 consecutive bits, at any bit offset, leave different registers |
| Crc32.FourBytesAreSeen | crc32.c:28-36 | Payloads of one length that differ only inside four consecutive bytes have different checksums |
| RpcFraming.HeaderEncode | rpc.c:27-41 | The header of a C string holds the checksum and the length, cut to 16 bits, of the bytes before its terminator |
| RpcFraming.OnTheWire | rpc.c:27-41 | A frame is four bytes of the checksum and two of the length cut to 16 bits, each with the lowest byte first, and then the payload |
| RpcFraming.CheckPacket | crc32.c:38-45 | Returns 0 exactly if the checksum is that of the payload, -1 otherwise |
| RpcFraming.FrameRoundTrip | rpc_server.c:21-46 | A frame is received as its payload, with the rest of the stream left, exactly if the payload is shorter than 65536 bytes and the two calls give the whole header and the whole payload |
| RpcFraming.StreamRoundTrip | rpc_server.c:21-59 | Any number of concatenated frames split back into the same payloads, if each call gives all it is asked for, whatever the receiver has to stop for behind them, and it stops for that; at the end of the stream, because it has ended |
| RpcFraming.RequestRoundTrip | rpc_server.c:31-46 | A request is received as the same C string, once the receiver has put a terminator behind it, exactly if it is shorter than 65536 bytes and each call gives all it is asked for |
| RpcFraming.StrayBytes | rpc_server.c:24-46 | What becomes of one to five bytes at the end of a stream: an empty request exactly if all are zero, the failing assertion exactly if there are five and the last is not zero, a wrong checksum otherwise |
| RpcFraming.ShortHeader | rpc_server.c:24-46 | The same for a first call that gives one to five bytes in the middle of a stream; if the fifth asks for a payload, the assertion fails exactly if that does not arrive as a whole |
| RpcFraming.DamageIsRefused | rpc_server.c:36-46 | A payload damaged inside four consecutive bytes on the way is refused: for its checksum if it arrives as a whole, by the assertion otherwise |
| RpcFraming.ReceiveFrame | rpc_server.c:22-46 | For every stream, and however few bytes each call gives, the receiver's steps compute the specification of one frame: the end of the stream, a header cut short that reads as zeros behind, the assertion on a payload cut short, and a bad checksum included |
| RpcFraming.Serve | rpc_server.c:21-62 | For every stream, and however few bytes each call gives, the receiver's loop computes the specification of the whole: all requests up to where it stops, and why it stops there |

## Left out

- RedBlackTree.Tree.Insert: the key is a constant of its node, whereas a coroutine's wake-up time changes while it is out of the tree; RB_AUGMENT is empty, as in the original.
- JsonParser.ParseBuffer.ReadValue: on failure, the offset for the error position and the depth are not specified.
- JsonParser.ParseBuffer.WriteUtf8: the bit masks of the original are written as sums and remainders.
- JsonDocument.ParseWithLengthOpts: on failure, the position returned to the caller is not specified.
- JsonRoundTrip.ValueRoundTrip: strtod is a parameter that is only required to read the decimal form of an int exactly; "%1.15g" and "%1.17g" are a parameter too, so nothing is said about reading back other numbers.
- JsonPrinter.PrintBuffer.Ensure: allocation never fails, and the buffer grows as with realloc.
- JsonPrinter.Print: strings and keys are C strings, as they are in memory; NULL strings, raw items, NaN and infinities are not modelled.
- JsonPrinter.PrintPreallocated: the length is that of the buffer, so a negative length or a NULL buffer is not modelled.
- JsonList.ListItem.Replace: deleting the old item is not modelled, only that it is unlinked; nothing is said about the lists where the item is a child of another parent and the replacement a child of either.
- JsonList.ListItem.Detach: an item with a `prev` that is in no sound list is not modelled; an item that is the last child of another parent is not given to an empty list, as the original follows the null head there.
- JsonMinifyAnyText.MinifiedTextParses: where the minifier tears an escape or finds a comment inside a string literal, nothing is said but that the minified text may not parse.
- JsonList.ListItem.Size: the cast of the count to an int is not modelled.
- Scheduler.Schedule.Run: a coroutine polls one descriptor with timeout 1, so the sleeping tree is empty and the loop over expired coroutines does nothing; the eventfd is never signalled; the two trees are maps, since RedBlackTree proves what they hold.
- Scheduler.Schedule.SchedWait: a poll for neither reading nor writing, which the original asserts against, is not modelled.
- Scheduler.Schedule.Resume: switching contexts and stacks is running the coroutine's script; where the original's assertion stops the program, the outcome is only that it was reached.
- SleepTree.Sleeping.SchedSleepdown: times stay below 2^64 microseconds, so that neither the target nor the search for a free time wraps around.
- SleepTree.Sleeping.Drain: the loop is cut off after a given number of turns, since nothing bounds how often sleepers go back to sleep; what else a coroutine does when it wakes is part of Scheduler.
- Crc32.InitTable: the table is an array that is passed around instead of a static one.
- RpcFraming.ReceiveFrame: a recv that fails is one that gives no bytes; words are stored least significant byte first, as on the processors the original is written for.
- JsonParser.ParseBuffer.ReadArray: the items read are collected in a sequence; how they are chained is JsonList.Chain.
- cJSON_Compare, cJSON_Duplicate, references, constant keys, hooks and locale handling.
- Epoll, sockets and hooks, the splay tree and queue macros, RPC dispatch and code generation.
