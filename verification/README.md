# Models of the JSON library, the push bus and the price display

These Dafny files model three parts of the repository and prove what they are for.

**The JSON library** (`src/lib/main/parson.c`). `JsonValue` describes an object as a list of members and relates it to a
finite map. `Probing` and `ObjectTable` model the hash table behind it, arrays and all: linear probing, dense item
arrays cross-linked with the cells, growth, and removal by swap and backward shift. `JsonText` is the printed text and
`JsonParse` the parser, as functions; `JsonRoundTrip` proves that they undo each other. `JsonGrammar` says, as a grammar
of its own, exactly which texts the parser accepts, and `JsonLayout` what printed text looks like. `JsonLiterals`,
`JsonStrings`, `Utf8` and `CodePoints` are about strings: which are accepted, where they end, how much they produce, and
what their escapes mean (section 7 of RFC 8259, section 3 of RFC 3629). `JsonParser` and `JsonSerializer` are the same
parser and printer as the library runs them, with a cursor and with a buffer. `DottedPaths` and `JsonEquality` cover
dotted access, deep copy and equality. Number text belongs to the C library: it is a pair of functions, and the round
trip asks that the pair read back each number that occurs (`JsonText.NumberRoundTrips`). `Decimal` is such a pair for
integers.

**The push bus** (`src/push`, `src/lib/main/rtd.c`, `src/lib/main/rtp.c`). `SymbolCodes` and `SymbolBoard` are the
sorted symbol table with its rooms and their recycling. `Masks` says which events a mask word stands for.
`Subscriptions` gives the commands of clients as steps on values; `Accounting`, `Batches` and `BusRuns` prove what they
keep, command by command, batch by batch and over whole runs. `Alerts` adds the sender threads. `Broker` runs all of it
on arrays, with the loops of the source, and is proved against the steps on values. `Ring` is the ring of messages with
its 16-bit indices and 32-bit numbers, `Receiver` puts alarm records together from a byte stream, and `Delivery` joins
the two. `PacketPool` is the pool with its linked lists, and `PoolThreads` any number of threads using it at once.

**The price display** (`src/quot/update.c`, `src/mon/monmap.c`). `PriceText` prints prices in halves to sixty-fourths
and reads them back; the fractions are dyadic, so `real` arithmetic is what the doubles do.

`Bytes` and `Pigeonhole` hold what several modules share.

The properties the code does not have are stated with the exact condition under which it has them. A command that sets a
zero mask for a code the client does not have is counted for ever (`Batches.BatchCounts`, `BusRuns.ZeroMaskExample`). On
a static board, dropping and adding a symbol again forgets its listeners (`BusRuns.DropThenAdd`, `BusRuns.DropExample`).
A refused remote peer leaves its slot marked as linked (`Alerts.AcceptLinked`, `Alerts.RefusedPeerExample`). Alarms are
compared by a number that wraps (`Ring.AlarmFinds`, `Ring.StaleAlarmAccepted`). A bad record loses the good ones read
with it (`Receiver.CutMatters`, `Receiver.BadRecordLosesItsRead`). The UTF-8 check may look behind the length it is
given (`Utf8.WalkAccepts`). Equality of values with numbers is not always transitive
(`JsonEquality.EqualsTransitiveExactly`, `JsonEquality.EqualsNotTransitive`). A client whose socket is full gets no
alarm (`Alerts.FanOut`). The parser accepts trailing commas and text behind the first value, as the source does, and
reads a lone minus sign as the number that strtod gives for no digits; `JsonGrammar.ParserAccepts` has all of it.

`dafny verify dfyconfig.toml` checks everything.

## Model

| member | source | states |
|---|---|---|
| `JsonValue.AddIsUpdate` | src/lib/main/parson.c:564-598 | adding is refused exactly for a name that is there, and otherwise is the map update, with names kept distinct |
| `JsonValue.SetIsUpdate` | src/lib/main/parson.c:2063-2104 | setting is the map update, whether the name was there or not |
| `JsonValue.RemoveIsErase` | src/lib/main/parson.c:618-676 | removing succeeds exactly for a name that is there and erases that name and no other, although the last member moves into the gap |
| `JsonValue.RunAgreesWithMap` | src/lib/main/parson.c:564-676 | after every sequence of add, set, remove and clear, lookup of every name agrees with the abstract map |
| `ObjectTable.HashString` | src/lib/main/parson.c:397-415 | the loop computes the hash over the bytes up to a NUL, in 64-bit arithmetic |
| `ObjectTable.MaskedIsHome` | src/lib/main/parson.c:534-545 | masking with capacity less one is the remainder, for every capacity a table can have |
| `Probing.ScanExcludes` | src/lib/main/parson.c:533-562 | a probe that stops at an empty cell, or has been everywhere, has excluded the key |
| `Probing.InsertKeepsTable` | src/lib/main/parson.c:589-596 | filling the first empty cell of the probe and appending to the dense arrays keeps cells and cell indices inverse, and every probe path free of holes |
| `Probing.DropItem` | src/lib/main/parson.c:641-657 | moving the last item into the dropped slot leaves the cross links of all others right, with one hole |
| `Probing.MustShiftMeaning` | src/lib/main/parson.c:666-668 | the three-way comparison of the source holds exactly when the examined item lies, cyclically, at least as far from home as from the hole |
| `Probing.ShiftItem` | src/lib/main/parson.c:659-673 | an item whose probe path may cross the hole moves into it; the hole moves to where it was |
| `Probing.CloseHole` | src/lib/main/parson.c:659-674 | when the scan meets an empty cell, the table without the item is in order again: no hole lies between any item and its home |
| `ObjectTable.Table.constructor` | src/lib/main/parson.c:433-473 | an empty table of the given capacity, with room for seven tenths of it |
| `ObjectTable.Table.GetCellIx` | src/lib/main/parson.c:533-562 | the cell of the key, exactly when the key is a member; otherwise the empty cell where it belongs |
| `ObjectTable.Table.NeverFull` | src/lib/main/parson.c:533-562 | the load limit keeps a cell free, so no probe goes all the way round |
| `ObjectTable.Table.GetValue` | src/lib/main/parson.c:600-616 | lookup in the member list |
| `ObjectTable.Table.Add` | src/lib/main/parson.c:564-598 | refuses a name that is there, else appends the member, growing a full table first; nothing else changes |
| `ObjectTable.Table.Grow` | src/lib/main/parson.c:503-531 | twice the capacity, or 16 at first; the same members in the same order and a free slot; the recursion through add ends |
| `ObjectTable.Table.SetValue` | src/lib/main/parson.c:2063-2104 | refuses a value that belongs to a tree already; otherwise replaces the value in place or appends the member |
| `ObjectTable.Table.Remove` | src/lib/main/parson.c:618-676 | erases the member, with the swap of the last item and the backward shift of the cells done in the arrays |
| `ObjectTable.Table.Clear` | src/lib/main/parson.c:2270-2287 | no members, and the table in order |
| `JsonRoundTrip.QuotedRoundTrips` | src/lib/main/parson.c:834-900 | unescaping inverts escaping, for every byte string and both slash settings |
| `JsonRoundTrip.ParsePrinted` | src/lib/main/parson.c:902-1090 | anywhere in a text, as long as a number is not followed by what would continue it, the parser returns a printed value and stops right behind it if the value fits the nesting limit, and refuses it if not |
| `JsonRoundTrip.PrintIsCString` | src/lib/main/parson.c:1124-1267 | printed text holds no NUL, so it survives as a C string |
| `JsonRoundTrip.RoundTrip` | src/lib/main/parson.c:1362-1370 | parsing the printed form, compact or pretty, returns the very value with its member order, if and only if it fits the nesting limit |
| `JsonRoundTrip.FitsIsHeight` | src/lib/main/parson.c:902-925 | fitting the limit is a bound on the height of the tree |
| `JsonGrammar.ParserAccepts` | src/lib/main/parson.c:902-1090 | a text parses to a value if and only if, behind an optional byte order mark and blanks, it starts with a text that denotes the value by the grammar, and the value is at most 2048 containers deep; all six kinds of isspace stand between any two tokens, a trailing comma is allowed, names are distinct and free of NUL |
| `JsonGrammar.OneMeaning` | src/lib/main/parson.c:1362-1370 | a text denotes one value at most within the limit |
| `JsonGrammar.AcceptedIsWellFormed` | src/lib/main/parson.c:927-998 | every object of an accepted text has distinct names without a NUL, on every level |
| `JsonLayout.CompactIsPrinted` | src/lib/main/parson.c:1124-1267 | compact text is the parts between commas, without a blank, the same at every level |
| `JsonLayout.PrettyIsPrinted` | src/lib/main/parson.c:1124-1267 | pretty text is lines: brackets on lines of their own, parts four spaces further in, a comma behind all but the last, a colon and a space behind names, empty containers on one line |
| `JsonLayout.QuotedIsInQuotes` | src/lib/main/parson.c:1269-1334 | strings are written byte by byte from a table: short escapes, four digits for the other controls, a slash escaped only on demand |
| `Decimal.IntegerRoundTrip` | src/lib/main/parson.c:1077-1090 | for trees of integers the round trip needs no assumption about number text |
| `JsonStrings.QuotedIsBounded` | src/lib/main/parson.c:765-900 | the string ends at the matching quote; what unescaping returns does not depend on the bytes at the quote or behind it, consumes exactly what is in front of it and has no more bytes than that |
| `JsonStrings.SkipFollows` | src/lib/main/parson.c:765-783 | skipping quotes and unescaping agree on where every escape ends |
| `JsonLiterals.LiteralsAreRead` | src/lib/main/parson.c:765-900 | a quoted string is accepted, with its value and end, if and only if it is a literal of the grammar: plain bytes, short escapes, escapes of four digits in either case, and pairs of them for code points above 0xFFFF |
| `JsonLiterals.PairOfEscapes` | src/lib/main/parson.c:806-822 | for every code point from 0x10000 to 0x10FFFF, the escapes of its two halves unescape to its UTF-8 |
| `JsonLiterals.SingleEscape` | src/lib/main/parson.c:785-805 | for every other scalar value, its one escape unescapes to its UTF-8 |
| `CodePoints.QuotedMeaning` | src/lib/main/parson.c:785-900 | for raw text that is valid UTF-8, the string is accepted exactly when its escapes have a meaning on code points, and its value is the UTF-8 of that meaning; surrogate pairs become one code point, lone surrogates are refused |
| `CodePoints.UnescapeAgrees` | src/lib/main/parson.c:834-887 | decoding and then unescaping code points is unescaping bytes and then decoding |
| `Utf8.DecodeIsInverse` | src/lib/main/parson.c:313-368 | the sequence check accepts exactly the shortest encodings of the scalar values |
| `Utf8.IsValidUtf8` | src/lib/main/parson.c:370-380 | the loop computes the walk by sequences |
| `Utf8.WalkAccepts` | src/lib/main/parson.c:370-380 | the first n bytes are accepted exactly when some prefix of at least n bytes is valid |
| `Utf8.WalkOnWhole` | src/lib/main/parson.c:370-380 | on a whole C string the check is validity |
| `Utf8.CutSequenceAccepted` | src/lib/main/parson.c:370-380 | a length that cuts a sequence in two is accepted although the bytes are not valid |
| `JsonParser.ParseString` | src/lib/main/parson.c:1362-1370 | the cursor-based parser returns what the parsing function computes, for every text |
| `JsonParser.Parser.ParseValueAt` | src/lib/main/parson.c:902-925 | value or refusal, and where the cursor ends, for every text, position and depth |
| `JsonParser.Parser.ProcessString` | src/lib/main/parson.c:834-887 | the output buffer of input length plus one is never overrun, and holds the unescaped bytes |
| `JsonParser.Parser.SkipQuotedText` | src/lib/main/parson.c:765-783 | moves behind the matching quote or reports that there is none |
| `JsonParser.Parser.ParseObjectValue` | src/lib/main/parson.c:927-998 | members go into the hash table; a repeated name or a NUL in a name is refused; a trailing comma is accepted |
| `JsonParser.Parser.ParseArrayValue` | src/lib/main/parson.c:1000-1047 | items in order; a trailing comma is accepted |
| `JsonSerializer.SerializeValue` | src/lib/main/parson.c:1124-1267 | with a buffer or without, the count is the length of the printed text; a buffer holds exactly that text and its terminator and is untouched elsewhere |
| `JsonSerializer.SerializeString` | src/lib/main/parson.c:1269-1334 | the same for strings |
| `JsonSerializer.SerializationSize` | src/lib/main/parson.c:1778-1782 | the counting pass returns the length of the text plus one, at every style |
| `JsonSerializer.SerializeToBuffer` | src/lib/main/parson.c:1784-1795 | a buffer that is too small is refused and untouched; otherwise text and terminator are written and nothing behind them |
| `JsonSerializer.SerializeToString` | src/lib/main/parson.c:1819-1836 | a buffer of the counted size is filled exactly, terminator included |
| `DottedPaths.DotSetThenGet` | src/lib/main/parson.c:2151-2200 | after a successful dotted set, the path reads the value, and every path that parts from it reads as before |
| `DottedPaths.DotSetEffect` | src/lib/main/parson.c:2151-2200 | the same by lists of names, for prefixes and extensions of the path as well |
| `DottedPaths.DotSetFails` | src/lib/main/parson.c:2151-2200 | a dotted set fails exactly when the value belongs to a tree already or a value that is no object stands in the way |
| `DottedPaths.DotSetStaysTidy` | src/lib/main/parson.c:2151-2200 | names stay distinct on every level |
| `JsonEquality.EqualsReflexive` | src/lib/main/parson.c:2349-2412 | every value equals itself |
| `JsonEquality.EqualObjects` | src/lib/main/parson.c:2377-2391 | objects are equal exactly when they have the same names with equal values, although only the names of the first are walked |
| `JsonEquality.EqualsIsAlike` | src/lib/main/parson.c:2349-2412 | two values are equal exactly if they are the same up to the order of members, with numbers less than a millionth apart |
| `JsonEquality.EqualsSymmetric` | src/lib/main/parson.c:2349-2412 | equality is symmetric |
| `JsonEquality.EqualsTransitiveExactly` | src/lib/main/parson.c:2349-2412 | equality is transitive on the values with numbers from a set, on every level and whatever the member order, if and only if being less than an epsilon apart is transitive on that set |
| `JsonEquality.IntegersTransitive` | src/lib/main/parson.c:2349-2412 | so it is transitive on trees of integers |
| `JsonEquality.EqualsNotTransitive` | src/lib/main/parson.c:2403-2404 | three numbers, each equal to the next, of which the first and the last are not equal |
| `JsonEquality.CopyEqualsSource` | src/lib/main/parson.c:1688-1776 | the deep copy exists, is the source with its member order, and compares equal to it |
| `SymbolCodes.BinarySearch` | src/push/board.c:186-196 | finds the position of a code in a sorted table, or reports that it is not there |
| `SymbolCodes.SortSorts` | src/push/board.c:88-89 | sorting entries of distinct codes gives a strictly sorted permutation of them |
| `SymbolBoard.PlaceOk` | src/push/board.c:24-96 | after a symbol is placed: the table is strictly sorted, rooms are distinct and below the number of symbols, the symbol is valid at the returned room, every other code keeps its room unless that room had no listener or its own mark fell for the same reason, and no count changes but the one of a room that is new for the symbol |
| `SymbolBoard.RoomsDiffer` | src/push/board.c:69-96 | no two symbols share a room, and every room is below the number of symbols |
| `SymbolBoard.EntryOfRoom` | src/push/board.c:69-96 | every room below the number of symbols belongs to one, so the rooms are a permutation |
| `SymbolBoard.PlaceFails` | src/push/board.c:69-83 | there is no room exactly when the code is new, the table is full, and cleaning is off or every room has listeners |
| `SymbolBoard.CleanedKeeps` | src/push/board.c:156-180 | cleaning keeps order and rooms, and unmarks exactly the symbols whose room nobody listens to |
| `SymbolBoard.DeleteOk` | src/push/board.c:118-136 | deleting takes the mark of that symbol and changes nothing else that is looked up or counted |
| `SymbolBoard.LoadOk` | src/push/board.c:227-300 | a board loaded from the symbol file or the preload file is in order if and only if the file holds no code twice; the codes found on it are those of the file |
| `SymbolBoard.ShortRooms` | src/push/board.c:84-96 | room numbers survive their signed 16-bit field exactly when there are at most 32768 |
| `SymbolBoard.CountField` | src/push/board.c:55-62 | a listener count survives its 16-bit field exactly up to 65535 |
| `Broker.Broker.SearchSymbol` | src/push/board.c:186-196 | the room of a valid symbol, or -1 |
| `Broker.Broker.CleaningBoard` | src/push/board.c:156-180 | the loop over the table yields the first idle entry and unmarks all of them, clearing hook marks at the entry index as the source does |
| `Broker.Broker.StoreSymbol` | src/push/board.c:84-96 | the entry is written, the table sorted again, the symbol found and marked valid, its room counted from zero |
| `Broker.Broker.PlaceSymbol` | src/push/board.c:24-96 | the arrays go through exactly the step on values, and the same room is returned |
| `Broker.Broker.DeleteSymbol` | src/push/board.c:118-136 | the same for deletion |
| `Broker.Broker.LoadSymbols` | src/push/board.c:227-300 | the same for loading; lines beyond the number of rooms are not read |
| `Accounting.PlacedKeepsCounts` | src/push/board.c:24-112 | placing a symbol changes no listener count, and deleted symbols and unused rooms stay uncounted |
| `Accounting.PlacedKeepsSubs` | src/push/board.c:156-180 | placing a symbol, recycling included, changes nothing that any counted subscription says about any code |
| `Accounting.InsertKeeps` | src/push/board.c:51-62 | inserting for a client adds the bits to the live and the working mask of that code only, keeps the count of every room and disturbs nobody else |
| `Masks.BitsLaws` | src/push/client.c:303 | on the 32 events a mask stands for, joining masks is union and clearing bits is difference |
| `Masks.MeetsIsCommon` | src/push/send.c:47 | the word test of the sender finds out exactly whether two masks have an event in common |
| `Accounting.StepKeeps` | src/push/client.c:282-318 | between any two commands of a batch each room counts exactly its listeners (and what zero masks leaked), and each command does to the set of events of every code what its reference meaning says |
| `Batches.BatchMeaning` | src/push/client.c:271-330 | a batch leaves, for every code, the old set of events folded with the commands in order: insert is union, clear is difference, set replaces, delete and reset empty; no other client is disturbed |
| `Batches.BatchCounts` | src/push/client.c:320-328 | the counts stay exact if and only if no command sets a zero mask for a code the client has nothing at; then each room changes by listens-now less listened-before |
| `Batches.RunLeaks` | src/push/client.c:293-298 | a batch leaks exactly when one of its commands sets a zero mask for a code that neither the old mask nor the batch so far gave any bit |
| `BusRuns.ZeroMaskExample` | src/push/client.c:293-298 | one zero mask set on the smallest bus: the room counts a listener it does not have |
| `BusRuns.EventCounts` | src/push/client.c:114-330 | accept, close, command batch, symbol added, symbol dropped: each keeps the counts exact if and only if it is harmless |
| `BusRuns.AcceptMeaning` | src/push/client.c:114-168 | an accepted local client holds its own descriptor, is local, asks for nothing and lies below the limit; a failed write leaves the slot free; a refused remote peer leaves it marked; a descriptor out of range changes nothing, and no other slot is ever touched |
| `BusRuns.RunCounts` | src/push/client.c:114-330 | in every state of every run of harmless events, each room counts exactly the linked clients with a non-zero mask there |
| `BusRuns.BootCounts` | src/push/board.c:227-300 | whichever of the symbol file and the preload file are read, the broker starts with exact counts if and only if the file read last names no code twice |
| `BusRuns.FreshCounts` | src/push/init.c:94-111 | from every such start, with loaded symbols or without, the counts are exact after every run of harmless events, although the masks start with whatever the memory held |
| `BusRuns.EventKeepsOthers` | src/push/client.c:174-330 | no event of another client, and no symbol added or harmlessly dropped, changes what a client is subscribed to |
| `BusRuns.RunKeepsOthers` | src/push/client.c:174-330 | the same over whole runs |
| `BusRuns.CloseCounts` | src/push/client.c:174-211 | closing a client keeps the counts exact, frees its slot and touches no other |
| `BusRuns.AcceptCounts` | src/push/client.c:134-163 | accepting keeps the counts exact if and only if nothing is subscribed under the descriptor it is given |
| `BusRuns.DropCounts` | src/push/recv.c:42-52 | dropping a symbol keeps the counts in order if and only if the board is dynamic or nobody listens to it |
| `BusRuns.DropThenAdd` | src/push/board.c:40-46 | on a static board, dropping and adding a symbol again keeps its count right if and only if nobody listened |
| `BusRuns.DropExample` | src/push/board.c:40-46 | the smallest bus on which it does not |
| `BusRuns.PushedIffWanted` | src/lib/main/rtd.c:380-393 | a publisher sends a message on if and only if some client is subscribed to its code, and to the room where all masks hold that code |
| `Broker.Broker.constructor` | src/push/init.c:76-111 | the empty broker |
| `Broker.Broker.PushRoom` | src/lib/main/rtd.c:380-391 | the look-up in the arrays is the look-up on values |
| `Broker.Broker.InsertFor` | src/push/board.c:24-112 | the whole insertion for a client, board, mask and working mask |
| `Broker.Broker.RunCommand` | src/push/client.c:284-317 | one command, with the fall-through from reset to insert |
| `Broker.Broker.CheckCommand` | src/push/client.c:244-330 | the loops over commands and rooms go through exactly the batch on values, with the checks of the caller |
| `Broker.Broker.AcceptClient` | src/push/client.c:114-168 | the accept step on the arrays, with its three ways to refuse |
| `Broker.Broker.CloseClient` | src/push/client.c:174-211 | the close step on the arrays, with the loop that leaves every room and the recomputed limit |
| `Alerts.AcceptLinked` | src/push/client.c:140-163 | every linked slot stays below no_of_linked across an accept if and only if the accept does not leave the slot of a refused remote peer marked above it |
| `Alerts.RefusedPeerExample` | src/push/client.c:140-163 | a refused remote peer on an empty bus: counts and limit are right before it, the limit is not after it |
| `Alerts.CloseLinked` | src/push/client.c:200-205 | after a close the limit covers the linked slots and is the least that does |
| `Alerts.EventLinked` | src/push/client.c:114-211 | no other event disturbs it |
| `Alerts.RunLinked` | src/push/client.c:114-211 | so the limit covers the linked slots in every state of every run that refuses no remote peer above it |
| `Alerts.AcceptedIsServed` | src/push/client.c:114-330 | after a harmless accept, a first command for a code with a room subscribes the client to that code for exactly the events it asked for |
| `Alerts.Advance` | src/push/send.c:45 | stepping by the thread count, a thread takes up exactly the slot it stands at, so each slot belongs to one thread |
| `Alerts.FanOut` | src/push/send.c:45-68 | however the turns of the sender threads interleave and whatever becomes of the writes: no slot is written to twice or wrongly, in the end every linked local slot with one of the message's events at the room was written to, a slot has exactly one alarm if its write took it and none if the socket was full or failed, and it is closed exactly if the write failed |
| `Alerts.Published` | src/push/send.c:25-68 | from publisher to client: the message is sent on exactly when somebody is subscribed, and then each local subscriber with one of its events in the mask has one alarm if its socket takes it, and nobody else has any |
| `Alerts.PublishedAfterRun` | src/push/send.c:25-68 | the same in every state that a run reaches from a start of the broker, with loaded symbols or without |
| `Broker.Broker.SendAlarms` | src/push/send.c:45-68 | the loop of one thread, with what its writes come to, is that thread's turns |
| `Ring.RingHolds` | src/push/recv.c:82-91 | ring index and sequence number are the number of messages modulo ring size and 2^32, and a slot holds the last message put there |
| `Ring.PushAlarm` | src/push/recv.c:84-88 | the alarm of each message names its slot and its number |
| `Ring.AlarmFinds` | src/lib/main/rtd.c:227-229 | an alarm read later finds the newest message of its slot, and is accepted exactly if the two numbers agree modulo 2^32 |
| `Ring.AlarmInTime` | src/lib/main/rtd.c:227-229 | before the numbers wrap, an alarm is rejected exactly when at least a whole ring of messages followed, and an accepted one finds its own message |
| `Ring.StaleAlarmAccepted` | src/lib/main/rtd.c:227-229 | after exactly 2^32 messages a ring of 512 lets a stale alarm find another message |
| `Ring.TooManySlots` | src/push/recv.c:88-91 | with more than 65536 slots an alarm is lost before the ring comes round |
| `Ring.Pusher.Push2Sender` | src/push/recv.c:71-101 | the ring in memory goes through the step on values |
| `Receiver.ChunksDoNotMatter` | src/lib/main/rtd.c:202-240 | however a stream of alarm records is cut into reads, the same messages are queued in the same order, across the flush at 40 too; a bad record stops there and loses fewer than 40 messages, of the last read only |
| `Receiver.CutMatters` | src/lib/main/rtd.c:196-240 | for reads of at most so many bytes (1024 in the source), the messages queued do not depend on the cut if and only if there is no bad record, or no message is named in front of it, or no read can hold both the end of the last record that names one and the bad record |
| `Receiver.AnyCutMatters` | src/lib/main/rtd.c:202-240 | with reads of any length: if and only if there is no bad record or no message is named in front of it |
| `Receiver.WholeReadLoses` | src/lib/main/rtd.c:221-240 | one read with a bad record queues the whole batches of 40 in front of it and loses the rest |
| `Receiver.BadRecordLosesItsRead` | src/lib/main/rtd.c:221-237 | the smallest case: a good record of the same read is lost, one of an earlier read is not |
| `Receiver.Recver.TakeByte` | src/lib/main/rtd.c:213-235 | one byte of the inner loop on the buffers is the step on values |
| `Receiver.Recver.Receive` | src/lib/main/rtd.c:202-240 | one read is the step on values |
| `Delivery.RecordDecodes` | src/push/send.c:44-55 | the record written to a client decodes to its alarm |
| `Delivery.Delivered` | src/lib/main/rtd.c:202-240 | a client alarmed for any messages, reading in any pieces while publishers go on, queues exactly those that fewer than a ring of messages had followed when the last byte of their record was read, as they were pushed and in alarm order |
| `PacketPool.ActKeeps` | src/lib/main/rtp.c:46-167 | get, put, take and give each keep every packet in exactly one place |
| `PacketPool.Conserved` | src/lib/main/rtp.c:13-40 | free, queued and in hand add up to the whole pool |
| `PacketPool.FirstInFirstOut` | src/lib/main/rtp.c:101-167 | over every interleaving the drained messages followed by the queued ones are the accepted ones in order |
| `PacketPool.Packets.constructor` | src/lib/main/rtp.c:13-40 | all nodes linked in one free list, and counted |
| `PacketPool.Packets.Get` | src/lib/main/rtp.c:46-77 | the first free node, or none; lists, count and node in hand follow |
| `PacketPool.Packets.Free` | src/lib/main/rtp.c:83-95 | the node becomes the first free one |
| `PacketPool.Packets.Enqueue` | src/lib/main/rtp.c:112-125 | the walk ends at the last node, and the filled packet follows it |
| `PacketPool.Packets.Dequeue` | src/lib/main/rtp.c:157-162 | the oldest packet comes off with its message |
| `PacketPool.Packets.Push` | src/lib/main/rtp.c:101-130 | as many messages as there are free packets are queued in order, the rest is lost |
| `PacketPool.Packets.Full` | src/lib/main/rtp.c:157-166 | the oldest messages, at most the number asked for, leave in order, and their packets are free again |
| `PoolThreads.EveryInterleaving` | src/lib/main/rtp.c:46-167 | any number of threads, interleaved at every lock operation and wait: each lock has one holder, every packet is free, queued or in one thread's hand, and order is kept |
| `PoolThreads.QuiescentIsGood` | src/lib/main/rtp.c:13-40 | and so it is from the start, with any number of threads that call nothing yet |
| `PoolThreads.LockOrder` | src/lib/main/rtp.c:101-167 | nobody who wants the queue lock holds the alloc lock |
| `PoolThreads.NoDeadlock` | src/lib/main/rtp.c:101-167 | whenever a lock keeps a thread waiting, a thread inside a lock can go on |
| `PoolThreads.CallShare` | src/lib/main/rtp.c:101-167 | from any point of a call, whatever the other threads do: a pusher queues its messages in order and none twice, a reader takes no more than it was asked for, and nothing is lost while the call goes on |
| `PoolThreads.GivesUp` | src/lib/main/rtp.c:46-77 | a push ends with messages left only when there is no free packet after a wait |
| `PriceText.FractionOfTicks` | src/quot/update.c:711-749 | for prices in ticks the real arithmetic and the cuts to digits are exact |
| `PriceText.SpelledReads` | src/quot/update.c:715-777 | the printed fraction digits determine the ticks, the truncated last digit of halves, quarters and eighths included |
| `PriceText.PriceReadsBack` | src/quot/update.c:698-788 | every price that is a whole number of ticks can be read back from its text, of any sign, in all ten fractional formats, blank zeros included |
| `PriceText.PricesTellApart` | src/quot/update.c:698-788 | two prices in ticks of one format never print the same |
| `PriceText.FractionalIndicators` | src/mon/monmap.c:256-339 | the indicators that select a fractional format are exactly A to F and I to L |
| `PriceText.IndicatorTicks` | src/mon/monmap.c:256-339 | which ticks each indicator stands for: halves to 256ths for A to H, 32nds and 64ths in halves, quarters and eighths for I to L, decimals for a digit |
| `PriceText.NumberFields` | src/mon/monmap.c:326-337 | an indicator that is a number is read with its sign, and a field without a digit as nothing |

## Left out

- Memory: allocation never fails, nothing is freed, and sizes stay below the width of their C types; parent pointers and wrapping values are not modelled, except that setting a value says whether it has a parent already.
- JSON arrays grow as sequences; the doubling of their buffers is not modelled, nor are the functions that only wrap another one.
- JSON schema validation, comment stripping and reading or writing files.
- Number text: `sprintf` and `strtod` are parameters; only the integer pair of `Decimal` is spelled out, and numbers are reals, without NaN or infinity.
- The JSON parser reports no error kinds, as in the source; a text is a byte sequence without its terminator.
- DottedPaths: dotted set builds new member lists instead of relinking nodes, so aliasing between the tree and the value that is set is not captured; dotted removal is not modelled.
- JsonEquality: equality and copying are functions on trees, as in the source; sharing of nodes does not arise.
- ObjectTable.HashString: the hash is computed in 64 bits, the width of `unsigned long` on the platforms in use.
- SymbolCodes: `qsort` and `bsearch` belong to the C library; they are an insertion sort on values and a binary search loop.
- SymbolBoard: codes are at most 19 bytes and there are at most 32768 rooms, beyond which room numbers turn negative (`SymbolBoard.ShortRooms`).
- SymbolBoard.LoadOk: is about the accepted lines of the file; splitting the file into lines is not modelled.
- Resetting the whole board ends the process and is not modelled; neither is writing the symbol file.
- BusRuns.RunCounts: steps are atomic; the races inside one step, such as an unlocked decrement, are not modelled. There is one pusher thread.
- Batches.BatchCounts: asks for at most 63195 client slots, so that the 16-bit counts cannot wrap within a batch of 2340 commands, the most that a message holds.
- Alerts.FanOut: alarm queues between the threads do not lose entries and the slot of the message is not overwritten meanwhile; clients neither come nor subscribe during the fan-out. Foreign clients (`RQ_FOREIGN`), a flag nothing sets, are not alerted.
- Process ids and addresses of clients, poll times, sockets, message queues, shared memory and logging.
- Receiver: an alarm whose index lies outside the ring is taken as not matching, where the source would read outside the ring; the broker never sends one.
- Delivery.Delivered: the ring does not change within one read, and an alarm is read before 2^32 messages have followed.
- PacketPool.Packets.Get: is the routine once it stops waiting; PoolThreads models the wait, and says nothing about whether a waiting thread is ever woken, since the source may lose a wake-up.
- PacketPool.Packets.Push: runs alone, so no packet is freed while it waits for one; with other threads it is the steps of PoolThreads.
- PacketPool.Packets.Full: does not wait for a first message; the wait is a step of PoolThreads.
- PriceText: the whole part is unbounded, where the source casts it to `int`; formats in 128ths and 256ths and powers of ten print with the printf format of the screen, which is a parameter. What an uninitialised variable prints for a quarter price off its ticks is a parameter too.
- Folders, the monitor, configuration, schedules, packet field mapping and the screens: flat code, or arguments easier than the ones above.
