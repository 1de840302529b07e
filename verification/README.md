# Worldforge server: verified models of its core algorithms

Dafny models of the data-handling core of the repository, each proved against a specification that is
written independently of the code:

- **FastLZ codec** (`FastLZ*.dfy`). The compressor and decompressor of the tile cache, both levels, over
  arrays, with the hash table, back-patched run headers, biased lengths and overlapping copies. A block is
  specified by its tokens: `Parse` reads bytes into tokens, `Expand` runs tokens, `Encode` writes them. The
  hash is an arbitrary function, since it only suggests candidates. Main results: `RoundTrip`, the bound of
  33/32 of the input on every write, the decompressor on arbitrary bytes, and how small blocks are: `FinalSize`
  bounds them by the repetitions of the input, with no word of the search (`FastLZSearch.dfy`).
- **Awareness tiles** (`TileGrid.dfy`, `AwareCounts.dfy`, `Awareness.dfy`). The navigation mesh as a cache of
  "which entity areas overlap this tile": dirty marking, reference-counted awareness areas, the ordered
  dirty list that mirrors a set, and the most-recently-used list. `Valid` holds after every operation and
  contains the cache agreement for all clean tiles. Areas are bounding boxes with a set of tiles they
  overlap; the grid arithmetic that finds affected tiles is over reals.
- **Queues and streams**. The SQLite worker thread (`SQLiteWorker.dfy`), the double-buffered socket writer
  (`SocketStream.dfy`) and the asynchronous Postgres queries (`PostgresQueue.dfy`) are step systems with
  histories; the theorems are about all runs. The timed dispatcher (`OperationsDispatcher.dfy`) is a class
  with ghost histories; `Session` is about any sequence of calls to it.
- **Rule traversal** (`RuleTraversal.dfy`). The request/reply walk on an explicit stack against the
  recursive preorder.
- **XML writer** (`XmlText.dfy`, `XmlWriter.dfy`). What the writer produces, a reference reader that skips
  indentation, and unique decodability.
- **String composition** (`Compose.dfy`). The list-and-multimap form against one substitution pass.
- **Type tree and class properties** (`Properties.dfy`, `TypeNode.dfy`, `TypeTree.dfy`, `Inheritance.dfy`).
  The growing tree of types, ancestor queries, and the exact difference a property update makes.

`Sequences.dfy`, `Arithmetic.dfy` and `Options.dfy` hold small shared definitions.

## Where the code does not meet its promise

- `FastLZCompressor::maxCompressedSize` is too small for inputs of 1 to 19 and of 32 to 39 bytes: an input
  without repetitions makes the compressor write as much as its bound, so `MaxCompressedSizeSuffices` is exact,
  and `OverrunTileCacheBuffer` compresses such an input for every one of these lengths.
- `removeAwarenessArea` leaves its entry behind, so removing or setting an id again after its removal counts
  its old tiles down or fails to count them up: `SetKeepsCounts` and `RemoveKeepsCounts` give the exact
  condition. A tile of such an area that still has to be built is queued as aware without becoming aware;
  `SetAwarenessArea` keeps the dirty sets in order exactly when there is none. `RemovedTwice` and
  `RemovedAreaSetAgain` are the runs.
- The SQLite destructor clears the flag outside the lock. `StopEndsWorkerIff`: the stop ends the worker
  exactly when it is not taken between the worker's check of the flag and its wait. `BlockedForEverIff`: a
  blocked caller is never woken exactly when the flag was cleared first. `StopCanBeMissed` and
  `StopOvertakesCaller` are runs that get there.
- The blocking loop of the Postgres queue does not end when the head is already marked done or too few
  attempts to send succeed: `BlockingEnds` gives the exact condition, `ResultBeforeBlocking` the run.
- The XML writer escapes nothing. `ReadBackIffPlain`: the values that can be read back are exactly those
  without a closing string tag in a string or the end of a tag in a name; `UnescapedTextIsAmbiguous` and
  `UnescapedNameIsAmbiguous` name pairs of maps with the same text for each.
- `setDescription` replaces the descriptions wholesale, and `addChild` calls it on the parent: from then on
  the public description shows what only the private one showed. `SetDescriptionConsistentIff` says exactly
  when the descriptions still match the visibility of the properties, `SubtypePublishesProperty` is a run in
  which they do not; `InjectKeepsConsistentIff` and `AddKeepsConsistentIff` say the same of `injectProperty`
  and `addProperties`.
- A typed property ignores values of another type, so an update can report the same change every time:
  `UpdatedEntry` says for which values, `SameChangeReportedTwice` is such a run.

## Model

| member | source | states |
|---|---|---|
| FastLZFormat.ParseEncode | src/navigation/fastlz.c:199-418 | parsing an encoded block, marked or not, gives its tokens back and consumes exactly its bytes |
| FastLZFormat.ExpandMonotonic | src/navigation/fastlz.c:429-548 | a block accepted within some room yields the same bytes within more room |
| FastLZCompressor.FindMatch | src/navigation/fastlz.c:214-256 | a match is found exactly for a run at level 2, or when the position in the hash slot repeats three bytes, five if it is far, within the level's distance; the table changes in that slot only |
| FastLZCompressor.ExtendMatch | src/navigation/fastlz.c:261-289 | the match is extended over bytes that repeat at the distance, to one byte before the result, and no further only where they stop repeating or the input ends |
| FastLZCompressor.PutMatch | src/navigation/fastlz.c:306-369 | the bytes written are the encoding of the match, for near and far, short and long ones; nothing else changes |
| FastLZCompressor.CloseRun | src/navigation/fastlz.c:291-300 | patching the run header, or stepping back over an empty one, leaves a complete encoding of what was consumed |
| FastLZCompressor.PendingSize | src/navigation/fastlz.c:199-410 | at every moment at most consumed + consumed/32 + 1 bytes have been written |
| FastLZCompressor.EnterBoundary | src/navigation/fastlz.c:372-375 | both positions at the end of a match are entered into the table and nothing else changes |
| FastLZCompressor.CompressStep | src/navigation/fastlz.c:205-391 | one trip round the main loop takes the match found as far as it goes, or else one literal, with the tokens, the bytes written and the table entries this makes; the output stays an encoding of what was consumed with one open run |
| FastLZSearch.NewIsLiteral | src/navigation/fastlz.c:239-256 | while no three bytes have occurred before, every trip writes one literal and enters its position |
| FastLZSearch.RepetitionTaken | src/navigation/fastlz.c:221-289 | the first repetition is found through the table and, if it goes on to the end of the input, taken to within three bytes of it |
| FastLZSearch.NoRunWeighs | src/navigation/fastlz.c:214-256 | a trip that takes no run of equal bytes passes a change of bytes, since such a run is found through the position entered last |
| FastLZSearch.LiteralIsNew | src/navigation/fastlz.c:230-256 | with a hash that agrees exactly where three bytes do and every distance in range, a literal is written only for three bytes the table does not lead to yet |
| FastLZSearch.FinalSize | src/navigation/fastlz.c:166-418 | the size of the block: only literals without repetitions; the literals before the first repetition and one match when that goes on to the end; for a hash of the three bytes, eighteen bytes for every change of bytes and three for every 255; for an exact hash and inputs no distance is too great for, two for every different triple and two for every three bytes |
| FastLZSearch.OneByteCompressed | src/navigation/fastlz.c:214-256 | one byte repeated costs ten or twelve bytes and its one match, at either level, with any hash |
| FastLZSearch.PeriodCompressed | src/navigation/fastlz.c:221-256 | an input of a period below the distance limit, in whose first period no triple occurs twice, costs that period as literals and one match, with an exact hash |
| FastLZSearch.AnyPeriodCompressed | src/navigation/fastlz.c:221-256 | an input of any period, whatever repeats within it, that no distance is too great for, costs two bytes for every byte of the period and two for every three bytes of the input, with an exact hash |
| FastLZCompressor.CompressRuns | src/navigation/fastlz.c:199-404 | the main loop and the left-over literals keep the bound on every write and what is claimed of the size so far |
| FastLZCompressor.CompressLevel | src/navigation/fastlz.c:166-418 | for every input the output is a block of the level that stands for it (of level 1 below four bytes); repetitions of the input, runs of equal bytes and triples seen before make it as small as `FastLZSearch.FinalSize` says; how much of the buffer is written, and that nothing beyond is |
| FastLZCompressor.CompressAtLevel | src/navigation/fastlz.c:154-162 | the same by level number; an unsupported level writes nothing and returns 0 |
| FastLZCompressor.Compress | src/navigation/fastlz.c:130-138 | the same with the level chosen by the input's length; one byte repeated takes three bytes for every 262 and ten more at level 1, one for every 255 and twelve more at level 2, whatever the hash |
| FastLZCompressor.DocumentedBufferSuffices | src/navigation/fastlz.h:47-48 | a buffer 5% larger than the input and of at least 66 bytes has room for every write |
| FastLZCompressor.MaxCompressedSizeSuffices | src/navigation/AwarenessUtils.h:55-58 | the tile cache's buffer has room for every write of every input of a length exactly for 0, for 20 to 31 and from 40 bytes on |
| FastLZCompressor.OverrunTileCacheBuffer | src/navigation/AwarenessUtils.h:55-63 | for every other length there is an input that makes the compressor write beyond it, at either level and with any hash; the block itself is too long unless the length is 32 |
| FastLZDecompressor.PeriodicNext | src/navigation/fastlz.c:494-524 | the byte a forward copy writes next is the next byte of the periodic extension of the last `dist` bytes |
| FastLZDecompressor.CopyForward | src/navigation/fastlz.c:494-524 | the overlapping copy appends the periodic extension and changes nothing else |
| FastLZDecompressor.CopyMatch | src/navigation/fastlz.c:478-525 | runs and copies both append the periodic extension of what was written |
| FastLZDecompressor.ReadMatch | src/navigation/fastlz.c:431-463 | length and distance bytes are read as the format defines them, with 32-bit wrap-around and zeros past the input |
| FastLZDecompressor.DecompressLevel | src/navigation/fastlz.c:420-549 | on any bytes it ends, writes nothing at or beyond maxout, and produces what the parsed tokens mean, or 0 when they mean nothing |
| FastLZDecompressor.Decompress | src/navigation/fastlz.c:140-152 | the same with the level read from the block; the result is 0 exactly for blocks without a meaning |
| FastLZDecompressor.MeaningNonEmpty | src/navigation/fastlz.c:429-548 | no accepted block is empty, so the result 0 is never ambiguous |
| FastLZRoundTrip.RoundTripAtLevel | src/navigation/fastlz.c:140-162 | decompressing what either level wrote gives the input back and reads exactly the bytes written, for every non-empty input, any hash and any maxout not below its length |
| FastLZRoundTrip.RoundTrip | src/navigation/fastlz.c:130-152 | the same through the entry point that picks the level |
| TileGrid.AffectedTilesCover | src/navigation/Awareness.cpp:808-844 | every tile of the grid whose interior the box can meet is among the affected tiles |
| TileGrid.AffectedTilesExact | src/navigation/Awareness.cpp:808-844 | a tile is affected exactly when it, without its upper edges, meets the box clamped to the grid |
| TileGrid.AffectedTilesInGrid | src/navigation/Awareness.cpp:808-844 | affected tiles are tiles of the grid, wherever the box lies |
| AwareCounts.SetKeepsCounts | src/navigation/Awareness.cpp:944-1065 | after setting an area every tile is counted once per live area that contains it, if and only if the id was live or had no tiles on record |
| AwareCounts.RemoveKeepsCounts | src/navigation/Awareness.cpp:1077-1101 | the same for a removal |
| AwareCounts.RemovedTwice | src/navigation/Awareness.cpp:1093-1102 | a second removal takes the count another live area needs |
| AwareCounts.LiveTilesAware | src/navigation/Awareness.cpp:1002-1065 | a live area's tiles are all aware |
| AwareCounts.SingleAreaAware | src/navigation/Awareness.cpp:944-1065 | with one live area the aware tiles are exactly that area's tiles |
| Awareness.Awareness.constructor | src/navigation/Awareness.cpp:166-338 | the empty state satisfies every invariant |
| Awareness.Awareness.MarkTilesAsDirty | src/navigation/Awareness.cpp:707-734 | exactly the affected tiles join the dirty set for their awareness; the event fires exactly when the aware one becomes non-empty; what is still clean does not meet the area |
| Awareness.Awareness.FindEntityAreas | src/navigation/Awareness.cpp:1205-1213 | exactly the entity areas that contain, intersect or touch the tile |
| Awareness.Awareness.RebuildDirtyTile | src/navigation/Awareness.cpp:736-756 | rebuilds the head of the dirty list and only that tile, from exactly the entity areas that meet it; every invariant is kept |
| Awareness.Awareness.PruneTiles | src/navigation/Awareness.cpp:758-788 | drops the least recently used tile when there are too many; with the aware tiles a prefix it never drops an aware one |
| Awareness.Awareness.PruneWhileNeeded | src/navigation/Awareness.cpp:758-788 | repeated pruning ends with a list no longer than desired or consisting of the aware tiles, all built ones of which stay built |
| Awareness.Awareness.ProcessEntityUpdate | src/navigation/Awareness.cpp:457-604 | the cache agreement survives every update of an entity; a standing entity that was seen anew is recorded within a tenth of where it was seen, one that moved by no more than 0.07 keeps its record; when it is ignored or in motion and has no record; exactly the tiles of the areas that leave or enter the record become dirty, none when it stays; the event fires exactly when the dirty-aware tiles become non-empty |
| Awareness.Awareness.AddEntity | src/navigation/Awareness.cpp:385-423 | the invariants survive; one observer more, the owner, and an update exactly for the first observer or the actor itself, after which the record follows what was seen |
| Awareness.Awareness.RemoveEntity | src/navigation/Awareness.cpp:425-455 | one observer less; the entity and its area go exactly with its last observer, its tiles become dirty, the invariants survive |
| Awareness.Awareness.UpdateEntity | src/navigation/Awareness.cpp:368-383 | entering, changing in and leaving the domain keep the invariants, let the record follow what was seen and touch no other entity |
| Awareness.Awareness.ReturnAwareTiles | src/navigation/Awareness.cpp:1077-1091 | each tile loses one; tiles at zero leave the aware and the ordered dirty ones and stay dirty as unaware |
| Awareness.Awareness.SetAwarenessArea | src/navigation/Awareness.cpp:941-1075 | the old area is replaced by the new one in the counts, dirty sets, dirty list and recency list; the invariants are kept exactly when the area meets no tile on record for the id that is not aware and has to be built; with one area the aware tiles are a prefix of the recency list |
| Awareness.Awareness.RemoveAwarenessArea | src/navigation/Awareness.cpp:1093-1102 | the area's tiles are given back; the union of the dirty sets loses nothing; every invariant is kept |
| Awareness.RemovedAreaSetAgain | src/navigation/Awareness.cpp:941-1102 | set, remove, set again: the tile is on record and queued but not aware |
| SQLiteWorker.ReachableStates | src/common/DatabaseSQLite.cpp:71-104 | in every reachable state executed commands and queue are the commands pushed in order, the running one at the head, and a worker asleep on work has a scheduler about to notify |
| SQLiteWorker.BlockedCallSawItsCommands | src/common/DatabaseSQLite.cpp:98-104 | when a blocking call returns every command scheduled before it has run, over all interleavings |
| SQLiteWorker.NobodyStuck | src/common/DatabaseSQLite.cpp:71-104 | when neither worker nor notifiers can move and the worker has not exited, all is executed and every waiter is notified |
| SQLiteWorker.InternalStepsEnd | src/common/DatabaseSQLite.cpp:71-96 | the worker's and notifiers' own steps cannot go on for ever |
| SQLiteWorker.ComesToRest | src/common/DatabaseSQLite.cpp:71-96 | from every reachable state there is a run of those steps to rest, without a stop |
| SQLiteWorker.BlockedForEverIff | src/common/DatabaseSQLite.cpp:87-104 | a blocked caller stays blocked in every continuation if and only if the flag has been cleared; while it is not, rest means it is released |
| SQLiteWorker.StopOvertakesCaller | src/common/DatabaseSQLite.cpp:58-64 | a run that gets there although every command was executed |
| SQLiteWorker.StopEndsWorkerIff | src/common/DatabaseSQLite.cpp:58-96 | a stop ends the worker, with everything scheduled before it run, in every continuation that comes to rest if and only if it is not taken while the worker is between its check and its wait |
| SQLiteWorker.StopRunsEverything | src/common/DatabaseSQLite.cpp:80-94 | in every run in which the worker exits, all commands scheduled while it was there have been run, those before the stop and later ones |
| SQLiteWorker.StopCanBeMissed | src/common/DatabaseSQLite.cpp:58-64 | a run in which the worker misses the stop and sleeps for ever |
| SocketStream.ReachableStates | src/common/CommAsioClient_impl.h:146-194 | wire, send buffer and write buffer are always the bytes of all operations encoded, in order, with at most one write in flight, and a deferred send has something to send |
| SocketStream.FlushedBytesArrive | src/common/CommAsioClient_impl.h:146-194 | bytes encoded before a flush are on the wire after at most two completions, and until then a write is in flight |
| SocketStream.AsioClient.WriteBuffered | src/common/CommAsioClient_impl.h:146-194 | the buffers are swapped or the send deferred as the step system says |
| SocketStream.AsioClient.OnWritten | src/common/CommAsioClient_impl.h:166-176 | the completion handler takes the completion step |
| SocketStream.AsioClient.Send | src/common/CommAsioClient_impl.h:363-391 | an open client encodes, and flushes when told to; a closed one does nothing |
| SocketStream.AsioClient.FlushBuffered | src/common/CommAsioClient_impl.h:402-407 | a flush is a write step |
| PostgresQueue.ReachableStates | src/common/DatabasePostgres.cpp:639-747 | a query in progress means a non-empty queue, only the head is ever marked done and only while in progress, the commands scheduled are launched once each in order |
| PostgresQueue.QueryRunsItsCourse | src/common/DatabasePostgres.cpp:639-705 | a result of any status and the completion after it finish the query in progress, and the next one can be launched; completion without a result does nothing |
| PostgresQueue.IdleQueueLaunched | src/common/DatabasePostgres.cpp:707-717 | scheduling while no query is in progress launches the head of the queue exactly when sending succeeds |
| PostgresQueue.BlockingEnds | src/common/DatabasePostgres.cpp:739-747 | blocking ends if and only if the queue is empty, or the head is not marked done and as many attempts to send succeed, sooner or later, as there are queries to launch |
| PostgresQueue.ResultBeforeBlocking | src/common/DatabasePostgres.cpp:639-747 | a result that came in before the call makes it go on for ever |
| PostgresQueue.DatabasePostgres.QueryResult | src/common/DatabasePostgres.cpp:639-660 | takes the result step and keeps the invariant |
| PostgresQueue.DatabasePostgres.CompleteQuery | src/common/DatabasePostgres.cpp:662-676 | takes the completion step and keeps the invariant |
| PostgresQueue.DatabasePostgres.LaunchNewQuery | src/common/DatabasePostgres.cpp:678-705 | launches the head unless one is in progress or sending fails; 0 exactly when it was launched |
| PostgresQueue.DatabasePostgres.ScheduleCommand | src/common/DatabasePostgres.cpp:707-717 | appends the command and launches when idle |
| PostgresQueue.DatabasePostgres.ClearPendingQuery | src/common/DatabasePostgres.cpp:719-737 | finishes the query in progress, and the result it gives in each case |
| PostgresQueue.DatabasePostgres.BlockUntilAllQueriesComplete | src/common/DatabasePostgres.cpp:739-747 | under exactly that condition everything scheduled has been launched and finished, in order |
| OperationsDispatcher.LessIsStrictOrder | src/common/OperationsDispatcher.h:40-54 | the two comparison operators are one strict total order on entries with different numbers |
| OperationsDispatcher.DispatchKeepsOrder | src/common/OperationsDispatcher_impl.h:48-58 | dispatching the head keeps the history sorted, and cannot repair it |
| OperationsDispatcher.AddKeepsOrder | src/common/OperationsDispatcher_impl.h:176-197 | adding keeps it exactly when the new entry is not due before the last dispatched one |
| OperationsDispatcher.MakeEntryTimed | src/common/OperationsDispatcher_impl.h:129-147 | an entry's time is its operation's seconds in whole milliseconds, cut off toward zero |
| OperationsDispatcher.InsertAccounts | src/common/OperationsDispatcher_impl.h:176-197 | the queue stays sorted, numbers stay distinct, nothing is lost or duplicated, and the head changes number exactly when it changes |
| OperationsDispatcher.OperationsDispatcher.AddOperationToQueue | src/common/OperationsDispatcher_impl.h:176-197 | the entry is accounted for and filed at the millisecond the operation is due in, the order lasts exactly when the operation is not due before the last one dispatched, and the queue becomes dirty exactly when the head changes |
| OperationsDispatcher.OperationsDispatcher.DispatchNextOp | src/common/OperationsDispatcher_impl.h:48-58 | exactly the head is dispatched, exactly what its processing adds is added, and the order lasts exactly when none of that is due before the head |
| OperationsDispatcher.OperationsDispatcher.ProcessUntil | src/common/OperationsDispatcher_impl.h:60-94 | dispatches only operations whose seconds have come, to the millisecond, the head first if it is due, and leaves none waiting whose seconds have come unless wall time ran out; exactly what the dispatched entries add is added, and the order lasts exactly when none of it is due before the entry that adds it |
| OperationsDispatcher.OperationsDispatcher.TimeUntilNextOp | src/common/OperationsDispatcher_impl.h:114-122 | the milliseconds until the head's seconds have come, before which none in the queue have; not positive exactly when an entry is due; ten minutes for an empty queue |
| OperationsDispatcher.OperationsDispatcher.MarkQueueAsClean | src/common/OperationsDispatcher_impl.h:102-106 | only the flag changes |
| OperationsDispatcher.OperationsDispatcher.ClearQueues | src/common/OperationsDispatcher_impl.h:168-172 | what waited is dropped and the rest stays accounted for; only the order of what was dispatched still matters |
| OperationsDispatcher.OperationsDispatcher.HistorySorted | src/common/OperationsDispatcher_impl.h:48-93 | the whole history is strictly sorted, and by the operations' seconds to a millisecond, while the order lasts as the calls above say, and once all are dispatched only then; none is dispatched twice |
| OperationsDispatcher.OperationsDispatcher.Perform | src/common/OperationsDispatcher_impl.h:60-197 | any adds, processing and clearing at times that do not run backwards, nothing being due before the time it is added at, keep the history in order and lose no operation |
| OperationsDispatcher.Session | src/common/OperationsDispatcher_impl.h:60-197 | over every such run of a new dispatcher all entries are dispatched in the strict order of due times and numbers, by their seconds to a millisecond, and every operation added was dispatched, waits or was cleared |
| RuleTraversal.RuleTraversalTask.Setup | src/common/RuleTraversalTask.cpp:51-54 | one Get with a fresh serial number |
| RuleTraversal.RuleTraversalTask.Handle | src/common/RuleTraversalTask.cpp:56-99 | other replies change nothing; the answer is visited, and the walk stops, descends or moves on with one new Get, or completes |
| RuleTraversal.StringsNameSubtrees | src/common/RuleTraversalTask.cpp:71-75 | the strings of a children attribute, whatever it holds besides, are the ids of the subtrees, all of them in order |
| RuleTraversal.AdvanceMovesOn | src/common/RuleTraversalTask.cpp:84-97 | popping exhausted stack entries leads to the next tree of the preorder, or to the end |
| RuleTraversal.DescendMovesOn | src/common/RuleTraversalTask.cpp:66-83 | pushing the children leads to the first subtree |
| RuleTraversal.Walk | src/common/RuleTraversalTask.cpp:51-111 | for any finite tree with one subtree for every string of a children attribute, any visitor and any interspersed replies the rules visited are the recursive preorder cut just after the first refusal |
| XmlText.ReadValueOfText | src/common/FormattedXMLWriter.cpp:72-138 | the reference reader recovers a value at any nesting and stops at its closing tag |
| XmlText.ReadObject | src/common/FormattedXMLWriter.cpp:44-51 | the same for a whole object |
| XmlText.ValueTextUnique | src/common/FormattedXMLWriter.cpp:72-138 | two values of a type with the same text are equal |
| XmlText.ObjectTextUnique | src/common/FormattedXMLWriter.cpp:44-51 | two objects with the same text are equal |
| XmlText.ReadBackIffPlain | src/common/FormattedXMLWriter.cpp:72-138 | the reader gives a value back if and only if no string contains its closing tag and no name what ends it |
| XmlText.UnescapedTextIsAmbiguous | src/common/FormattedXMLWriter.cpp:109-123 | with the closing tag in a string two different maps have the same text |
| XmlText.UnescapedNameIsAmbiguous | src/common/FormattedXMLWriter.cpp:109-123 | so have two maps one of which has a name with a quote and a bracket |
| XmlWriter.FormattedXMLWriter.OpenOutput | src/common/FormattedXMLWriter.cpp:32-36 | the opening tag, two deeper |
| XmlWriter.FormattedXMLWriter.CloseOutput | src/common/FormattedXMLWriter.cpp:38-42 | undoes that |
| XmlWriter.FormattedXMLWriter.OutputObject | src/common/FormattedXMLWriter.cpp:44-51 | the stream gains the object's text and the indent is restored |
| XmlWriter.FormattedXMLWriter.OutputValue | src/common/FormattedXMLWriter.cpp:72-107 | the stream gains the value's text and the indent is restored |
| XmlWriter.FormattedXMLWriter.OutputMap | src/common/FormattedXMLWriter.cpp:109-123 | the same for the entries of a map |
| XmlWriter.FormattedXMLWriter.OutputList | src/common/FormattedXMLWriter.cpp:125-138 | the same for the elements of a list |
| Compose.EscapedTextSurvives | src/common/compose.hpp:181-184 | doubling every '%' gets any text through unchanged |
| Compose.NumberedArgument | src/common/compose.hpp:79-94 | a percent sign and a number stand for the argument of that number, counted from one, and for nothing if there is none |
| Compose.LonePercent | src/common/compose.hpp:181-204 | a percent sign before anything else stands for itself |
| Compose.Composition.constructor | src/common/compose.hpp:172-217 | the pieces and specifications found are the tokens of the format, each specification filed once |
| Compose.Composition.ReadSpec | src/common/compose.hpp:189-199 | the longest run of digits is one specification with their decimal number |
| Compose.Composition.AddArg | src/common/compose.hpp:117-131 | the text goes behind every piece whose specification names it, and nowhere else |
| Compose.Composition.AddStreamed | src/common/compose.hpp:148-170 | an argument without output is no argument |
| Compose.FlattenLayout | src/common/compose.hpp:219-228 | the joined list reads like the substituted tokens, with nothing for missing arguments |
| Compose.ComposeString | src/common/compose.hpp:237-243 | for every format and argument list the result is one left-to-right substitution; argument text is never looked at again |
| Properties.AssignTakesHold | src/common/Property.cpp:29-142 | a value takes hold exactly when the property's type accepts it or it was held already |
| Properties.SetTakesHold | src/common/Property.cpp:29-142 | the same for `set` alone: a value held already stays unless it is converted |
| Properties.SetConverts | src/common/Property.cpp:29-142 | what is stored for an integer that is not held as it is: its remainder in 32 bits, the same number, or whether it was zero |
| Properties.ValidNames | src/common/Property.cpp:196-209 | a name is valid exactly with one to thirty-two characters, all letters, digits or one of three signs |
| Properties.VisibilityOfName | src/common/Property.cpp:186-194 | without flags of the factory, names decide: one underscore hides from the public, two also from the owner |
| TypeNodes.UpdateLeaves | src/common/TypeNode.cpp:135-218 | exactly the admissible attributes and the old ephemeral properties are left, all with valid names and none instance-only |
| TypeNodes.UpdateNames | src/common/TypeNode.cpp:135-218 | the names reported new, removed and changed are the exact difference, pairwise disjoint |
| TypeNodes.UpdateKeepsConsistent | src/common/TypeNode.cpp:135-218 | each audience stays shown exactly the properties it may see, with the attributes' values |
| TypeNodes.UpdateIsIdempotent | src/common/TypeNode.cpp:135-218 | the same update again adds, removes and alters nothing |
| TypeNodes.UpdatedEntry | src/common/TypeNode.cpp:167-211 | exactly which properties, old and new, hold their attribute's value afterwards |
| TypeNodes.InjectKeepsConsistentIff | src/common/TypeNode.cpp:69-113 | injecting keeps descriptions and visibility consistent exactly when it hides nothing that was shown |
| TypeNodes.AddKeepsConsistentIff | src/common/TypeNode.cpp:115-133 | adding keeps descriptions and visibility consistent exactly when every described property replaced is seen by the audiences of the one a factory makes |
| TypeNodes.FactoryFlagsStayConsistent | src/common/TypeNode.cpp:115-218 | properties whose visibility came from the factories keep it and stay described consistently through additions and updates |
| TypeNodes.SameChangeReportedTwice | src/common/TypeNode.cpp:195-202 | two equal updates with a value of another type report the same change |
| TypeNodes.SetDescriptionConsistentIff | src/common/TypeNode.cpp:51-67 | wholesale replacement is consistent exactly when all it describes is public |
| TypeNodes.TypeNode.InjectProperty | src/common/TypeNode.cpp:69-113 | the property is refused, new or replacing, and shown to whom its flags allow |
| TypeNodes.TypeNode.AddProperties | src/common/TypeNode.cpp:115-133 | exactly the admissible attributes become class properties |
| TypeNodes.TypeNode.UpdateProperties | src/common/TypeNode.cpp:135-218 | the new properties and descriptions, and the exact disjoint report of what changed |
| TypeNodes.TypeNode.SetDescription | src/common/TypeNode.cpp:51-67 | all audiences are shown what is described, children only the private one |
| TypeNodes.TypeNode.IsTypeOf | src/common/TypeNode.cpp:220-230 | the walk ends and finds a name exactly when it is on the parent chain |
| TypeNodes.TypeNode.IsTypeOfNode | src/common/TypeNode.cpp:232-242 | the same for a node |
| TypeTree.LineIsPath | src/common/Inheritance.cpp:156-197 | every parent chain is finite and ends at the root |
| TypeTree.InheritsIffOnLine | src/common/TypeNode.cpp:220-242 | reflexive-transitive ancestry is being on the parent chain |
| TypeTree.InheritsIsTreeOrder | src/common/TypeNode.cpp:220-242 | inheritance is a partial order below the root in which a type's ancestors form a chain |
| TypeTree.GrowthKeepsAnswers | src/common/Inheritance.cpp:156-197 | adding a type changes no existing answer and puts it below its parent |
| TypeTree.SubtypesExact | src/common/Inheritance.cpp:180-189 | the children listed are exactly the direct subtypes, once each, in the order they were added |
| TypeTree.ChildrenExact | src/common/Inheritance.cpp:180-189 | the children listed are those the object brought, in front, and the names of all direct subtypes; no list exactly when there are none |
| TypeTree.ChildrenGrow | src/common/Inheritance.cpp:180-189 | adding a type appends its name to its parent's children and to no others |
| Inheritances.GrowthFits | src/common/Inheritance.cpp:156-197 | after adding, every node is still filed under its name, points to its parent's node and lists its subtypes |
| Inheritances.Inheritance.constructor | src/common/Inheritance.cpp:88-99 | the root-only store |
| Inheritances.Inheritance.GetType | src/common/Inheritance.cpp:141-148 | the node of the one type of that name, or null when there is none |
| Inheritances.Inheritance.AddChild | src/common/Inheritance.cpp:156-197 | refused for a taken name or unknown parent; otherwise the tree grows by one fresh node and only the parent's descriptions change |
| Inheritances.SubtypePublishesProperty | src/common/Inheritance.cpp:180-189 | a private property is shown to everybody once its type gets a subtype |
| Inheritances.Inheritance.IsTypeOf | src/common/Inheritance.cpp:199-208 | true exactly when the named type exists and inherits from the named base |
| Inheritances.Inheritance.IsTypeOfNamed | src/common/Inheritance.cpp:210-214 | the same for the type of a node |
| Inheritances.Inheritance.IsTypeOfNode | src/common/Inheritance.cpp:216-220 | the same for two nodes |

## Left out

- The libraries the code calls (Detour, wfmath, Bullet, the Atlas codecs, boost, sqlite, libpq) are not part of this model; sockets, threads and clocks appear as events and parameters.
- FastLZ: the 16-bit copy path of fastlz.c:500-520, a platform variant of the byte loop; inputs of 2 GiB and more, which the `int` lengths cannot describe; input and output overlapping in memory.
- FastLZ sizes: `1.05f` is taken as 21/20, rounded down.
- FastLZSearch.PeriodCompressed: requires that no triple occurs twice within the first period; otherwise matches at a shorter distance are taken first, and `AnyPeriodCompressed` is what is claimed, for inputs of up to 8191 bytes; beyond them a position skipped by matches can fall out of range before it is looked up again.
- Awareness coordinates are reals; rounding of floats is not modelled. A rotated box is known by its bounding box and the tiles it overlaps.
- Awareness.Awareness.ProcessEntityUpdate: what an update brought (which properties are new, timestamps compared) is a parameter.
- Awareness.Awareness.RebuildDirtyTile: rasterising a tile and adding it to the cache always succeed.
- Awareness.Awareness.PruneTiles: with several awareness areas the least recently used tile may be aware; the guarantee is for aware tiles that are a prefix.
- Awareness.Awareness.SetAwarenessArea: requires that the tiles on record for the id that leave its area are aware, as they are for live ids (`LiveTilesAware`); the code dereferences their entries unchecked. `RemoveAwarenessArea` requires it of all.
- `unawareTilesInArea`, `isPositionAware`, path finding, obstacle avoidance and steering.
- SocketStream: negotiation, reading, and what follows a failed write.
- SQLiteWorker: spurious wake-ups of blocked callers.
- PostgresQueue: reconnecting, and synchronous queries between asynchronous ones.
- OperationsDispatcher: overflow of the sequence counter, and operations whose time is changed after they were added; `priority_queue` is the sequence of its entries in pop order.
- RuleTraversal.RuleTraversalTask.Handle: requires that a children list with elements names at least one rule; the code dereferences the first name unchecked.
- XmlText: floats and values without a type.
- Compose.Composition.ReadSpec: overflow of the `int` specification number.
- Properties: property classes with their own `get` and `set`, and rounding to single precision.
- TypeNodes: attributes of a description other than "children" and "properties"; debug assertions on the name "objtype"; `install` hooks.
- Inheritances: the standard types the constructor goes on to add, which are `addChild` calls; `updateClass` and `flush`.
