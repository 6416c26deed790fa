# A verified model of the hard parts of the C++ REST SDK

The project models four parts of the library, and some smaller pieces that share their style,
and proves what they are for. Each locked section or atomic operation is one step; runs are
arbitrary interleavings of steps, with sequential consistency.

- **Producer/consumer stream buffer.** `BufferSpec` is one unbounded byte queue with read
  requests, a flush watermark, alloc/commit, acquire/release and close, together with the history
  of what was accepted and handed out. `ProducerConsumerBuffer` is the code: blocks with their
  own arrays in a deque, a request queue and the counters. Every method is proved to take the
  step of the byte queue that it is meant to take, so a buffer object is always at the end of a
  run, and the theorems about all runs are theorems about the object. `BufferLaws` says what the
  steps of the queue do without the functions that define them.
- **Cancellation tokens.** `TokenList` is the hand-written linked list on heap nodes.
  `CancelProtocol` is cancel, register and deregister on any number of threads, down to the
  state word of a registration, and `CancelProgress` shows that these calls return. `LinkedSources` is cancellation on one thread through sources
  that were linked to each other.
- **JSON.** `JsonValue`, `JsonPrinter` and `JsonReader`: values, equality, the printer that
  appends to a string, and a reader written from RFC 8259, sections 2 to 7. `JsonObject` is the
  field store, sorted or in insertion order, as a finite map.
- **Stream algorithms.** `StreamSource` is a buffer whose characters arrive at moments nobody
  knows. `ReadLine` and `IntegerParser` are the loops over it. `ContainerBuffer` is the buffer
  over a container.
- **Smaller pieces.** `RecursiveLock`, `Scheduler` (the spin lock and the scheduler that is
  installed once), `OperationQueue` (of the file stream) and `HttpHeaders`.

`Bytes` holds the character type, the two special character values and the concatenation of
sequences, `Decimals` the numbers that digits denote. `dafny verify dfyconfig.toml` checks the
whole project.

## What the code does not keep

The model follows the code; where that falls short of what one would expect, there is a lemma
with an input and one with the exact condition.

- `nextc` reads two characters under a request for one, so it can report the end of a stream
  that is still open (`NextcEndsEarly`); it does so exactly when it is served with fewer than two
  characters there and the write head open (`NextcTruthful`, and `NextcAsked` for the caller).
- A deregister releases a reference that is not its own if it runs between a cancel's flag
  change and its list swap, for a registration that was invoked inline, while other registrations
  are in the list (`StrayHappens`, `StrayExactlyWhen`); the list's reference is released exactly
  once in all other cases (`ListReferenceReleasedOnce`).
- The sign test of the int64 parser is not an exact overflow test, although its error message
  speaks of values too large for 64 bits (`OverflowHappens`). `Int64Returns` says what it returns
  for every input, `OverflowMissed` when exactly an overflow is reported; the parser is right
  exactly below a magnitude of 2^63 (`Int64Exactly`), which excludes -2^63. It also reads a sign
  without digits as 0 (`SignAlone`). The uint64 parser reduces modulo 2^64
  (`Uint64Exactly`, `Uint64Wraps`).

## Model

| member | source | states |
|---|---|---|
| `BufferSpec.RunKeeps` | Release/include/cpprest/producerconsumerstream.h:358-632 | over every interleaving of locked sections and of the unlocked flag stores of close, the invariant holds: bytes conserved in order, watermark within the unread bytes, every log entry correct, each request answered or waiting exactly once, front request really unsatisfiable |
| `BufferSpec.RunDelivers` | Release/include/cpprest/producerconsumerstream.h:398-414 | in every run, bytes delivered in completion order followed by unread bytes are the bytes accepted; queued requests are answered in queue order; each completion event is set exactly once or still queued; a request waits only while nothing is flushed, the write head is open and it asks for more than there is |
| `BufferSpec.ReaderGetsNext` | Release/include/cpprest/producerconsumerstream.h:562-620 | each reader of a run is handed the next bytes of the stream, min(wanted, available) of them; fewer than wanted only after a flush or a close; none only when closed and everything accepted was consumed; a release and an advancing read take what they were handed, a peek takes nothing |
| `BufferSpec.StepKeeps` | Release/include/cpprest/producerconsumerstream.h:337-632 | each single locked section or flag store keeps the invariant |
| `BufferSpec.FulfillServes` | Release/include/cpprest/producerconsumerstream.h:398-414 | serving the queue ends with an empty queue or a front request that cannot be satisfied, and keeps all accounts |
| `BufferSpec.FulfillFrame` | Release/include/cpprest/producerconsumerstream.h:398-414 | serving the queue removes a prefix of it, reorders nothing and touches no flag, no accepted byte and no issued ticket |
| `BufferSpec.ClosedStep` | Release/include/cpprest/producerconsumerstream.h:337-352 | with the write head closed it stays closed, a drained queue stays drained, and the locked half of close drains it |
| `BufferSpec.CloseDrains` | Release/include/cpprest/producerconsumerstream.h:58-70 | whatever happens before, between and after the two halves of close, no request is left waiting, as the destructor asserts |
| `BufferSpec.NextcEndsEarly` | Release/include/cpprest/producerconsumerstream.h:316-325 | a run in which nextc reports the end of a stream that is still open |
| `BufferSpec.NextcTruthful` | Release/include/cpprest/producerconsumerstream.h:316-325 | in every run, a nextc reports the end of a stream that is still open exactly when it was served with fewer than two characters there and the write head open |
| `BufferSpec.NextcAsked` | Release/include/cpprest/producerconsumerstream.h:316-325 | a nextc asked for with two characters there or the write head closed is answered at once, by the second character or by a true end; it is answered at once by an untrue end exactly when one character is there and the write head is open |
| `BufferSpec.OvertakesExactly` | Release/include/cpprest/producerconsumerstream.h:543-557 | in every run with waiting requests, a new request is answered before them exactly when it asks for no more than there is, and else joins the back of the queue |
| `BufferSpec.OvertakingHappens` | Release/include/cpprest/producerconsumerstream.h:543-557 | a run in which a bumpc overtakes a getn of two characters |
| `BufferLaws.AcceptsWritten` | Release/include/cpprest/producerconsumerstream.h:358-392 | a run accepts exactly what it writes and commits, in order |
| `BufferLaws.WatermarkIs` | Release/include/cpprest/producerconsumerstream.h:238-247 | in every run the watermark is the number of undelivered characters among those accepted before the last sync |
| `BufferLaws.SyncServes` | Release/include/cpprest/producerconsumerstream.h:238-247 | after a sync, in every run, no request waits or no character is left |
| `BufferLaws.RequestLeaves` | Release/include/cpprest/producerconsumerstream.h:260-325 | in every run a request is answered exactly if something is flushed, the write head is closed or there are as many characters as it asks for (count for a getn, one for the others); a getc leaves all characters, the others what is behind those they asked for |
| `BufferLaws.ReadLeaves` | Release/include/cpprest/producerconsumerstream.h:272-314 | a synchronous read changes nothing if it would have to wait; otherwise it takes what it was handed, and a peek takes nothing |
| `BufferLaws.FlagsAre` | Release/include/cpprest/producerconsumerstream.h:337-342 | in every run each head is closed exactly if its flag was stored |
| `BufferLaws.QueueInOrder` | Release/include/cpprest/producerconsumerstream.h:543-557 | requests that wait are queued and answered in the order in which they were made |
| `ProducerConsumerBuffer.Buffer.Conserves` | Release/include/cpprest/producerconsumerstream.h:358-632 | for a buffer object between locked sections: what was handed over followed by the unread characters of all its blocks is what was accepted, the counters agree, requests are answered in queue order and once each, and the front one really has to wait |
| `ProducerConsumerBuffer.Buffer.ReaderIsNext` | Release/include/cpprest/producerconsumerstream.h:562-620 | every reader of a buffer object was handed the next characters of the stream, as many as wanted or available |
| `ProducerConsumerBuffer.Buffer.Watermark` | Release/include/cpprest/producerconsumerstream.h:238-247 | for a buffer object: the watermark is the number of undelivered characters among those accepted before the last sync, what it accepted is what was written and committed, and its requests wait in the order in which they were made |
| `ProducerConsumerBuffer.Buffer.NobodyWaits` | Release/include/cpprest/producerconsumerstream.h:58-70 | a buffer object whose write head is closed and flushed has no waiting request, as the destructor asserts |
| `ProducerConsumerBuffer.Buffer.WindowStays` | Release/include/cpprest/producerconsumerstream.h:190-215 | an acquired window shows the same characters, which are still the next of the stream, as long as its block is at the front with the same read head |
| `ProducerConsumerBuffer.Block.Read` | Release/include/cpprest/producerconsumerstream.h:457-478 | hands over min(count, unread) characters from the read head, writes nothing else, and advances only if asked to |
| `ProducerConsumerBuffer.Block.Write` | Release/include/cpprest/producerconsumerstream.h:481-502 | appends the first min(count, free) characters behind the unread ones |
| `ProducerConsumerBuffer.Buffer.CopyFront` | Release/include/cpprest/producerconsumerstream.h:589-600 | the loop over the blocks copies exactly the first min(count, unread) characters of all blocks in order and leaves the rest of the destination alone |
| `ProducerConsumerBuffer.Buffer.ReadChars` | Release/include/cpprest/producerconsumerstream.h:585-608 | a read takes what CopyFront copied off the front, and total, total read and watermark move with it |
| `ProducerConsumerBuffer.Buffer.UpdateReadHead` | Release/include/cpprest/producerconsumerstream.h:614-632 | purging read blocks loses no unread character and leaves a front block that is not empty |
| `ProducerConsumerBuffer.Buffer.EmptyInFront` | Release/include/cpprest/producerconsumerstream.h:622-631 | counts exactly the blocks in front that are read to the end |
| `ProducerConsumerBuffer.Buffer.ReadByte` | Release/include/cpprest/producerconsumerstream.h:572-577 | the first unread character, or EOF when there is none |
| `ProducerConsumerBuffer.Buffer.CompleteRequest` | Release/include/cpprest/producerconsumerstream.h:260-325 | running a completion function takes the step of the byte queue and fills the caller's memory with the front of the stream |
| `ProducerConsumerBuffer.Buffer.FulfillOutstanding` | Release/include/cpprest/producerconsumerstream.h:398-414 | the loop over the request queue refines serving the queue of the byte queue; the memory of every served getn holds what its log entry says it was handed, unless a later one was given the same memory; the rest of the queue still waits, in order |
| `ProducerConsumerBuffer.Buffer.EnqueueRequest` | Release/include/cpprest/producerconsumerstream.h:543-557 | a request that can be satisfied is answered at once, a getn by the front of the stream in the caller's memory; any other joins the back of the queue and leaves the memory alone |
| `ProducerConsumerBuffer.Buffer.SyncReadChars` | Release/include/cpprest/producerconsumerstream.h:272-282 | sgetn and scopy: the front of the stream, or a request to wait exactly when nothing is flushed, the write head is open and there is less than asked for; sgetn removes what it handed over, scopy nothing |
| `ProducerConsumerBuffer.Buffer.SyncReadByte` | Release/include/cpprest/producerconsumerstream.h:294-314 | sbumpc and sgetc: next character, end, or a request to wait, each exactly when it applies; sbumpc removes the character, sgetc does not |
| `ProducerConsumerBuffer.Buffer.Acquire` | Release/include/cpprest/producerconsumerstream.h:190-215 | a window on the unread characters of the front block, which are the next of the stream; end of stream only when open for reading, closed for writing and nothing is unread |
| `ProducerConsumerBuffer.Buffer.ReleaseChars` | Release/include/cpprest/producerconsumerstream.h:223-234 | the characters of the window that were read are delivered and leave the buffer, and the counters move with them |
| `ProducerConsumerBuffer.Buffer.Sync` | Release/include/cpprest/producerconsumerstream.h:238-247 | marks everything unread as flushed and serves the queue, filling the memory of the reads it serves: afterwards nobody waits or nothing is left; an acquired window stays good if it serves none |
| `ProducerConsumerBuffer.Buffer.CloseWriteFlag` | Release/include/cpprest/producerconsumerstream.h:342 | the unlocked half of close changes the flag and nothing else |
| `ProducerConsumerBuffer.Buffer.CloseWriteFlush` | Release/include/cpprest/producerconsumerstream.h:344-349 | the locked half of close answers every waiting request, filling the memory of its reads |
| `ProducerConsumerBuffer.Buffer.Write` | Release/include/cpprest/producerconsumerstream.h:368-392 | 0 when closed for writing, pretended when closed for reading, else all characters accepted behind the earlier ones; the memory of the reads that this serves is filled, and an acquired window stays good if it serves none |
| `ProducerConsumerBuffer.Buffer.WriteLocked` | Release/include/cpprest/producerconsumerstream.h:376-392 | the locked section accepts all characters, in the last block or a new one, and serves the queue |
| `ProducerConsumerBuffer.Buffer.MakeRoom` | Release/include/cpprest/producerconsumerstream.h:378-386 | afterwards the last block has room, and the unread characters are unchanged |
| `ProducerConsumerBuffer.Buffer.UpdateWriteHead` | Release/include/cpprest/producerconsumerstream.h:358-363 | moves the counters over the new characters and serves the queue |
| `ProducerConsumerBuffer.Buffer.Alloc` | Release/include/cpprest/producerconsumerstream.h:141-155 | fresh memory of the size asked for exactly when open and none is handed out; none when closed, a logic error when some is handed out already |
| `ProducerConsumerBuffer.Buffer.Commit` | Release/include/cpprest/producerconsumerstream.h:161-175 | the first characters of the handed-out memory are accepted like a write, with the same effect on waiting reads and an acquired window; a logic error when none is handed out |
| `TokenList.TokenRegistrationContainer.PushBack` | Release/include/pplx/pplxcancellation_token.h:347-368 | the represented sequence grows by one token at the end |
| `TokenList.TokenRegistrationContainer.RemoveToken` | Release/include/pplx/pplxcancellation_token.h:370-399 | the represented sequence loses the first occurrence of the token, if any |
| `TokenList.RemoveAt` | Release/include/pplx/pplxcancellation_token.h:370-399 | removing takes out the first occurrence and nothing else |
| `TokenList.TokenRegistrationContainer.Unlink` | Release/include/pplx/pplxcancellation_token.h:377-393 | relinking around node i removes position i from the sequence and keeps first and last pointer right |
| `TokenList.TokenRegistrationContainer.Swap` | Release/include/pplx/pplxcancellation_token.h:324-328 | two lists exchange their contents |
| `TokenList.TokenRegistrationContainer.ForEach` | Release/include/pplx/pplxcancellation_token.h:335-345 | visits exactly the tokens of the list, in order, and terminates |
| `TokenList.TokenRegistrationContainer.Empty` | Release/include/pplx/pplxcancellation_token.h:330-333 | true exactly for the empty sequence |
| `CancelProtocol.StepKeeps` | Release/include/pplx/pplxcancellation_token.h:218-576 | every atomic operation or locked section of register, cancel, deregister, the sweep or the destructor keeps the protocol invariant |
| `CancelProtocol.RunKeeps` | Release/include/pplx/pplxcancellation_token.h:218-576 | the protocol invariant holds in every interleaving of any number of threads and registrations |
| `CancelProtocol.AtMostOnce` | Release/include/pplx/pplxcancellation_token.h:218-237 | in every interleaving each callback is started at most once |
| `CancelProtocol.NoneLost` | Release/include/pplx/pplxcancellation_token.h:448-498 | from the moment the flag is 2 the list is empty and every registration has been run, has been deregistered or is still inside its register call, destroyed token or not |
| `CancelProtocol.DeregisteredNotRunning` | Release/include/pplx/pplxcancellation_token.h:500-576 | after deregister returned, nobody but the deregistering thread itself is inside the callback |
| `CancelProtocol.DeregisterIsFinal` | Release/include/pplx/pplxcancellation_token.h:500-576 | once deregister has returned, no later step of any thread starts the callback, and only the deregistering thread can still be inside it |
| `CancelProtocol.WaiterHasWaker` | Release/include/pplx/pplxcancellation_token.h:562-571 | a deregister that waits unsignalled has the canceller inside this very callback, on another thread, with the event in place |
| `CancelProtocol.WaiterIsWoken` | Release/include/pplx/pplxcancellation_token.h:562-571 | from every reachable state with a waiting deregister the canceller's own next steps, taken back to back, set its event, and with its own next step it has returned |
| `CancelProtocol.WaiterIsWokenAmong` | Release/include/pplx/pplxcancellation_token.h:562-571 | whatever other threads do in between, after any run with as many steps of the canceller as it still needs the waiting deregister has returned or returns with its next step: neither exchange nor compare-and-exchange misses the other |
| `CancelProtocol.AssertionsHold` | Release/include/pplx/pplxcancellation_token.h:207-548 | a registration that nobody will look at again is not in state CLEAR; deregister never meets another deregister's state, the event is set before it is used, counts stay within 0 and 2 |
| `CancelProtocol.ListReferenceReleasedOnce` | Release/include/pplx/pplxcancellation_token.h:138-160 | the list's reference is released exactly once, for every registration whose deregister was not a stray one, and only for those |
| `CancelProtocol.StrayExactlyWhen` | Release/include/pplx/pplxcancellation_token.h:512-517 | a deregister releases one reference too many exactly when its locked section finds a list that is not empty and does not hold the registration |
| `CancelProtocol.StrayHappens` | Release/include/pplx/pplxcancellation_token.h:494-517 | a concrete run in which that happens: the callback ran inline during a cancel that had not taken the list yet |
| `CancelProgress.DeregisterReturns` | Release/include/pplx/pplxcancellation_token.h:500-576 | from every reachable state a deregister under way returns by its own next steps, with at most three of the canceller, and those only while the canceller is inside its callback |
| `CancelProgress.DeregisterCall` | Release/include/pplx/pplxcancellation_token.h:500-576 | a whole deregister call is made and returns, on the thread that made it |
| `CancelProgress.RegisterReturns` | Release/include/pplx/pplxcancellation_token.h:475-498 | a register call returns by its own next steps, with the callback run exactly if the token was cancelled, else with the registration in the list |
| `CancelProgress.RegisterCall` | Release/include/pplx/pplxcancellation_token.h:475-498 | a whole register call from its first step |
| `CancelProgress.CancelReturns` | Release/include/pplx/pplxcancellation_token.h:448-466 | a whole cancel call returns by its own next steps, and then every registration that has been made and not been taken back has been run |
| `CancelProgress.DestroyEnds` | Release/include/pplx/pplxcancellation_token.h:428-441 | destruction marks and releases exactly the registrations in the list and empties it |
| `LinkedSources.CloseIsLeast` | Release/include/pplx/pplxcancellation_token.h:982-1012 | the closure under links is closed, holds the start set, and lies in every closed set that does |
| `LinkedSources.CancelSource` | Release/include/pplx/pplxcancellation_token.h:448-466 | cancelling terminates and leaves cancelled exactly the least link-closed set with the source and all earlier cancelled ones, each newly cancelled one swept to flag 2 |
| `LinkedSources.Cancel` | Release/include/pplx/pplxcancellation_token.h:448-466 | the same inside a callback, with sources further up the stack still being swept: only what the source reaches is newly cancelled |
| `LinkedSources.RunCallbacks` | Release/include/pplx/pplxcancellation_token.h:458-461 | running the callbacks of one source cancels all sources linked to it and nothing that is not reachable |
| `LinkedSources.CreateLinkedSource` | Release/include/pplx/pplxcancellation_token.h:1003-1012 | also inside a running callback: the new source is cancelled on the spot exactly if a parent already is, and else linked behind all of them |
| `LinkedSources.RegisterCancel` | Release/include/pplx/pplxcancellation_token.h:475-498 | also inside a running callback: registering runs the callback at once if the token is cancelled, else leaves it to the cancel |
| `JsonValue.FromInt64` | Release/include/cpprest/json.h:1255 | every 64-bit signed integer keeps its value, and only negative ones are stored as signed |
| `JsonValue.StoredOnce` | Release/include/cpprest/json.h:1249-1256 | the constructors give every integer of either 64-bit range exactly one stored form |
| `JsonValue.FromString` | Release/src/json/json.cpp:344-353 | a string made without stating the flag carries a correct escape flag, whether or not char is signed |
| `JsonValue.EqualIsSameMeaning` | Release/src/json/json.cpp:393-416 | values compare equal exactly when they mean the same JSON document, flags and storage order mode aside |
| `JsonPrinter.FastPath` | Release/src/json/json_serialization.cpp:134-148 | a string without characters to escape is its own escaped form |
| `JsonPrinter.EitherPath` | Release/src/json/json_serialization.cpp:138-145 | with a correct flag the unescaped path prints what the escaping path would |
| `JsonPrinter.PrintsCompactly` | Release/include/cpprest/json.h:1711-1730 | printing adds no white space anywhere |
| `JsonPrinter.DecimalLength` | Release/src/json/json_serialization.cpp:154-156 | a number below 10^k prints at most k digits |
| `JsonPrinter.NumberFits` | Release/src/json/json_serialization.cpp:154-156 | the temporary buffer holds every 64-bit number with sign and terminator |
| `JsonPrinter.AppendEscapeString` | Release/src/json/json_serialization.cpp:62-116 | the loop appends exactly the escaped form |
| `JsonPrinter.FormatNumber` | Release/src/json/json_serialization.cpp:150-174 | the integer branch appends the whole decimal text, nothing truncated by the temporary buffer |
| `JsonPrinter.FormatArray` | Release/include/cpprest/json.h:1832-1847 | the loop with its separate last element appends all elements separated by commas |
| `JsonPrinter.FormatObject` | Release/include/cpprest/json.h:1711-1730 | the loop with its separate last field appends all fields separated by commas |
| `JsonPrinter.Serialize` | Release/src/json/json_serialization.cpp:256-262 | serialize returns the printed form that the reader lemmas are about |
| `JsonReader.ReadEscaped` | Release/src/json/json_serialization.cpp:62-116 | reading a string back, as section 7 of RFC 8259 says, undoes escaping |
| `JsonReader.DecimalBack` | Release/src/json/json_serialization.cpp:166-173 | the printed digits denote the number and have no leading zero |
| `JsonReader.ReadBack` | Release/src/json/json_serialization.cpp:45-174 | the reader recovers the value and the untouched rest from the printed value followed by any text that does not continue a number |
| `JsonReader.SerializeReads` | Release/src/json/json_serialization.cpp:256-262 | serialize prints a JSON text, and it is the text of that value |
| `JsonReader.SerializeInjective` | Release/src/json/json_serialization.cpp:256-262 | two values print alike exactly when they compare equal |
| `JsonReader.UniquelyDecodable` | Release/include/cpprest/json.h:1711-1730 | no text begins with the print-outs of two different values, numbers that the text continues aside |
| `JsonObject.LessTotal` | Release/include/cpprest/json.h:1187-1190 | key order is total and irreflexive |
| `JsonObject.LessIs` | Release/include/cpprest/json.h:1183-1190 | the smaller character at the first difference decides, and a proper prefix comes first |
| `JsonObject.AsMapFacts` | Release/include/cpprest/json.h:948-968 | the finite map of a store with distinct keys holds exactly its fields |
| `JsonObject.SearchIsLookup` | Release/include/cpprest/json.h:1192-1235 | both searches find a key exactly when the finite map holds it, with its value |
| `JsonObject.AssignKeeps` | Release/include/cpprest/json.h:1142-1152 | assignment keeps keys distinct and sorted, and is map update |
| `JsonObject.TouchKeeps` | Release/include/cpprest/json.h:1142-1152 | operator[] keeps keys distinct and sorted, and adds a null for a new key only |
| `JsonObject.EraseKeeps` | Release/include/cpprest/json.h:1094-1103 | erase keeps keys distinct and sorted, and is map removal |
| `JsonObject.RunIsMap` | Release/include/cpprest/json.h:1094-1235 | over every run of operations the store stays well formed and equals the same run on a finite map |
| `JsonObject.ModesAgree` | Release/include/cpprest/json.h:1192-1235 | sorted and keep-order stores that start alike answer every lookup alike after every run |
| `JsonObject.InsertionOrder` | Release/include/cpprest/json.h:1192-1200 | in keep-order mode assigning a new key appends it, assigning an old one moves nothing, and erasing one takes out that field only |
| `JsonObject.RunOrder` | Release/include/cpprest/json.h:1094-1235 | over every run in keep-order mode the keys are in the order in which they were first used since they were last removed |
| `JsonObject.Object.FindInsertLocation` | Release/include/cpprest/json.h:1192-1205 | bisection and linear search both return the first field that is not before the key |
| `JsonObject.Object.LowerBound` | Release/include/cpprest/json.h:1203 | everything before the result is less than the key, and the result is not |
| `JsonObject.Object.FindByKey` | Release/include/cpprest/json.h:1207-1235 | finds the field of the key, or the end exactly when the map lacks it |
| `JsonObject.Object.At` | Release/include/cpprest/json.h:1110-1135 | the map's value, or key not found exactly when it has none |
| `JsonObject.Object.HasField` | Release/src/json/json.cpp:380-383 | true exactly for keys of the map |
| `JsonObject.Object.Index` | Release/include/cpprest/json.h:1142-1152 | returns the position of the key, adding it with a null when new |
| `JsonObject.Object.Put` | Release/src/json/json.cpp:375-378 | operator[] with an assignment is map update |
| `JsonObject.Object.EraseKey` | Release/include/cpprest/json.h:1094-1103 | removes the key, or fails and changes nothing |
| `ReadLine.ReadLine` | Release/include/cpprest/streams.h:832-932 | for every source, arrival pattern and line length against the chunk buffer: consumes one line with its terminator, puts exactly the line into a target that stays open, and returns the number of characters put |
| `ReadLine.ReadAllLines` | Release/include/cpprest/streams.h:832-932 | calling read_line until the source is exhausted yields as many lines as the text has, and, unless somebody closed a target, exactly the text with every CR, LF and CR LF normalized, split at LF; for every arrival pattern |
| `ReadLine.Round` | Release/include/cpprest/streams.h:893-926 | one asynchronous round ends the line or makes progress within it |
| `ReadLine.TakeAvailable` | Release/include/cpprest/streams.h:895-919 | the synchronous loop handles what has arrived and stops in the middle of a line only when it would have to wait |
| `ReadLine.ReadHelper.Update` | Release/include/cpprest/streams.h:856-877 | one character extends the line, or ends it at EOF or LF, or is remembered as CR |
| `ReadLine.ReadHelper.Push` | Release/include/cpprest/streams.h:866-874 | the chunk buffer and the target together always hold the line read so far |
| `ReadLine.ReadHelper.Flush` | Release/include/cpprest/streams.h:846-854 | the chunk goes to the target and is counted |
| `ReadLine.LinesAreLines` | Release/include/cpprest/streams.h:856-891 | taking a line and going on behind its terminator, again and again, is normalizing CR, LF and CR LF and splitting at LF |
| `ReadLine.FirstOf` | Release/include/cpprest/streams.h:856-891 | the first line is what is in front of the first 10 or 13, and what is behind it begins after 10, after 13 and 10, or after 13 alone |
| `ReadLine.SplitIs` | Release/include/cpprest/streams.h:856-891 | splitting takes off a first line and its end, 10, 13 and 10 or 13, and leaves no line behind the last end |
| `IntegerParser.SkipWhitespace` | Release/include/cpprest/streams.h:1130-1171 | consumes exactly the leading white space, for every arrival pattern |
| `IntegerParser.ParseInput` | Release/include/cpprest/streams.h:1175-1227 | runs the state machine over the longest accepted text behind the white space, and leaves the first refused character unread |
| `IntegerParser.TakeAccepted` | Release/include/cpprest/streams.h:1182-1212 | the peek-then-advance loop consumes exactly the accepted characters |
| `IntegerParser.ParseInt64` | Release/include/cpprest/streams.h:1257-1322 | the result and the rest of the text as functions of the input, to which the lemmas below apply |
| `IntegerParser.ParseSigned` | Release/include/cpprest/streams.h:525-536 | the narrowing overload: the 64-bit result when in range, else a range error, with the same text left unread |
| `IntegerParser.ParseUint64` | Release/include/cpprest/streams.h:1521-1553 | the result and the rest of the text as functions of the input, to which the lemmas below apply |
| `IntegerParser.ParseUnsigned` | Release/include/cpprest/streams.h:538-549 | the narrowing overload: the 64-bit result when in range, else a range error, with the same text left unread |
| `IntegerParser.Int64Returns` | Release/include/cpprest/streams.h:1271-1322 | for all white space, sign and digits: a range error exactly if some prefix of the digits leaves a residue of 2^63 or more modulo 2^64, and then the last digit of the first such prefix is left unread; else the signed residue, with the first non-digit left unread |
| `IntegerParser.EveryText` | Release/include/cpprest/streams.h:1130-1322 | every text is white space, a sign or none, digits or none, and a rest that begins with no digit, so the lemmas about such texts cover every input |
| `IntegerParser.SignsAre` | Release/include/cpprest/streams.h:1288-1295 | 45 in front of digits negates, 43 does not, and neither does the absence of a sign |
| `IntegerParser.Int64Range` | Release/include/cpprest/streams.h:1315-1322 | whatever the text, results lie strictly between -2^63 and 2^63, so the negation never overflows |
| `IntegerParser.Int64Exactly` | Release/include/cpprest/streams.h:1271-1322 | for white space, optional sign and digits the parser returns the number exactly when its magnitude is below 2^63, and then leaves the first non-digit unread |
| `IntegerParser.NarrowExactly` | Release/include/cpprest/streams.h:525-536 | for all digits narrowing returns the residue if it was not refused and is in range, hence the number exactly when its magnitude is below 2^63 and it is in range |
| `IntegerParser.OverflowMissed` | Release/include/cpprest/streams.h:1300-1310 | from magnitude 2^63 on, an error is reported exactly if some prefix of the digits leaves a residue of 2^63 or more; otherwise a wrong number is returned |
| `IntegerParser.MissedByLastDigit` | Release/include/cpprest/streams.h:1300-1310 | if only the last digit goes past 2^63, the overflow is missed exactly when the residue of the number is below 2^63 |
| `IntegerParser.OverflowHappens` | Release/include/cpprest/streams.h:1300-1310 | 20000000000000000000 is read as 1553255926290448384, and 40000000000000000000 as 3106511852580896768 |
| `IntegerParser.SignAlone` | Release/include/cpprest/streams.h:1274-1295 | without digits it is an error exactly if there is no sign either; white space and a sign alone are read as 0 |
| `IntegerParser.Uint64Exactly` | Release/include/cpprest/streams.h:1534-1553 | for white space and digits the parser returns the number modulo 2^64, hence the number exactly when it is below 2^64, and leaves the rest unread |
| `IntegerParser.Uint64NoDigits` | Release/include/cpprest/streams.h:1536-1552 | without digits it is an error, and nothing but the white space is taken |
| `IntegerParser.Uint64Wraps` | Release/include/cpprest/streams.h:1541-1545 | 20000000000000000000 is read as 1553255926290448384 |
| `IntegerParser.NarrowUnsignedExactly` | Release/include/cpprest/streams.h:538-549 | for all digits narrowing returns the residue modulo 2^64 if it is in range, hence the number exactly when it is below 2^64 and in range |
| `RecursiveLock.RunKeeps` | Release/include/pplx/pplxlinux.h:199-227 | the lock invariant holds in every interleaving of any number of threads |
| `RecursiveLock.MutualExclusion` | Release/include/pplx/pplxlinux.h:199-213 | no two threads have the lock; the count is the nesting depth and the owner the holder, outside lock and unlock |
| `RecursiveLock.OwnerTestIsExact` | Release/include/pplx/pplxlinux.h:203 | the owner is a thread's id only while that thread holds the mutex, so the unlocked test is right at every moment |
| `RecursiveLock.FreedAtDepthZero` | Release/include/pplx/pplxlinux.h:220-226 | the mutex is freed exactly when the depth is back at 0, and no thread waits for itself |
| `RecursiveLock.UnlockAssertions` | Release/include/pplx/pplxlinux.h:217-218 | the assertions in unlock hold for every thread that unlocks what it locked |
| `RecursiveLock.LockCall` | Release/include/pplx/pplxlinux.h:199-213 | lock returns if nobody else has the mutex, and the caller has it once more than before |
| `RecursiveLock.LockWaits` | Release/include/pplx/pplxlinux.h:199-213 | lock waits if another thread has the mutex |
| `RecursiveLock.UnlockCall` | Release/include/pplx/pplxlinux.h:215-227 | unlock returns, the caller has the mutex once less, and it is free the last time |
| `Scheduler.RunKeeps` | Release/src/pplx/pplx.cpp:43-120 | the invariant holds in every interleaving of get and set calls |
| `Scheduler.InstalledOnce` | Release/src/pplx/pplx.cpp:82-120 | the spin lock gives mutual exclusion, at most one scheduler is installed, every get returns that one |
| `Scheduler.StaysInstalled` | Release/src/pplx/pplx.cpp:112-119 | an installed scheduler is never replaced |
| `Scheduler.SetInstalls` | Release/src/pplx/pplx.cpp:106-120 | a set that has the lock and finds nothing installed installs its argument whatever other threads do, for good, and every get returns it |
| `Scheduler.SetReturns` | Release/src/pplx/pplx.cpp:112-120 | a set that has the lock stores its argument if nothing is installed, else throws and stores nothing, and gives the lock back |
| `Scheduler.SetCall` | Release/src/pplx/pplx.cpp:106-120 | the same for a whole set call while nobody has the lock |
| `Scheduler.GetCall` | Release/src/pplx/pplx.cpp:82-104 | a whole get call returns what is installed, after installing a default scheduler exactly if nothing is |
| `Scheduler.LockIsFreed` | Release/src/pplx/pplx.cpp:43-59 | while the lock is taken some thread has it whose own next steps give it back |
| `OperationQueue.RunKeeps` | Release/include/cpprest/filestream.h:52-73 | the queue invariant holds over every run of enqueues, completions and continuations |
| `OperationQueue.StartsInOrder` | Release/include/cpprest/filestream.h:52-73 | although an operation only waits for what m_lastOperation was when it was given, operations start in enqueue order, each only after all before it are done, with an error or without |
| `OperationQueue.FailureStopsNobody` | Release/include/cpprest/filestream.h:63-71 | a waiting operation is started by the next continuations as soon as the one before it is done, even if that failed |
| `OperationQueue.EnqueueAdds` | Release/include/cpprest/filestream.h:52-73 | an operation given to the queue joins its end, and is started at once exactly if nothing before it is under way |
| `OperationQueue.RunsToEnd` | Release/include/cpprest/filestream.h:52-73 | an operation that all before it have left behind, with errors or without, is run to its end by at most three more steps, with its own outcome and no other one changed |
| `ContainerBuffer.Replay` | Release/include/cpprest/containerstream.h:288-489 | after every run of writes, absolute and relative seeks on an output buffer the size is the largest of the initial size and every position written or sought, and each character is the latest write covering it, else the initial one, else the default |
| `ContainerBuffer.SizeIs` | Release/include/cpprest/containerstream.h:451-479 | the size is the initial size or the end of some write or seek, and no smaller than any of them |
| `ContainerBuffer.CharIsLatest` | Release/include/cpprest/containerstream.h:461 | a position holds what the last write that covers it put there |
| `ContainerBuffer.CharIsInitial` | Release/include/cpprest/containerstream.h:472-479 | a position that no write covers holds the initial character, or 0 behind those |
| `ContainerBuffer.WriteIs` | Release/include/cpprest/containerstream.h:451-471 | resizing and copying yields the container that the longer history describes |
| `ContainerBuffer.ResizeIs` | Release/include/cpprest/containerstream.h:472-479 | resizing for a seek yields the container that the longer history describes |
| `ContainerBuffer.Buffer.Write` | Release/include/cpprest/containerstream.h:451-471 | writes all characters at the position, or nothing when closed |
| `ContainerBuffer.Buffer.SeekPos` | Release/include/cpprest/containerstream.h:288-328 | succeeds exactly for positions a reader may have or a writer asks for, moves there, and changes nothing on failure |
| `ContainerBuffer.Buffer.SeekOff` | Release/include/cpprest/containerstream.h:339-361 | the same relative to begin, position or end |
| `ContainerBuffer.Buffer.Read` | Release/include/cpprest/containerstream.h:420-446 | the next min(count, available) characters, the position moved only if asked to |
| `ContainerBuffer.Buffer.constructor` | Release/include/cpprest/containerstream.h:379-385 | the position is at the begin for reading and at the end for writing |
| `HttpHeaders.Icmp` | Release/include/cpprest/asyncrt_utils.h:605-627 | the index loop with its early returns is dictionary order of the lower-cased texts |
| `HttpHeaders.DictionaryIs` | Release/include/cpprest/asyncrt_utils.h:605-619 | the smaller character at the first difference gives -1, and so does a proper prefix |
| `HttpHeaders.LessIsStrictWeakOrder` | Release/include/cpprest/http_headers.h:67-77 | the comparison is a strict weak order whose equivalence is equality after ASCII lower-casing |
| `HttpHeaders.PlaceFinds` | Release/include/cpprest/http_headers.h:177 | a name's place found by comparison alone holds the only entry of that name in any case, if there is one |
| `HttpHeaders.CommaJoinIs` | Release/include/cpprest/http_headers.h:150 | lists are joined by the characters 44 and 32 |
| `HttpHeaders.AppendKeeps` | Release/include/cpprest/http_headers.h:148-151 | appending to an existing entry keeps one entry per name with the list of its values |
| `HttpHeaders.InsertKeeps` | Release/include/cpprest/http_headers.h:152-155 | inserting a new entry keeps the order and one entry per name with the list of its values |
| `HttpHeaders.RemoveKeeps` | Release/include/cpprest/http_headers.h:162-165 | removing an entry keeps the order and forgets the values of that name only |
| `HttpHeaders.Headers.Find` | Release/include/cpprest/http_headers.h:202-203 | after every sequence of changes the stored value of a name is the comma-separated list, in order, of all values added under names equal in any case since its last removal |
| `HttpHeaders.Headers.Has` | Release/include/cpprest/http_headers.h:177 | true exactly when such a value was added |
| `HttpHeaders.Headers.Add` | Release/include/cpprest/http_headers.h:146-156 | one more value, at the end, for the names equal to this one in any case, and for no others |
| `HttpHeaders.Headers.Remove` | Release/include/cpprest/http_headers.h:162-165 | no value for the names equal to this one in any case, and the same values for all others |

## Left out

- BufferSpec.RunDelivers: states queue order among the requests that had to wait, not among all reads, because a new request that can be satisfied overtakes a larger one that waits; OvertakesExactly says when, OvertakingHappens is an example (Release/include/cpprest/producerconsumerstream.h:547)
- BufferSpec.CloseDrains: does not state that no byte is accepted after a close, because a write tests the flag before it takes the lock (Release/include/cpprest/producerconsumerstream.h:370-376)
- ProducerConsumerBuffer.Buffer.ReadChars: does not require the assertion at the head of the read (Release/include/cpprest/producerconsumerstream.h:587), because the second read of nextc does not meet it
- ProducerConsumerBuffer.Buffer.UpdateReadHead: promises a non-empty front block only after a read; a commit of nothing can put an empty block there
- ProducerConsumerBuffer.Buffer.Write: models the two flag tests and the locked section as one call; interleavings between them are runs of the byte queue, where the locked section is always possible
- CancelProtocol.ListReferenceReleasedOnce: is an equivalence with the stray case rather than unconditional, because the code releases twice there
- CancelProtocol.DeregisterIsFinal: assumes one deregister for each registration, issued after register returned, and that the caller keeps its own reference
- JsonReader.ReadBack: asks that the text behind a number does not go on with a digit, a fraction or an exponent, because RFC 8259 reads those as part of the number
- ReadLine.ReadLine: is for sources where a positive `in_avail` makes the next peek synchronous
- Doubles and floats, in printing and in extraction; they depend on the C library and on rounding.
- Wide strings, UTF-8 and UTF-16 conversion, locales and the Windows branches; characters are bytes or code units.
- Integer widths of sizes and counters (`size_t`); the 64-bit arithmetic of the number parsers is modelled, with signed overflow as two's complement wrap.
- Escaped surrogate pairs in the reader, which the printer never writes.
- The library's own JSON parser, the constructor of an object from a vector (its sort, and what it does with equal keys), and `value::operator[]` on null.
- Reserve-size heuristics of the printer.
- Tasks: a task is pending or completed, and a continuation runs some time after it; schedulers and exceptions thrown through tasks are not modelled.
- User callbacks that re-enter the buffer under its lock, or cancel and register from within a concurrent sweep; weak memory order; failing allocation.
- The lifetime of the event on the stack of a waiting deregister, and freeing of list nodes and blocks.
- The global scheduler before its constructor and after its destructor.
- alloc, commit, acquire and release of the container buffer, and its `getpos` and `ungetc`.
- The tree inside `std::map`; headers are kept as a sequence in the order of the comparison, and searched with it.
- Typed access to header values, and printing of values that are not text.
- The raw-pointer buffer (a near copy of the container buffer), interop streams, file I/O, HTTP, OAuth, WebSocket, URI and the platform schedulers.
