# Verified cores of the homeserver

A Dafny model of the self-contained algorithms and protocols of this Matrix homeserver, with
proofs about every input, every run or every reachable state. Each module follows one source file.

| module | models | main results |
|---|---|---|
| `Bytes`, `Codec`, `CodecTheorems`, `CodecAcceptance`, `CodecSkips`, `CodecKeys`, `CodecMachine` | the record codec of `src/database/ser.rs` and `src/database/de.rs` | a tuple survives a round trip if and only if it is `Decodable`; the exact set of buffers that the checked reader accepts, and the schemas on which the unchecked one is faithful; when skipping projects; strings are exactly the UTF-8 texts; a prefix key selects exactly its group; groups are contiguous and sort by their next u64 |
| `Cursor` | `src/database/stream.rs` and the prefix streams | a cursor refines a slice of the sorted table; a prefix stream yields exactly the rows with the leading components; a reverse prefix stream yields only the prefix itself |
| `MissingEvents` | `get_missing_events` | breadth-first order by shortest distance, nearest events under a limit, completeness, termination |
| `Watchers` | `src/database/watchers.rs` | no lost wakeup and no false wakeup over every interleaving |
| `Pool` | `src/database/pool.rs`, `src/database/pool/configure.rs` | every shutdown of every pool drains all queues, each accepted command is taken once, in the order of acceptance, and every run of a closed pool ends joined; a queue accepts commands if and only if it has a worker |
| `Supervisor` | `src/service/manager.rs` | one live worker per service; no early finish; no dropped panic |
| `Transactions` | `src/api/client/send.rs` | at most one event per transaction and room over every interleaving; unique if and only if one room is named; once a transaction is answered, every repeated request gets the same answer, whatever happens in between, if its id is used in one room and for messages only |
| `Repairs`, `Receipts`, `Migrations` | `src/service/migrations.rs` | the key rewrites as maps on the table, the receipt clean-up, the order and the recovery of the startup migrations |
| `SpaceWalk`, `SpaceTour`, `SpaceToken`, `SpaceOrder` | `src/api/client/space.rs` | termination on cyclic graphs; rooms are listed nearest first and nothing nearer is left out, on every graph; exactly which rooms are listed, with and without a pagination token; when the order is depth-first |
| `Backup` | `src/api/client/backup.rs` | the best key, field by field, is kept over a whole history; exactly when the order of the uploads does not matter |
| `Paging` | `src/api/client/directory.rs` | the pages hold exactly the wanted rooms in order; tokens are inverse |
| `Sequences` | | shared: options and reversal |

## How the model is set up

- Bytes are integers below 256; strings of the codec are the byte sequences that are valid UTF-8.
  That the separator never occurs in a string is a theorem (`Bytes.SepNotInUtf8`), not an assumption.
- The debug assertions of the writer are `requires` clauses. The data-dependent ones of the reader
  are faults that are raised only when the `debug` parameter is set; the round trip is proved for
  both settings.
- Concurrent protocols are transition systems whose steps are the sections that the source makes
  atomic (lock sections, channel operations). In `Pool`, `Supervisor` and `Transactions` a run is any
  sequence of steps, and a step that is not enabled changes nothing, so every interleaving is
  covered. The locked sections themselves are methods that update state in place
  (`Watchers.Watchers`, `Supervisor.Runtime`, `Transactions.Server`, `Pool.Spawner`); those of
  `Supervisor.Runtime` and `Transactions.Server` are proved to be runs of the steps.
- The event store, the space graph, the room list, the outcome of I/O and of service calls that are
  not part of this model are parameters.
- `hide` statements only keep proofs cheap: they take facts away from the verifier.

## What turned out not to hold

- A one-component tuple with an empty record, an option around an empty record or around an integer
  that starts with the byte 0xFF (for example `Some(-1)`), and a byte slice before the last
  component do not survive a round trip. `CodecTheorems.RoundTrip` gives the exact condition and
  `CodecTheorems.LostTuples` concrete tuples.
- Without debug assertions the reader can consume bytes that are not part of the encoding of what it
  returns. It never does so if and only if no integer, also inside an option, stands in front of
  another component, or a byte slice stands there and every read fails
  (`CodecAcceptance.UncheckedFaithfulExactly`; `CodecAcceptance.Misread` builds a misread buffer for
  every other schema). It can also leave bytes unread: on every schema but those that end in a byte
  slice or accept nothing (`CodecAcceptance.UncheckedConsumesExactly`). The assertions refuse exactly the
  readings that are not canonical (`CodecAcceptance.CheckedIsCanonicalUnchecked`).
- Reading components as `Ignore` does not always leave the others alone: it consumes the whole buffer and
  leaves the others unchanged if and only if no skipped record holds a separator, which an integer can
  (`CodecSkips.IgnoreProjects`). The values alone may come out right by luck (`CodecSkips.LuckySkip`).
- Signed integer keys sort numerically only if the signs agree (`CodecKeys.SignedOrder`).
- The reverse prefix streams start at the last key that is not above the prefix, so they miss every
  longer key (`Cursor.RevStreamPrefix`); they yield the rows of the prefix in reverse order if and only if no
  key is longer (`Cursor.RevPrefixExactly`). Nothing in the repository calls them.
- Not every queue of the pool is usable. A channel closes with its last receiver, and the receivers that no
  worker has cloned are dropped when the pool was made, so with fewer workers than queues the queues without
  a worker refuse every command (`Pool.UnservedRefuses`). A device whose queues report no depth gets a single
  worker, and a request is accepted exactly if it is routed to the first queue (`Pool.UntaggedDevice`).
- The per-room lock does not make a transaction id unique across rooms: for every transaction and any
  two rooms some run sends two events (`Transactions.TwoRooms`), so it is unique if and only if its
  requests name one room (`Transactions.UniqueExactly`).
- No device and an empty device id share their transactions (`Transactions.KeysAgree`).
- A `sendToDevice` request that looked up a transaction id before a message was sent with it empties the
  record afterwards, and the repeated message is refused (`Transactions.DeviceRace`); without such a request a
  repeated message is always answered (`Transactions.IdempotentSend`).
- A room that is visited while a pagination token is replayed can still be listed, if it is offered a second
  time (`SpaceToken.ReplayedNotListed` excludes just that case).
- The double-separator repair leaves a doubled key exactly for a key with three separators in a row
  (`Repairs.Table.FixDoubleSeparators`), and only without such keys may it run in any order
  (`Repairs.DoubleIsRepair`).
- The receipt clean-up leaves one receipt per room and user exactly when these receipts were adjacent
  (`Receipts.OneReceiptEach`), and the survivor is the oldest one (`Receipts.OldestSurvives`).
- Upload order matters for backup keys with missing fields (`Backup.OrderMattersIfIncomplete`). It does
  not matter if and only if every upload of a worse rank leaves an upload of the best rank acceptable
  (`Backup.OrderIrrelevantExactly`).
- With limit 0 the room pager points at the same page for ever (`Paging.ZeroLimit`).
- The comment in `src/api/client/space.rs` promises a depth-first order. The listing is nearest first
  (`SpaceWalk.GetHierarchy`); if no room leads to another one at its own distance, that is a depth-first order
  if and only if of the rooms at one distance only the last has farther children
  (`SpaceOrder.DepthFirstExactly`). `SpaceOrder.NotDepthFirst` is an example where it is not.
- `max_depth` bounds the number of distinct rooms whose children are looked at, not the depth
  (`SpaceWalk.GetHierarchy`, `SpaceOrder.FlatSpace`).
- The comment in `src/api/client/directory.rs` promises a maximum limit of 100, which the code does not
  enforce.

## Model

| member | source | states |
|---|---|---|
| `Bytes.SepNotInUtf8` | src/database/ser.rs:72-73 | the separator byte occurs in no valid UTF-8 string |
| `Bytes.ValidExactly` | src/database/de.rs:371-376 | a byte sequence is a string if and only if it is the concatenation of the UTF-8 bytes of Unicode scalar values |
| `Bytes.BigEndianOrder` | src/database/ser.rs:290 | fixed-width big-endian integers sort bytewise as they sort numerically, whatever follows |
| `Bytes.PrefixInterval` | src/database/map/stream_prefix.rs:68-77 | the keys that start with a prefix form an interval of the bytewise order |
| `Codec.EncodeSnoc` | src/database/ser.rs:98-103 | one more element appends a separator unless it is the first, and then its record |
| `Codec.PrefixKeyBytes` | src/database/ser.rs:218-223 | a trailing `Interfix` closes the last record with a separator and adds nothing else |
| `Codec.SeparatorBytes` | src/database/ser.rs:223-225 | the `Separator` directive adds a record that is a separator |
| `CodecTheorems.RecordReadBack` | src/database/de.rs:278-389 | a delimited record is read back as its value if and only if options are visible in it and a byte slice is last |
| `CodecTheorems.RoundTrip` | src/database/de.rs:21-32 | for every schema and every tuple: decoding the encoding gives the tuple back, fully consumed, if and only if the tuple is decodable |
| `CodecTheorems.EncodeInjective` | src/database/ser.rs:318-328 | two decodable tuples of one schema never have the same key |
| `CodecTheorems.LostTuples` | src/database/de.rs:433-443 | concrete tuples on which the round trip fails, one for each side condition |
| `CodecTheorems.TextRoundTrip` | src/database/de.rs:371-376 | every non-empty text survives a round trip |
| `CodecTheorems.BadText` | src/database/de.rs:371-376 | a string is refused if and only if its bytes are no text |
| `CodecTheorems.Faults` | src/database/de.rs:311-322 | an integer underflows if and only if eight bytes are missing; a missing record and, when checked, a missing separator have faults of their own |
| `CodecTheorems.IgnoreSkips` | src/database/de.rs:78-94 | `Ignore` skips one record inside a tuple and everything on its own |
| `CodecAcceptance.TupleIsEncoding` | src/database/de.rs:187-193 | what a reader returns is a readable tuple of the schema, as long as the bytes consumed; a checked reader consumed exactly its encoding |
| `CodecAcceptance.TupleSplit` | src/database/de.rs:433-443 | reading a longer schema is reading its front and going on where that stopped, with the same faults |
| `CodecAcceptance.AcceptedExactly` | src/database/de.rs:21-69 | the checked reader returns a tuple on exactly these buffers: its non-empty encoding, for a readable tuple of the schema, and that with one more separator unless it ends in a byte slice |
| `CodecAcceptance.AcceptedIsCanonical` | src/database/de.rs:57-69 | whatever the checked reader accepts is the encoding of its result, up to one trailing separator |
| `CodecAcceptance.CheckedIsCanonicalUnchecked` | src/database/de.rs:27-31 | the debug assertions refuse exactly the unchecked readings that are not canonical |
| `CodecAcceptance.UncheckedFaithfulExactly` | src/database/de.rs:124-133 | on a schema every unchecked read consumes exactly the encoding of its result if and only if no integer stands before the last component or a byte slice does |
| `CodecAcceptance.Misread` | src/database/de.rs:124-133 | for every other schema a buffer that is read although it is no encoding |
| `CodecAcceptance.UncheckedConsumesExactly` | src/database/de.rs:27-31 | on a schema every unchecked read consumes its whole buffer, or all but one separator, if and only if the schema ends in a byte slice or has one further in front |
| `CodecAcceptance.Unread` | src/database/de.rs:57-69 | for every other schema a buffer that is accepted and has bytes left over |
| `CodecAcceptance.UncheckedLeavesBytes` | src/database/de.rs:27-31 | for example a read that leaves two bytes behind, which the assertion reports |
| `CodecSkips.IgnoreProjects` | src/database/de.rs:82-88 | reading any choice of components as `Ignore` consumes the buffer and leaves the others unchanged if and only if no skipped record holds a separator |
| `CodecSkips.LuckySkip` | src/database/de.rs:57-69 | a skipped integer with a separator after which the remaining value is right by luck |
| `CodecSkips.IgnoreAllProjects` | src/database/de.rs:90-94 | `IgnoreAll` at any place keeps the components in front of it, whatever follows |
| `CodecKeys.UniqueRecord` | src/database/de.rs:99-105 | at one place of a buffer at most one value of a kind can be delimited |
| `CodecKeys.PrefixSelects` | src/database/ser.rs:62-65 | the prefix key of some components is a byte prefix of a row if and only if the row begins with these components |
| `CodecKeys.GroupIsContiguous` | src/database/ser.rs:98-108 | a row that sorts between two rows with equal leading components has the same leading components |
| `CodecKeys.UnsignedOrder` | src/database/ser.rs:290 | below equal leading components rows sort by their next u64, whatever follows |
| `CodecKeys.SignedOrder` | src/database/ser.rs:278 | for i64 the bytewise order is numeric if and only if the signs agree |
| `CodecMachine.Serializer.RecordStart` | src/database/ser.rs:98-103 | writes a separator exactly when a record was started before |
| `CodecMachine.Serializer.SerializeValue` | src/database/ser.rs:218-298 | appends the record of the value; only `Interfix` finalizes |
| `CodecMachine.Serializer.SerializeTuple` | src/database/ser.rs:318-328 | appends exactly the encoding of the tuple and returns to the same depth |
| `CodecMachine.SerializeToVec` | src/database/ser.rs:9-45 | produces the encoding of the tuple |
| `CodecMachine.Deserializer.RecordNext` | src/database/de.rs:99-105 | returns the bytes up to the next separator or the end and stops there |
| `CodecMachine.Deserializer.RecordTrail` | src/database/de.rs:138-142 | returns and consumes everything that is left |
| `CodecMachine.Deserializer.RecordIgnore` | src/database/de.rs:82-94 | skips one record inside a tuple and everything at the top level |
| `CodecMachine.Deserializer.RecordStart` | src/database/de.rs:124-133 | steps over the separator of every record but the first and reports a missing one |
| `CodecMachine.Deserializer.ReadWord` | src/database/de.rs:311-322 | reads eight bytes or reports an underflow |
| `CodecMachine.Deserializer.DeserializeValue` | src/database/de.rs:236-389 | reads one value of any kind as the record format prescribes |
| `CodecMachine.Deserializer.NextElement` | src/database/de.rs:433-443 | ends at the end of the buffer, otherwise reads the element behind the separator |
| `CodecMachine.Deserializer.DeserializeTuple` | src/database/de.rs:187-193 | reads all elements in order or reports the first fault |
| `CodecMachine.Deserializer.IsFinished` | src/database/de.rs:57-69 | nothing is left, or a single separator |
| `CodecMachine.Deserialize` | src/database/de.rs:21-32 | reads the tuple and, when checked, demands that everything was consumed |
| `CodecMachine.WriteThenRead` | src/database/tests.rs:395-413 | writing a tuple and reading it again gives the same tuple if and only if it is decodable |
| `Cursor.State.InitFwd` | src/database/stream.rs:61-73 | the items ahead are the entries with key at least `from`, or all |
| `Cursor.State.InitRev` | src/database/stream.rs:77-89 | the items ahead are the entries with key at most `from`, or all, in descending order |
| `Cursor.State.SeekFwd` | src/database/stream.rs:93-99 | moves to the next item ahead; the first move does not skip an item |
| `Cursor.State.SeekRev` | src/database/stream.rs:103-109 | the same, backwards |
| `Cursor.State.SeekAndGet` | src/database/stream.rs:40-43 | takes the first item ahead, or nothing for ever |
| `Cursor.State.SeekAndGetRev` | src/database/stream.rs:40-43 | the same, backwards |
| `Cursor.StreamFrom` | src/database/map/stream_from.rs:71-106 | yields exactly the entries with key at least `from`, ascending, each once; starting lazily gives the same as initialising without a key |
| `Cursor.RevStreamFrom` | src/database/map/rev_stream_from.rs:74-109 | yields exactly the entries with key at most `from`, descending, each once |
| `Cursor.PrefixStream` | src/database/map/stream_prefix.rs:68-77 | seeking to the prefix and stopping at the first other key selects exactly the keys with the prefix |
| `Cursor.StreamPrefix` | src/database/map/stream_prefix.rs:68-77 | yields exactly the entries whose key starts with the prefix, in order |
| `Cursor.RevPrefixStream` | src/database/map/rev_stream_prefix.rs:68-77 | seeking backwards from the prefix finds only the prefix itself |
| `Cursor.RevPrefixExactly` | src/database/map/rev_stream_prefix.rs:68-77 | the rows of the prefix in reverse order if and only if no key is a proper extension of the prefix |
| `Cursor.RevPrefixMisses` | src/database/map/rev_stream_prefix.rs:68-77 | for every prefix a table with two rows of it that yields nothing |
| `Cursor.RevStreamPrefix` | src/database/map/rev_stream_prefix.rs:68-77 | yields the entry stored under the prefix and no longer key |
| `Cursor.PrefixStreamRows` | src/database/map/stream_prefix.rs:33-43 | over a table of encoded rows the stream of a prefix key contains exactly the rows with these leading components |
| `MissingEvents.Frontier` | src/api/server/get_missing_events.rs:57-116 | every walk ends in an expanded event or passes the queue no deeper than its length |
| `MissingEvents.HeadDistance` | src/api/server/get_missing_events.rs:57-61 | a new event at the head of the queue is at exactly its queue depth from the latest events |
| `MissingEvents.Nearest` | src/api/server/get_missing_events.rs:97-108 | the collected events are distinct, in nondecreasing distance, and no omitted reachable event is nearer than a collected one |
| `MissingEvents.Drained` | src/api/server/get_missing_events.rs:57-116 | with an empty queue every reachable event was collected or is a latest event |
| `MissingEvents.GetMissingEvents` | src/api/server/get_missing_events.rs:45-122 | at most the requested number and at most 50, nearest events in reversed order, complete below both, all in the room, redacted if not visible; an error names a reachable event of another room; an answer below the limit means that all reachable events are in the room, and an answer with a positive limit that all known latest events are; the loop ends |
| `Watchers.Watchers.Watch` | src/database/watchers.rs:18-29 | joins the registered channel or registers a new one, never replacing one |
| `Watchers.Watchers.Scan` | src/database/watchers.rs:37-44 | lists exactly the registered prefixes of the key, each once |
| `Watchers.Watchers.RemoveAndSend` | src/database/watchers.rs:48-55 | removes and signals the listed prefixes that are still registered |
| `Watchers.SignalAllEffect` | src/database/watchers.rs:50-54 | after the removal loop a channel is signalled if and only if it was, or it was registered under a listed prefix |
| `Watchers.SecuredStep` | src/database/watchers.rs:18-56 | no step loses a channel: it stays registered or is signalled |
| `Watchers.SenderNeverVanishes` | src/database/watchers.rs:31-34 | in every reachable state the sender of each waiter is registered or has sent |
| `Watchers.NoLostWakeup` | src/database/watchers.rs:37-56 | when `wake` completes, every waiter registered on a prefix of the key before its scan has been signalled |
| `Watchers.NoFalseWakeup` | src/database/watchers.rs:37-56 | a waiter is signalled only by the end of a `wake` on a key with its prefix, and only after it has joined the channel |
| `Watchers.RowTriggers` | src/database/watchers.rs:40-44 | a watcher on a prefix key is triggered by a row if and only if the row begins with its components |
| `Pool.Spawner.SpawnUntil` | src/database/pool.rs:156-163 | worker `i` serves queue `i` modulo the number of queues |
| `Pool.Spawner.SpawnOne` | src/database/pool.rs:172-192 | adds one worker in the group of its id |
| `Pool.Spawner.DropReceivers` | src/database/pool.rs:81-98 | when the receivers go out of scope exactly the queues without a worker are closed, as in the initial state of the runs |
| `Pool.Spawner.CloseQueues` | src/database/pool.rs:128-130 | every queue is closed |
| `Pool.EvenCrews` | src/database/pool.rs:180-182 | each queue gets the floor of workers per queue, and the first ones one more |
| `Pool.StepInv` | src/database/pool.rs:243-340 | submit, hang-up, take, handle, close and exit keep queues, workers and fates consistent, no worker finds its command without a result channel, and a queue without a worker is closed and empty |
| `Pool.Shutdown` | src/database/pool.rs:100-153 | in every pool, after the joins the queues are empty and each accepted command was taken once and answered unless its requester had gone |
| `Pool.ClosedStep` | src/database/pool.rs:307-314 | after the queues were closed each effective worker action uses up some of the remaining work and nothing adds to it |
| `Pool.ActionsBounded` | src/database/pool.rs:307-314 | every run of a closed pool has at most as many effective worker actions as work was left |
| `Pool.QuietIsJoined` | src/database/pool.rs:144-152 | a closed pool in which no worker can act is joined |
| `Pool.ReachesJoined` | src/database/pool.rs:144-152 | from every closed pool some run joins all workers |
| `Pool.CloseTerminates` | src/database/pool.rs:117-153 | from every reachable state with closed queues, whatever happens next: worker actions are bounded, quiet means joined, and a joined state is still in reach |
| `Pool.Fifo` | src/database/pool.rs:77-84 | in every run the commands taken from a queue and those still in it are the accepted ones, in the order of acceptance |
| `Pool.Reply` | src/database/pool.rs:349-354 | a taken command is answered if and only if its requester has not gone by then |
| `Pool.CloseDrains` | src/database/pool.rs:117-153 | from every reachable state closing the queues leads to a joined pool |
| `Pool.Served` | src/database/pool.rs:180-182 | exactly the queues below the number of workers have one |
| `Pool.UnservedRefuses` | src/database/pool.rs:243-252 | in every run a queue without a worker is empty and refuses every command |
| `Pool.AcceptedExactly` | src/database/pool.rs:243-252 | until a queue is closed it accepts a new command if and only if it has a worker |
| `Pool.UntaggedDevice` | src/database/pool/configure.rs:16-121 | hardware queues without tags are given one worker, and a request is accepted if and only if its processor belongs to the first queue or to none |
| `Pool.Share` | src/database/pool/configure.rs:33-45 | a queue wants the least of its tags, the limit per processor and the number of requests |
| `Pool.TaggedDevice` | src/database/pool/configure.rs:29-93 | at most 1024 queues that all report tags get a worker each, and together the sum of their shares up to 1024 |
| `Pool.NoHardware` | src/database/pool/configure.rs:24-25 | without hardware queues one queue with the configured number of workers, from 1 to 1024 |
| `Supervisor.Runtime.StartWorker` | src/service/manager.rs:151-167 | adds a live task, or fails and adds none when the server is stopped |
| `Supervisor.Runtime.Start` | src/service/manager.rs:45-72 | is a run of `Begin`, `StartNext` and `Shutdown` steps, with the server stopped in front of any spawn; succeeds if and only if no spawn found the server stopped; the new tasks are one live task per service in order |
| `Supervisor.Runtime.HandleResult` | src/service/manager.rs:104-148 | is `Join`, a `Shutdown` if one comes during the restart delay, and `Restart`; an error if and only if a worker failed, or panicked and could not be restarted, on a running server; a restarted service has a new live task |
| `Supervisor.StepInv` | src/service/manager.rs:45-167 | every step keeps lock ownership, single tasks and the account of every service |
| `Supervisor.AtMostOneWorker` | src/service/manager.rs:151-167 | in every reachable state no two tasks belong to one service |
| `Supervisor.NoTaskBefore` | src/service/manager.rs:45-58 | until `start` has begun there is no task |
| `Supervisor.NoEarlyFinish` | src/service/manager.rs:45-72 | while `start` spawns workers the manager waits for the lock |
| `Supervisor.ManagerProgress` | src/service/manager.rs:83-102 | a free lock lets the manager join any ended task, and end when there is none |
| `Supervisor.CleanFinish` | src/service/manager.rs:83-148 | a manager that ends Ok leaves no task, and each service ended fine, ended during shutdown, or was never started because of it |
| `Transactions.KeysAgree` | src/service/transactions/mod.rs:135-159 | the hand-built key of a transaction is the codec's key, and two transactions share it if and only if user, device bytes and transaction id agree |
| `Transactions.Server.SendMessage` | src/api/client/send.rs:43-104 | an undisturbed request is answered with the recorded id and sends nothing, or appends one event, records and answers its id, or fails and records nothing |
| `Transactions.WholeRun` | src/api/client/send.rs:43-104 | the atomic steps taken one after the other are what the handler does in one go |
| `Transactions.StepInv` | src/api/client/send.rs:43-102 | every step keeps the lock discipline, genuine ids and one event per transaction and room |
| `Transactions.AtMostOneEvent` | src/api/client/send.rs:51-93 | over every interleaving a room receives at most one event of a transaction |
| `Transactions.RepliesAreGenuine` | src/api/client/send.rs:57-69 | a successful response carries the id of an event of that transaction, never an empty record |
| `Transactions.RepliesAgree` | src/api/client/send.rs:65-69 | if the requests of a transaction name one room, all successful responses are equal |
| `Transactions.RefusalReleases` | src/api/client/send.rs:43-49 | a refused request leaves no trace and does not keep its room |
| `Transactions.SettledRun` | src/api/client/send.rs:43-104 | a settled transaction stays settled in every run: no further event and no other answer |
| `Transactions.RepeatAnswered` | src/api/client/send.rs:51-70 | a request of a recorded transaction is answered from the record, an empty one with a failure, and changes neither timeline nor records |
| `Transactions.IdempotentSend` | src/api/client/send.rs:51-70 | once a request was answered, with one room and no use of the id for `sendToDevice`, then after any further steps every undisturbed request of the transaction gets the same id and sends nothing |
| `Transactions.DeviceTakesId` | src/api/client/to_device.rs:28-108 | an undisturbed `sendToDevice` request takes the id: a message with it is refused and a second such request changes nothing |
| `Transactions.DeviceRace` | src/api/client/to_device.rs:28-108 | for every transaction and room a run in which a repeated message is refused because of a `sendToDevice` request in between |
| `Transactions.TwoRooms` | src/api/client/send.rs:43 | for every transaction and any two rooms, a run that sends one event of it into each |
| `Transactions.OneRoomUnique` | src/api/client/send.rs:43 | if the requests of a transaction name one room, the whole timeline holds at most one event of it |
| `Transactions.UniqueExactly` | src/api/client/send.rs:43-93 | the requests of a transaction being confined to some rooms, it is unique in every run if and only if these are at most one |
| `Transactions.RetryAfterFailure` | src/api/client/send.rs:78-100 | a failed append changes no record and no timeline, and the retry is answered |
| `Repairs.MissingBecomesPair` | src/service/migrations.rs:581-589 | an unseparated room-then-event key becomes the encoding of (room, event) |
| `Repairs.MissingUndone` | src/service/migrations.rs:584-588 | dropping the first separator of a repaired key gives the old key, so repairs are injective |
| `Repairs.Table.FixMissingSeparators` | src/service/migrations.rs:569-596 | succeeds if and only if every key has a separator or is a text with a dollar sign; then every row sits under its repaired key, no unseparated key is left and `fixed` counts the repairs, for any visiting order and any visibility of its own writes |
| `Repairs.DoubleBecomesPair` | src/service/migrations.rs:444-461 | a doubly separated key becomes the encoding of (room, user) |
| `Repairs.DoubleIdempotent` | src/service/migrations.rs:449-461 | repairing twice is repairing once if and only if there is no third separator in a row |
| `Repairs.DoubleUndone` | src/service/migrations.rs:459 | doubling the first separator of a repaired key gives the old key |
| `Repairs.DoubleIsRepair` | src/service/migrations.rs:449-461 | the repair may run in any order and see its own writes if and only if no key has three separators in a row |
| `Repairs.DoubleSinks` | src/service/migrations.rs:456-461 | a repaired key sorts in front of the old one, so the iterator does not meet it |
| `Repairs.Table.FixDoubleSeparators` | src/service/migrations.rs:436-464 | on every table: succeeds if and only if every key has a separator; then every row sits under its repaired key, each row was visited once although the table changed, and a doubled key is left if and only if a key had three separators in a row |
| `Repairs.Table.Rewrite` | src/service/migrations.rs:572-596 | in any visiting order the streaming loop moves every broken row to its repaired key with its value |
| `Repairs.SecondRunIsIdle` | src/service/migrations.rs:569-596 | a second run finds nothing to repair and leaves the table as it is |
| `Receipts.Table.CleanUp` | src/service/migrations.rs:618-648 | the first row of each run of equal (room, user) stays, and deleted plus kept is the total |
| `Receipts.HeadsDiffer` | src/service/migrations.rs:640-643 | no two adjacent survivors agree |
| `Receipts.SecondPassIsIdle` | src/service/migrations.rs:618-648 | a second pass deletes nothing |
| `Receipts.PairsPreserved` | src/service/migrations.rs:618-648 | the set of (room, user) pairs is preserved |
| `Receipts.OldestSurvives` | src/service/migrations.rs:640-643 | in key order a deleted receipt has an older survivor of its pair |
| `Receipts.OneReceiptEach` | src/service/migrations.rs:618-648 | one receipt per pair is left if and only if the receipts of each pair were adjacent |
| `Receipts.TakingTurns` | src/service/migrations.rs:640-643 | a table in which two users keep all their receipts |
| `Migrations.Database.UpgradeTo` | src/service/migrations.rs:99-111 | a version step runs below its version and bumps at its end |
| `Migrations.PlanIsNeed` | src/service/migrations.rs:99-229 | the ordered plan holds exactly the needed work |
| `Migrations.OldestPlan` | src/service/migrations.rs:99-229 | on a database at version 11 without markers all ten units are done, in this order |
| `Migrations.Database.ApplyFix` | src/service/migrations.rs:129-140 | a fix runs when its marker is missing or when it is forced |
| `Migrations.Database.MigrateMedia` | src/service/migrations.rs:113-127 | the media migration, or the optional check |
| `Migrations.Database.MigrateVersions` | src/service/migrations.rs:99-127 | the upgrades and the media migration or check |
| `Migrations.Database.MigrateMembers` | src/service/migrations.rs:129-156 | the two membership fixes |
| `Migrations.Database.MigrateTables` | src/service/migrations.rs:158-189 | the two fixes that repeat below version 17, and the bump |
| `Migrations.Database.MigrateLast` | src/service/migrations.rs:191-229 | the remaining fixes and the bump to 18 |
| `Migrations.Database.MigrateAll` | src/service/migrations.rs:99-229 | the plan is done in its order up to and with the first failure |
| `Migrations.Database.Migrate` | src/service/migrations.rs:88-238 | version and markers only grow wherever it stops; the work is done in order up to the first failure; it succeeds if and only if the version is 11 to 18 and nothing it had to do failed; then the database is complete, the upgrade to 12 ran exactly from version 11, that to 13 exactly from 11 and 12, and a fix exactly without its marker or, for two of them, below version 17; below 11 nothing changes |
| `Migrations.Database.Fresh` | src/service/migrations.rs:60-85 | a fresh database is complete even if the admin room fails |
| `Migrations.Database.Migrations` | src/service/migrations.rs:37-58 | success means complete; a missing server user or an old version is refused unchanged; a newer version never completes |
| `Migrations.SecondRun` | src/service/migrations.rs:88-238 | on a complete database nothing but the optional media check is done |
| `Migrations.Attempts` | src/service/migrations.rs:88-238 | any number of attempts that fail anywhere, then one that does not, ends complete |
| `SpaceWalk.StaleAppend` | src/api/client/space.rs:118-122 | queueing the selected children adds no entry that was already expanded |
| `SpaceWalk.HeadIsNearest` | src/api/client/space.rs:98-163 | a room that is listed for the first time was queued at exactly its distance |
| `SpaceWalk.NextLevel` | src/api/client/space.rs:115-163 | when a level is done and nothing was cut off, the whole next level was listed or is queued |
| `SpaceWalk.AllListed` | src/api/client/space.rs:153-162 | a walk that lists at most `max_depth` distinct rooms lists all accessible rooms under the root |
| `SpaceWalk.GetHierarchy` | src/api/client/space.rs:70-165 | ends on every graph; forbidden if and only if the root is not accessible; returned rooms are accessible and reachable through accessible rooms; at most max(limit, 1) of them; without a token nearest first, with nothing nearer left out; without a token and below the limit exactly the accessible rooms that are the root or a child of one of the first `max_depth` distinct rooms listed |
| `SpaceTour.SkipsExactly` | src/api/client/space.rs:127-146 | a token skips the children in front of the first one that has its short id or none, and no others |
| `SpaceTour.HierarchyIsTour` | src/api/client/space.rs:98-165 | every answer is a tour from the place on where as many distinct rooms were visited as the token is long; below the limit the tour visits everything that was offered |
| `SpaceToken.TourUnique` | src/api/client/space.rs:98-165 | graph and query determine the tour, hence the listing and its order |
| `SpaceToken.VisitSelected` | src/api/client/space.rs:115-163 | every visit but the first was selected by an earlier one in front of the cut-off |
| `SpaceToken.VisitedExactly` | src/api/client/space.rs:115-163 | below the limit exactly the accessible rooms are visited that are the root or were selected by a visit in front of the cut-off |
| `SpaceToken.ReplayedNotListed` | src/api/client/space.rs:116-126 | a room visited while the token is replayed and offered only once is not listed |
| `SpaceToken.TokenListing` | src/api/client/space.rs:98-165 | for a token of any length and below the limit: apart from the rooms visited while it is replayed, exactly the accessible rooms are listed that are the root or selected; a child in front of the place the token names is not selected |
| `SpaceToken.TokenOfOne` | src/api/client/space.rs:116-163 | with one short id every listed room is or is below an accessible child of the root at or behind the named one, and below the cut-offs all of these children are listed |
| `SpaceOrder.FlatSpace` | src/api/client/space.rs:153-162 | below the limit all accessible children of the root are listed unless `max_depth` is 0 |
| `SpaceOrder.FartherIsLater` | src/api/client/space.rs:98-163 | in such a listing a room that is farther away is first listed behind a nearer one |
| `SpaceOrder.SplitSubtree` | src/api/client/space.rs:24-27 | on any graph, two rooms at one distance of which the first leads to a farther listed child and not to the second make the listing not depth-first |
| `SpaceOrder.DepthFirstExactly` | src/api/client/space.rs:24-27 | with no room leading to another at its own distance, a complete listing is depth-first if and only if of the rooms at one distance only the last has farther children |
| `SpaceOrder.NotDepthFirst` | src/api/client/space.rs:118-122 | an example: on every graph with children a, b of the root and c of b the listing is root, b, a, c, which is not depth-first |
| `Backup.Store.Add` | src/api/client/backup.rs:206-276 | accepts if and only if the compared fields are there; a verified key is kept against or replaces an unverified one, otherwise the lower index and then the lower count decides, and the stored key stays on a tie |
| `Backup.BestKeyKept` | src/api/client/backup.rs:206-276 | over any history the stored key is the best accepted upload and the earliest of its rank |
| `Backup.VerifiedStays` | src/api/client/backup.rs:223-227 | once a verified upload was accepted the stored key is verified for good |
| `Backup.LowestIndexKept` | src/api/client/backup.rs:229-244 | no accepted upload that is verified as the stored key is has a lower index |
| `Backup.OrderIrrelevantExactly` | src/api/client/backup.rs:206-276 | all orders of a history end with the same rank if and only if every upload of a worse rank leaves some upload of the best rank acceptable |
| `Backup.OrderIrrelevant` | src/api/client/backup.rs:223-262 | for fully populated keys the final rank does not depend on the order of the uploads |
| `Backup.OrderMattersIfIncomplete` | src/api/client/backup.rs:214-221 | two keys, one without `is_verified`, for which it does |
| `Paging.ParsePrint` | src/api/client/directory.rs:273-276 | parsing a printed offset gives the offset |
| `Paging.NextToken` | src/api/client/directory.rs:263-281 | a printed `n` token stands for its offset, a `p` token for the page in front of it |
| `Paging.FilterExactly` | src/api/client/directory.rs:289-318 | a room is kept as often as it occurs if it is wanted, and not at all otherwise |
| `Paging.InvalidTokens` | src/api/client/directory.rs:261-281 | a token is refused unless it is an `n` or a `p` in front of a number |
| `Paging.SortCorrect` | src/api/client/directory.rs:323 | the listing is in descending member count, has the same rooms, and keeps the order of equal rooms |
| `Paging.ListingExactly` | src/api/client/directory.rs:289-323 | the listing has the wanted rooms as often as they occur, in descending member count, and those of one size in the order in which they came |
| `Paging.ParseSince` | src/api/client/directory.rs:261-281 | the offset of a token, or an invalid token |
| `Paging.GetPage` | src/api/client/directory.rs:259-344 | the slice of the listing, the tokens of its neighbours, and an overflow when offset plus limit does not fit |
| `Paging.FollowNext` | src/api/client/directory.rs:329-336 | for a limit of at least 1 following `next_batch` ends, and the pages are exactly the wanted rooms, as often as they occur, in descending member count |
| `Paging.PreviousPage` | src/api/client/directory.rs:331 | `prev_batch` leads to the page directly in front, whose `next_batch` leads back |
| `Paging.ZeroLimit` | src/api/client/directory.rs:333-336 | with limit 0 a page is empty and points at itself |

## Left out

- JSON, CBOR, raw values, `deserialize_any`, nested sequences and the write-only u8, u32 and i32 forms of the codec: foreign formats, or forms that cannot be read back.
- CodecMachine.Serializer.SerializeTuple: the output buffer is unbounded, so a full fixed-size buffer is not modelled.
- Cursor.State.SeekAndGet: the status errors of the storage engine are not modelled; a table is read as it was opened.
- MissingEvents.GetMissingEvents: the access checks, the failure of a redaction and the order among events of equal distance are not stated; the reversed result is not topologically sorted.
- Watchers.Watchers.RemoveAndSend: that a send finds a receiver is not a separate state; the removed pair holds its own receiver.
- Pool.Shutdown: queue capacity, core affinity and the queue choice of the submitter are left open; a sender that waits for room counts as not yet accepted.
- Pool.UntaggedDevice: queue sizes, the building of the processor topology and the saturation of sums are not part of the configuration model.
- Supervisor.CleanFinish: an aborted worker task, which the source does not support, is not a step.
- Transactions.Server.SendMessage: waiting for the room is not part of the method; the interleavings are those of `Transactions.Do`. A crash between the append and the record is not modelled.
- Repairs.Table.FixMissingSeparators: the logged `total`, which is the last index rather than a count, is not returned.
- Migrations.Database.Migrate: the bodies of the other fixes are outcomes; the warnings behind the version assertion change nothing.
- SpaceWalk.GetHierarchy: the `next_batch` token and failures of the spaces service are not modelled; rooms may be listed more than once.
- Backup.Store.Add: failures of the key store; deletes and the bulk upload routes, which overwrite unconditionally.
- Paging.GetPage: the remote directory branch and the text search, which is a parameter.
- The membership rewrite in `src/service/migrations.rs` lines 472-561: its two filters are identical and the functions it calls are not part of this model.
- Authentication, ACLs, admin commands, media, push, profiles, web pages, deployment and the configuration other than that of the pool.
