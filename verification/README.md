# Client-Server: verified models

A Dafny model of the parts of the Client-Server collection that do more than
move bytes: the two database sessions that take turns through advisory locks,
the inverted index built in SQL, the thread pool, the percent decoder and the
path check of the HTTP/2 server, the Internet checksum, the pet store, the
trace sampler and the Redis argument parser.  `dafny verify dfyconfig.toml`
checks all of it.

## What is modelled

**Handshake** (`Handshake`, `HandshakeSafety`, `HandshakeProgress`, `Isolation`).
The two SQL scripts are a step relation over a table of re-entrant advisory
locks, two program positions, a small multi-version table and a log.  A step is
one statement; runs are arbitrary sequences of steps, so either session may
poll for as long as it likes.  The protocol has any number of gates; the
scripts are the instance with five, and `ScriptOfT1` and `ScriptOfT2` read them
back statement by statement.  The safety results hold for any number of gates.
Completion holds exactly for two gates or more: with fewer, T1 can finish and
release its readiness lock while T2 is still polling for it, and T2 then polls
for ever.  `database/postgres/Concurrency.md` says that T2's snapshot is fixed at
step 12; in PostgreSQL the first query of the transaction, the lock call at line
132, already fixes it.  The model lets the snapshot be fixed at any moment from
T2's BEGIN to its first read (`SnapshotAnyTime`), and the results hold for all of
them.

**Thread pool** (`ThreadPool`, `PoolObject`).  A step relation for the pool, its
workers, the channel, the mutex and its poisoning, and a class whose methods are
the steps.  The guard is dropped before the job runs, so a panicking job cannot
poison the lock; a closed and drained channel does.  When the last receiver
handle goes, queued jobs go with it, and `LossNeedsAllWorkersPanicked` says what
that takes.

**Inverted index** (`Splitting`, `InvertedIndex`).  Splitting, numbering, grouping
and the two queries as functions, for any locale.  The reference is a scan: a document has a
word when the word stands in its text with no letter or digit next to it.  The
query results hold for any table that satisfies the GROUP BY, in any row order.

**Percent decoder and path check** (`PercentDecoding`, `PathCheck`).  The decoder
is right exactly when no `%XX` reaches into the last two bytes
(`DecodesIffEndsLiteral`; `DecodingGoesWrong` has two inputs on which it is not):
its final copy of two bytes assumes that the scan stopped two bytes before the
end, and values of three bytes are copied without decoding.  A caller who takes
the result for a C string also loses what follows a `%00` (`CallerSeesDecoded`).  Otherwise the copy
reads one or two bytes behind the value (`StopIs`), which are a parameter.

**Internet checksum** (`InternetChecksum`).  Two folds equal folding to the end for
all inputs of a length exactly up to 65538 words.  `unsigned long` has 64 bits.

**Pet store** (`PetStore`, `PetStoreRuns`, `PetStoreContents`, `PetStoreObject`).  A class with the id
pointers as references to cells, proved to do what functions on values do, and
results about those functions over all runs.  Three things one would expect of
the ids do not hold.  A pet added without an id shows another one after the next
such add (`ShowsAnotherIdIff`, `SecondAddSpoilsFirst`), an add without an id can
replace a pet (`LosesIffAhead`, `AddCanOverwrite`), and keys stop increasing when
the int64 counter wraps around (`KeysIncreaseIff`).  Handlers are atomic, as the
store's lock makes them; request bodies are already decoded, or `None` where
decoding failed.

**Sampler** (`Sampler`).  Doubles are reals, and rounding is a parameter of which
only three properties are used: monotone, exact on integers of 53 bits, and a
relative error of 2^-53.  Under any such rounding nothing overflows, raising the
ratio drops nothing, and the share kept is right to within 2^14 + 1 of 2^64
words; without rounding it is right to within one.

**Argument parser** (`ArgParser`).  The loops as methods; Redis' number conversions
are parameters.

## Model

| member | source | states |
|---|---|---|
| HandshakeSafety.ExecutedInOrder | database/postgres/test_pg.sh:83-159 | In every interleaving, for any number of gates, the statements executed so far are an initial part of the segments put in turn |
| HandshakeSafety.MutualExclusion | database/postgres/test_pg.sh:68-78 | The sessions are never both inside a segment |
| HandshakeSafety.CompleteAtEnd | database/postgres/test_pg.sh:115-159 | When both sessions have ended, everything was executed and no lock is held |
| HandshakeSafety.HoldsStep | database/postgres/test_pg.sh:83-87 | Which locks a session holds at each position changes with each statement exactly as the statement says |
| HandshakeSafety.OneAtWork | database/postgres/test_pg.sh:98-113 | A session past a gate finds the other one waiting at the next |
| HandshakeProgress.NeverDeadlocks | database/postgres/test_pg.sh:87-159 | With two gates or more every reachable state can be run to completion |
| HandshakeProgress.CompletesIffTwoGates | database/postgres/test_pg.sh:75-87 | That holds exactly for two gates or more: with fewer there is a run after which T2 polls for ever |
| HandshakeProgress.PollEndsOnceAnnounced | database/postgres/test_pg.sh:87-126 | A poll leaves its loop exactly when the other session has announced itself |
| HandshakeProgress.WaitsIff | database/postgres/test_pg.sh:83-159 | In every reachable state a session can go on unless it would announce itself while the other has just polled that lock, or is at a gate the other has yet to open |
| HandshakeProgress.SnapshotAnyTime | database/postgres/test_pg.sh:128-145 | At every moment of T2's transaction at which its snapshot is not fixed, some run fixes it there with what is committed then; with two gates or more that run can be completed |
| HandshakeProgress.SnapshotOnlyThen | database/postgres/test_pg.sh:128-159 | T2 has a snapshot only once its transaction has begun, and once fixed it never changes |
| HandshakeProgress.StatementsOfCompleteRun | database/postgres/test_pg.sh:83-159 | A complete run executes exactly the statements of the two scripts, and two more for each poll that found the lock free |
| HandshakeProgress.OnlyPollingIsLong | database/postgres/test_pg.sh:83-159 | Every run is at most as long as the scripts, a snapshot and two statements for each poll that found the lock free |
| HandshakeProgress.EndsByItself | database/postgres/test_pg.sh:89-159 | Once both have left their polling loops, every schedule ends within the statements left, and stops only when both are done |
| Isolation.ScriptOfT1 | database/postgres/test_pg.sh:83-117 | The five-gate protocol read off position by position is T1's script |
| Isolation.ScriptOfT2 | database/postgres/test_pg.sh:123-159 | And T2's |
| Isolation.ThirtySixStatements | database/postgres/test_pg.sh:83-159 | With five gates that is 36 statements, 18 in each script |
| Isolation.FiveGatesIsScenario | database/postgres/test_pg.sh:92-159 | Its segments put in turn are steps 8 to 15 |
| Isolation.StepsInOrder | database/postgres/test_pg.sh:92-159 | Steps 8, 9, ..., 15 happen in this order in every run |
| Isolation.ReadsAreIsolated | database/postgres/test_pg.sh:94-155 | For every initial table, every run and every moment of T2's snapshot: steps 8 and 10 return the initial rows sorted, steps 12 and 14 the initial rows and 4 sorted |
| Isolation.BothInsertsSurvive | database/postgres/test_pg.sh:108-159 | After both commits the table has the initial rows, 4 and 5 |
| Isolation.TestAssertionsHold | database/postgres/test_pg.sh:198-201 | With the test's table the four queries return what the test asserts |
| ThreadPool.EveryJobInOnePlace | concurrency/rust/rust_web_server/example_web_server/src/pool.rs:37-56 | In every run each ticket is in exactly one of: not sent, queued, running, finished, panicked, discarded |
| ThreadPool.TakenInOrder | concurrency/rust/rust_web_server/example_web_server/src/pool.rs:43-53 | Jobs are received in the order of submission, each once |
| ThreadPool.LockIsExclusive | concurrency/rust/rust_web_server/example_web_server/src/pool.rs:49-56 | In every run the lock belongs to a worker exactly when it waits in recv, so to one at most, and never to one that runs a job |
| ThreadPool.PoisonStrandsNoJob | concurrency/rust/rust_web_server/example_web_server/src/pool.rs:53 | The lock is poisoned only when the sender is gone and nothing is queued or lost, and nobody holds it afterwards |
| ThreadPool.LossNeedsAllWorkersPanicked | concurrency/rust/rust_web_server/example_web_server/src/pool.rs:49-56 | Queued jobs are lost only when as many jobs panicked as there are workers, all dead |
| ThreadPool.HandlesAreLiveWorkers | concurrency/rust/rust_web_server/example_web_server/src/pool.rs:21-34 | After the constructor the receiver handles are as many as the live workers |
| ThreadPool.ExecuteFailsIffAllDead | concurrency/rust/rust_web_server/example_web_server/src/pool.rs:37-44 | Sending fails exactly when all workers are dead, and otherwise queues the job last |
| ThreadPool.NextJobWithinTwoSteps | concurrency/rust/rust_web_server/example_web_server/src/pool.rs:49-56 | With a job queued and a live worker without one, the next job can be taken within two steps |
| ThreadPool.WorkersNeverSpin | concurrency/rust/rust_web_server/example_web_server/src/pool.rs:49-56 | In every run the workers take at most four steps per submission and two per worker |
| ThreadPool.RestMeansDone | concurrency/rust/rust_web_server/example_web_server/src/pool.rs:37-56 | When no worker can move, every received job has ended; unless all workers panicked every sent job was received; after the pool was dropped all workers are dead |
| ThreadPool.DroppedPoolEnds | concurrency/rust/rust_web_server/example_web_server/src/pool.rs:49-56 | After a run in which the pool was dropped, workers that cannot move are all dead, and unless all panicked every sent job has ended |
| PoolObject.Executor.constructor | concurrency/rust/rust_web_server/example_web_server/src/pool.rs:18-35 | Builds a reachable pool of idle workers with one handle each |
| PoolObject.Executor.Execute | concurrency/rust/rust_web_server/example_web_server/src/pool.rs:37-44 | Queues the job exactly when some worker lives; the object stays a reachable pool |
| PoolObject.Executor.LockReceiver | concurrency/rust/rust_web_server/example_web_server/src/pool.rs:53 | Takes the free lock, or ends the thread when it is poisoned |
| PoolObject.Executor.ReceiveJob | concurrency/rust/rust_web_server/example_web_server/src/pool.rs:53 | Takes the first queued job, or ends the thread with the lock poisoned; the lock is free either way |
| PoolObject.Executor.RunJob | concurrency/rust/rust_web_server/example_web_server/src/pool.rs:55 | The job's end leaves the lock and its poisoning alone |
| Splitting.SplitIff | database/postgres/test_pg.sh:478-481 | The pieces of the split are the only ones, empty at the ends at most, that joined by runs of separators are the text |
| Splitting.PieceIffOccurs | database/postgres/test_pg.sh:478-481 | The non-empty pieces of the split are the whole words that stand in the text |
| InvertedIndex.BuildIsIndex | database/postgres/test_pg.sh:473-486 | The groups can be computed: unique keys, one row per group, positions sorted |
| InvertedIndex.PiecesIff | database/postgres/test_pg.sh:478-481 | The numbered pieces of a document are the only ones that make up its lowered text with runs of separators between them |
| InvertedIndex.PostingIffContains | database/postgres/test_pg.sh:467-486 | There is a posting for a term and a document exactly when the term stands in the raw text, each character lowered, with no letter or digit next to it |
| InvertedIndex.LookupIsScan | database/postgres/test_pg.sh:489-490 | The posting list of a term is strictly increasing and has exactly the documents with that word |
| InvertedIndex.LookupBothIsScan | database/postgres/test_pg.sh:493-497 | The self-join is strictly increasing and has exactly the documents with both words |
| InvertedIndex.RowPositions | database/postgres/test_pg.sh:484-492 | A row's positions are strictly increasing and are exactly where the term stands in the document |
| InvertedIndex.PositionsPartition | database/postgres/test_pg.sh:473-486 | The rows of a document divide up one interval of positions that starts at 1 or 2: a position is in some row exactly when it is in the interval, in one row only, and the row's term is the word there |
| InvertedIndex.RebuildIsDocument | database/postgres/test_pg.sh:473-486 | The words of every document can be read back, in order, from the index alone |
| PercentDecoding.PercentDecode | http2/nghttp2_server/nghttp2.h:184-206 | All writes stay in the n + 1 bytes, the result is terminated, and its bytes are the scan's output and the two bytes where it stopped; nothing is asked of the memory behind the value unless the copy reads it |
| PercentDecoding.DecodesIffEndsLiteral | http2/nghttp2_server/nghttp2.h:184-206 | Those bytes are the decoded value (section 2.1 of RFC 3986) exactly when no triplet reaches into the last two |
| PercentDecoding.DecodingGoesWrong | http2/nghttp2_server/nghttp2.h:187-203 | Two values on which they are not |
| PercentDecoding.CallerSeesDecoded | http2/nghttp2_server/nghttp2.h:180-206 | As a C string the result is the decoded value exactly when the value has neither a zero byte nor `%00`, and either no triplet reaches into the last two bytes or a scanned value is followed by a zero byte |
| PercentDecoding.ZeroCutsShort | http2/nghttp2_server/nghttp2.h:180-206 | `/%00ab` is decoded, and the caller sees `/` |
| PercentDecoding.StopIs | http2/nghttp2_server/nghttp2.h:188-199 | The final copy reads past the value exactly when a triplet reaches into the last two bytes: two bytes when it ends there, one when it ends a byte earlier |
| PercentDecoding.TripletsAre | http2/nghttp2_server/nghttp2.h:165-199 | A triplet is `%` and two digits, each in either spelling, and stands for the number the digits make |
| PercentDecoding.CodeInvertsEncode | http2/nghttp2_server/nghttp2.h:184-206 | The code undoes every byte-wise encoding, digits in either spelling, followed by any two bytes |
| PathCheck.CheckPathIsSegmentWise | http2/nghttp2_server/nghttp2.h:343-349 | Accepted are exactly the absolute paths without backslash none of whose segments is `.` or `..` |
| PathCheck.CheckPathIffNothingRemoved | http2/nghttp2_server/nghttp2.h:341-349 | On absolute paths without backslash the check accepts exactly what remove_dot_segments (section 5.2.4 of RFC 3986) leaves unchanged |
| PathCheck.SubstringsAreSegments | http2/nghttp2_server/nghttp2.h:155-163 | The substring and suffix tests together find exactly the segments |
| PathCheck.SegmentsIff | http2/nghttp2_server/nghttp2.h:341-349 | The segments of a text are the only ones without a slash that, joined by slashes, are the text |
| InternetChecksum.Checksum | sockets/raw_socket_client.cc:10-18 | Computes the two folds of the sum of the words without the accumulator wrapping around; a count of zero or less sums nothing |
| InternetChecksum.AgreeIffNoCarry | sockets/raw_socket_client.cc:15-17 | Two folds equal folding to the end exactly when the second fold leaves no carry |
| InternetChecksum.CorrectUpToLength | sockets/raw_socket_client.cc:10-18 | All inputs of a length get the checksum of section 4.1 of RFC 1071 exactly when the length is at most 65538 words |
| InternetChecksum.SealedHeaderVerifies | sockets/raw_socket_client.cc:49 | Writing the checksum into its zeroed word makes the checksum of the whole 0 |
| InternetChecksum.SingleWordErrors | sockets/raw_socket_client.cc:10-18 | In a header that checks out a change of one word goes unnoticed exactly between 0 and 65535, and not even then when it leaves nothing but zeros |
| InternetChecksum.ByteOrderIndependent | sockets/raw_socket_client.cc:10-18 | Swapping the bytes of every word swaps the bytes of the checksum |
| InternetChecksum.SealHeader | sockets/raw_socket_client.cc:39-49 | Changes only octets 10 and 11, to the checksum, after which the header checks out |
| PetStoreRuns.CounterAfter | k8s/example-pod/handlers.go:23-27 | In every run the counter has moved once for each add without an id, rejected or not, wrapping around as an int64 |
| PetStoreRuns.KeysIncreaseIff | k8s/example-pod/handlers.go:23-37 | The keys given to pets without an id increase strictly, whatever was rejected in between, in all runs that take n numbers exactly when 3 + n is at most 2^63 - 1 |
| PetStoreRuns.IdDecidedByLastStore | k8s/example-pod/handlers.go:14-60 | The id pointer of a pet is its own after an add or update that names it, the counter after an add that does not, and nothing else changes it |
| PetStoreRuns.ShowsAnotherIdIff | k8s/example-pod/handlers.go:14-60 | In every run a pet shows an id other than its key exactly when the last accepted add or update that stored it was an add without an id and more of those, accepted or rejected, came after it (not a multiple of 2^64 of them) |
| PetStoreRuns.StaleAfterNextAllocation | k8s/example-pod/handlers.go:23-37 | Such a pet shows a wrong id from the next add without an id on, a larger one until the counter wraps around, for as long as it is not stored anew |
| PetStoreRuns.SecondAddSpoilsFirst | k8s/example-pod/handlers.go:23-37 | After two complete adds without ids on a new store pet 4 shows id 5 |
| PetStoreRuns.AddKeepsPetsIff | k8s/example-pod/handlers.go:23-37 | Every complete add without an id loses no pet exactly when the next number is not a key |
| PetStoreRuns.AddCanOverwrite | k8s/example-pod/handlers.go:23-37 | A pet added with id 4 to a new store is lost to the next one added without |
| PetStoreRuns.LosesIffAhead | k8s/example-pod/handlers.go:23-37 | Some sequence of adds without ids loses a pet before the counter wraps around exactly when some key is ahead of the counter |
| PetStoreRuns.NothingOverwrittenIff | k8s/example-pod/handlers.go:14-39 | While adds name only ids up to the counter of that moment, no add without an id loses a pet, in all runs that take n numbers exactly when 3 + n is at most 2^63 - 1 |
| PetStoreRuns.OnePetAtMost | k8s/example-pod/handlers.go:14-154 | A request changes one pet at most, and none when it is rejected; a pet stored by an add or an update has the fields sent and reads back its key |
| PetStoreRuns.ThreeWaysToUpdate | k8s/example-pod/handlers.go:14-154 | A form request does what the update request does that fills in what the form leaves out, exactly when the pet's id is its own; a complete add that names a stored pet does what the update does |
| PetStoreContents.RepliesAre | k8s/example-pod/handlers.go:14-154 | Which requests are accepted, and which of the others are bad and which find no pet |
| PetStoreContents.DeletedIsGone | k8s/example-pod/handlers.go:108-118 | A deletion takes away the pet it names and nothing else |
| PetStoreContents.FormSets | k8s/example-pod/handlers.go:132-154 | A form sets the name and the status of the pet it names, each where given, and nothing else |
| PetStoreContents.PresentIff | k8s/example-pod/handlers.go:14-154 | After every run a pet is there exactly when it was stored and not deleted since the last time, or was a sample and neither stored nor deleted |
| PetStoreContents.FieldsAfter | k8s/example-pod/handlers.go:14-154 | After every run a pet has the fields it was last stored with, or the sample's, with the last name and the last status that a form gave it since |
| PetStore.StartIs | k8s/example-pod/main.go:31-81 | A new store has the two sample pets with their names, photos, statuses and own ids, and the counter at 3 |
| PetStore.LoadedAheadIff | k8s/example-pod/main.go:45-81 | Whatever int64 ids the samples have, the counter ends up ahead of all of them exactly when none is the largest int64 |
| PetStore.CountsAddUp | k8s/example-pod/handlers.go:183-197 | Exact counts by status add up to the pets with a status |
| PetStoreObject.Server.AddPet | k8s/example-pod/handlers.go:14-39 | The object on the heap does what the value model does, as one more request of its run |
| PetStoreObject.Server.UpdatePet | k8s/example-pod/handlers.go:41-60 | The same for an update |
| PetStoreObject.Server.UpdatePetWithForm | k8s/example-pod/handlers.go:132-154 | Sets the name and the status of the stored pet, each where given, and keeps its id pointer, as one more request of its run |
| PetStoreObject.Server.DeletePet | k8s/example-pod/handlers.go:108-118 | Takes the pet out of the map, or finds none, as one more request of its run |
| PetStoreObject.Server.GetPet | k8s/example-pod/handlers.go:120-130 | The pet as stored, with the id that the pointer shows now |
| PetStoreObject.Server.AddSampleData | k8s/example-pod/main.go:45-81 | Loading the samples one by one leaves the counter ahead of every id exactly when no id is the largest int64 |
| PetStoreObject.Server.FindPetsByStatus | k8s/example-pod/handlers.go:62-82 | Returns each pet with a wanted status once, for any order of the map |
| PetStoreObject.Server.GetInventory | k8s/example-pod/handlers.go:183-197 | Has exactly the statuses in use, each with its count as an int32, for any order of the map |
| PetStoreObject.Server.NewInventory | k8s/example-pod/main.go:45-81 | The inventory of a new server is one available and one pending |
| PetStoreObject.Server.QueriesAgree | k8s/example-pod/handlers.go:62-197 | With fewer than 2^31 pets a status's count is the number of pets the search returns, and the counts sum to the pets with a status |
| Sampler.NoOverflow | opentelemetry/jaeger/sampler.h:53-64 | Under any rounding the sum of the two halves fits 64 bits |
| Sampler.ThresholdMonotone | opentelemetry/jaeger/sampler.h:53-64 | Under any rounding a larger ratio has no smaller threshold, even where the high half moves up and the low half falls |
| Sampler.RaisingKeeps | opentelemetry/jaeger/sampler.h:24-41 | Under any rounding raising the ratio never drops a trace that was kept |
| Sampler.SmallerIsKept | opentelemetry/jaeger/sampler.h:24-73 | Under any rounding the kept words are an initial part of all words |
| Sampler.ThresholdNearShare | opentelemetry/jaeger/sampler.h:53-64 | Under any rounding the threshold differs from the ratio's share of 2^64 - 1 by less than 2050 |
| Sampler.WordNearlySurvives | opentelemetry/jaeger/sampler.h:66-73 | Under any rounding a word comes back from the conversion changed by less than 10242 |
| Sampler.WordCanChange | opentelemetry/jaeger/sampler.h:66-73 | With the conversions of doubles the word 2^63 + 1 comes back as 2^63 - 1 |
| Sampler.SampledNear | opentelemetry/jaeger/sampler.h:24-41 | Under any rounding words below the share by 2^14 are kept and words above it by 2^14 are not |
| Sampler.ShareIsNearlyKept | opentelemetry/jaeger/sampler.h:24-64 | Under any rounding the number of kept words differs from the share by at most 2^14 + 1 |
| Sampler.ThresholdIsShare | opentelemetry/jaeger/sampler.h:53-64 | Without rounding the threshold is the share rounded down |
| Sampler.WordSurvives | opentelemetry/jaeger/sampler.h:66-73 | Without rounding a word of a trace id comes back from the conversion unchanged |
| Sampler.SampledIff | opentelemetry/jaeger/sampler.h:24-41 | Without rounding, exactly which words are sampled |
| Sampler.ShareIsKept | opentelemetry/jaeger/sampler.h:24-64 | Without rounding the share is kept to within one |
| Sampler.NeverForced | opentelemetry/jaeger/sampler.h:75-84 | Forced sampling never happens |
| ArgParser.VParseArgs | database/redis/module/utils.h:7-50 | Succeeds exactly when the whole format fits and every conversion succeeds; the slots are filled in order, up to the failure if there is one |
| ArgParser.OneMoreArgument | database/redis/module/utils.h:13-42 | What each format character writes for its argument, and that no other character is accepted |
| ArgParser.ArgIndex | database/redis/module/utils.h:56-68 | The first place where the token stands, letter by letter in either case, or -1 |
| ArgParser.ParseArgsAfter | database/redis/module/utils.h:70-82 | Succeeds exactly when the token has a first place and the format fits behind it |
| ArgParser.ParseCommand | database/redis/module/example.c:8-32 | Answers with the sum of SUM's operands, else the product of PROD's, else an error |
| ArgParser.AnswerUnique | database/redis/module/example.c:8-32 | That specification has one answer for every input |
| ArgParser.DocumentedForms | database/redis/module/example.c:3-7 | With any of the eight spellings of SUM the reply is the sum, with any of the sixteen of PROD the product, where 64 bits hold it; with another token in that place an error |
| ArgParser.OnlyFirstTokenCounts | database/redis/module/utils.h:56-76 | A SUM without operands hides a later one that has them |

## Left out

- The sockets, epoll, asio, DNS, TLS, gRPC, libcurl and nghttp2 session code, the Kubernetes operator, the Envoy filters, timers and loggers: they pass bytes between operating system calls, libraries and generated stubs, and what they promise depends on those.
- The rest of test_pg.sh (million rows, EXPLAIN, full-text search): decided by PostgreSQL's planner and stemmer.
- The handshake is a step relation on values, because interleaving is the point; statements are atomic, the pause between polls is not a step, and errors, aborted transactions and foreign sessions are not modelled.
- Lower-casing in the inverted index maps character by character; array_agg over no rows is an empty sequence instead of NULL.
- Worker threads that cannot be started, and jobs that submit jobs through the pool they run on.
- The pet store's orders, which number themselves as pets do; its users, a map from name to record that is set, read and deleted by name; tags, categories, HTTP, JSON and sessions.
- PercentDecoding.PercentDecode: its precondition says that the memory behind the value is there as far as the copy reads; where it is not, the read is undefined in C, which is not modelled.
- Sampler.ThresholdIsShare: without rounding; `Sampler.ThresholdNearShare` is what holds with it.  A ratio that is not a number is not modelled.
- Sampler.WordSurvives: without rounding; `Sampler.WordCanChange` has a word for which it fails with doubles, and `Sampler.WordNearlySurvives` is what holds.
- Sampler.SampledIff: without rounding; `Sampler.SampledNear` is what holds with it.
- Sampler.ShareIsKept: without rounding; `Sampler.ShareIsNearlyKept` is what holds with it.
- ArgParser.ParseCommand: a sum or product outside 64 bits is `Undefined`, since signed overflow has no result in C.
