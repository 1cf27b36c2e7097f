# A verified model of a small MapReduce framework

The system is a word-count MapReduce written in Go. The model covers three parts of it.

- A **master** (coordinator) accepts one job of input files, an IDLE → MAP → REDUCE → DONE state machine. It hands out tasks from a FIFO queue and counts completion reports.
  - It creates one map task per input file (ids 1..M).
  - Once every map task has been reported, it creates reduce tasks 0..R-1.
  - After the last reduce report it sends on its done channel.
- A **task queue**, a buffered channel of 1024 task pointers.
- A **worker**, which runs the user functions and the two task bodies:
  - `mapF` emits (word, "1") for every run of letters.
  - `reduceF` prints how many values a key has.
  - `ihash` is FNV-1a with the top bit masked off and picks the reduce partition of a key.
  - `doMapTask` writes each record to intermediate file `mr-intermediate-<map>-<reduce>`.
  - `doReduceTask` reads partition r of every map task, sorts by key, groups equal keys and writes one "key count" line per group.

## How the model is built

- `types.dfy` holds the shared records: `Task` with the seven fields of the Go struct, `KeyValue` over bytes, and the task kinds and states.
- `scheduler.dfy` is class `TaskQueue`. Its buffer is a `seq` bounded by `Capacity` (1024). Ghost histories of everything pushed and popped prove it is a FIFO that loses nothing.
- `master_model.dfy` gives the coordinator's state as a value (`MasterState`) and each RPC as a transition function returning the new state and the reply. All properties of the coordinator are proved here. There are two invariants:
  - `Valid` is structural. Every queue entry resolves, the phase fields agree, and at most one done signal is sent. Every operation keeps it, whatever ids callers send.
  - `Consistent` adds three things. The counters equal the number of Completed tasks in the tables. The queue holds each Idle task exactly once. No reduce task exists before all map tasks are Completed.
- `master.dfy` is class `Master`, whose fields are those of the Go struct. Each method performs the update in place, loops included. Its postcondition says that the new fields and the reply are exactly what the `MasterModel` transition gives from the old fields, so every lemma about the transition applies to the method.
- `fnv.dfy` is 32-bit FNV-1a over `bv32`, with wrap-around multiplication.
- `byteorder.dfy` is Go's `<` on strings: bytewise lexicographic.
- `text.dfy` covers what the word-count functions rely on:
  - the UTF-8 encoding of a string and its decoder;
  - `strings.FieldsFunc` as `Fields`;
  - `%d` as `Decimal`.
- `shuffle.dfy` covers the reduce side's sort and group-by. Throughout, "sorted" means "any permutation sorted by key".
- `worker.dfy` covers `mapF`, `reduceF`, `ihash`, the two task bodies and the dispatch of one task. It ends with a whole-job correctness theorem. The file system is a value:
  - intermediate files are a map from (map id, reduce id) to records;
  - output files are a map from reduce id to bytes.

Two notes on how the model reads the code:

- **The grouping example.** For records (a,1), (b,1), (a,1) in that order, the code writes "a 2" then "b 1": the single b record counts once (`Worker.GroupingExample`).
- **Worker id 0.** An unassigned task keeps WorkerId 0, and ReportTask never checks that the task is IN_PROGRESS. So a report carrying worker id 0 completes a task that is still waiting in the queue. That task is later handed out and counted a second time, and the reduce phase can start while a map task is still Idle. `MasterModel.ZeroWorkerBreaksBarrier` exhibits this run. The strong invariant is therefore proved for reports from positive ids, which are the only ids RegisterWorker hands out.

## Model

| member | source | states |
|---|---|---|
| Scheduler.TaskQueue.constructor | pkg/scheduler/taskqueue.go:9-13 | A new queue is empty and has sent and received nothing. |
| Scheduler.TaskQueue.Push | pkg/scheduler/taskqueue.go:15-17 | The task joins the tail, and what was waiting is unchanged. A full channel blocks, so there must be room below 1024. |
| Scheduler.TaskQueue.Pop | pkg/scheduler/taskqueue.go:19-21 | The head comes out and exactly the rest remains. An empty channel blocks, so the queue must be non-empty. |
| Scheduler.PoppedIsPrefix | pkg/scheduler/taskqueue.go:5-21 | What was received is a prefix of what was sent, and at most 1024 sent items are still waiting. |
| Scheduler.FifoOrder | pkg/scheduler/taskqueue_test.go:9-27 | Two tasks pushed onto a fresh queue are popped in the order they were pushed. |
| Master.Master.constructor | pkg/master/master.go:39-49 | The fields equal `NewMaster()`: empty tables, phase IDLE, an empty queue, no done signal. |
| Master.Master.RegisterWorker | pkg/master/master.go:55-66 | The new fields and the id are `MasterModel.RegisterWorker`'s, and the class invariant `Inv` is kept. |
| Master.Master.Heartbeat | pkg/master/master.go:68-72 | Always acknowledges, and changes nothing (no `modifies`). |
| Master.Master.SubmitJob | pkg/master/master.go:74-108 | The new fields and the reply are `MasterModel.SubmitJob`'s. These include the busy error outside IDLE. |
| Master.Master.AddMapTasks | pkg/master/master.go:87-99 | The loop adds exactly map tasks 1..n, task i reading file i-1, and pushes their entries in id order. No other field changes. |
| Master.Master.CreateReduceTasks | pkg/master/master.go:110-123 | The loop's result is `MasterModel.CreateReduceTasks` of the old fields: reduce tasks 0..nReduce-1, pushed in order. |
| Master.Master.RequestTask | pkg/master/master.go:125-143 | The new fields and the task handed out are `MasterModel.RequestTask`'s: the head task, now IN_PROGRESS and owned by the caller. |
| Master.Master.ReportTask | pkg/master/master.go:145-194 | The new fields and the reply are `MasterModel.ReportTask`'s. These cover both errors, the duplicate acknowledgement, the barrier and the done signal. |
| MasterModel.NewMasterValid | pkg/master/master.go:39-49 | The initial state satisfies the strong invariant `Consistent`. |
| MasterModel.RegisterWorkerValid | pkg/master/master.go:55-66 | Registering keeps the structural invariant. |
| MasterModel.SubmitJobValid | pkg/master/master.go:74-108 | Submitting keeps the structural invariant: every new queue entry names a map task that exists. |
| MasterModel.RequestTaskValid | pkg/master/master.go:125-143 | Handing out the head task keeps the structural invariant. |
| MasterModel.ReportTaskValid | pkg/master/master.go:145-194 | Every report, whatever worker id it carries, keeps the structural invariant, including the done channel's single signal. |
| MasterModel.BarrierValid | pkg/master/master.go:176-182 | The report that crosses the barrier appends only entries that resolve to new reduce tasks. |
| MasterModel.RegisterWorkerFresh | pkg/master/master.go:59-62 | The id is positive, larger than every id registered before and new to the table. The table gains exactly that id with its address, and nothing else changes. |
| MasterModel.SubmitJobBusy | pkg/master/master.go:78-80 | Outside IDLE a job is refused with the busy error and the state is unchanged. |
| MasterModel.SubmitJobCreatesMapTasks | pkg/master/master.go:83-103 | From IDLE: job id old+1 with ack; phase MAP, nMap = number of files; exactly tasks 1..n, each Idle, unowned and reading its file; the queue holds them in id order; counters zero. |
| MasterModel.RequestTaskAssigns | pkg/master/master.go:126-138 | The head entry is removed, and exactly its task becomes IN_PROGRESS and owned by the caller. The caller receives that task. No other task, counter or phase changes, and no task appears. |
| MasterModel.ReportTaskErrors | pkg/master/master.go:152-163 | "task not found" comes back exactly when the id is absent from the table of the reported kind. "worker id does not match" comes back exactly when it is present with another owner. Errors leave the state unchanged, and success acknowledges. |
| MasterModel.ReportTaskDuplicate | pkg/master/master.go:165-169 | A report for a Completed task owned by the reporter is acknowledged and changes nothing. |
| MasterModel.ReportTaskIdempotent | pkg/master/master.go:165-172 | Repeating any successful report is a pure acknowledgement, so counters, phase and queue move only once. |
| MasterModel.ReportTaskPhase | pkg/master/master.go:176-191 | A report leaves the phase alone or moves it one step, MAP→REDUCE or REDUCE→DONE. |
| MasterModel.ReportTaskDoneSignal | pkg/master/master.go:183-191 | The done signal is sent exactly when the phase becomes DONE, and never more than once. |
| MasterModel.RegisterWorkerConsistent | pkg/master/master.go:55-66 | Registering keeps the strong invariant. |
| MasterModel.SubmitJobConsistent | pkg/master/master.go:74-108 | Submitting keeps the strong invariant: counters zero and every new task Idle and queued once. |
| MasterModel.RequestTaskConsistent | pkg/master/master.go:125-143 | Handing out a task keeps the strong invariant. The popped task leaves the queue and stops being Idle, and the counters are untouched. |
| MasterModel.QueuedIsIdle | pkg/master/master.go:125-138 | Under the invariant, every queued entry names an Idle task of its kind, so a popped task is never already running or finished. |
| MasterModel.QueueEmptyAtBarrier | pkg/master/master.go:176-182 | When every map task is Completed and no reduce task exists, the queue is empty. |
| MasterModel.CompleteMapTask | pkg/master/master.go:171-177 | Completing an IN_PROGRESS map task and counting it keeps the strong invariant. |
| MasterModel.CompleteReduceTask | pkg/master/master.go:171-184 | Completing an IN_PROGRESS reduce task and counting it keeps the strong invariant. |
| MasterModel.FinishJob | pkg/master/master.go:185-190 | The reduce count reaching nReduce ends the job consistently: every reduce task is Completed. |
| MasterModel.OwnedTaskNotIdle | pkg/master/master.go:161-163 | A task whose owner matches a positive reporter id is not Idle. |
| MasterModel.ReportTaskConsistent | pkg/master/master.go:145-194 | Every report from a positive worker id keeps the strong invariant, barrier included. |
| MasterModel.StartReduce | pkg/master/master.go:178-182 | When the map count reaches nMap, every map task is Completed and nothing is queued. Starting REDUCE then creates exactly `ReduceTable` and queues `ReduceRefs`, consistently. |
| MasterModel.ReduceTasksFresh | pkg/master/master.go:110-123 | At the barrier the reduce tasks are 0..nReduce-1, Idle and unowned, queued in ascending order with nothing else queued. The result is consistent. |
| MasterModel.ReportTaskBarrier | pkg/master/master.go:176-182 | The report that starts REDUCE came in MAP. Afterwards the count equals nMap and every map task is Completed. Reduce tasks are exactly 0..nReduce-1, each Idle with its fields, and the queue is exactly their entries in order. |
| MasterModel.RequestTaskAfterBarrier | pkg/master/master.go:125-138 | No reduce task is handed out before every map task is Completed and counted. |
| MasterModel.CountersBounded | pkg/master/master.go:176-191 | Completed counters never exceed the number of tasks of their kind. |
| MasterModel.StepValid | pkg/master/master.go:55-194 | Any call that would not block keeps the structural invariant and never moves the phase backwards. |
| MasterModel.RunMonotone | pkg/master/master.go:55-194 | Along any run of calls, the structural invariant holds and the phase only moves forward. |
| MasterModel.SubmitJobAtMostOnce | pkg/master/master.go:78-83 | After one accepted job, any later submission, after any run of calls, is refused as busy. |
| MasterModel.ZeroWorkerBreaksBarrier | pkg/master/master.go:161-182 | A report carrying worker id 0 for a queued Idle task is accepted. Then the reduce phase starts with map task 2 still Idle, and the strong invariant fails. |
| MasterModel.MapPhaseFlow | pkg/master/master_test.go:32-76 | Two files, two partitions: workers 1 and 2 each get a map task and are acknowledged. The master is then in REDUCE with reduce tasks 0 and 1 Idle and queued in order. |
| MasterModel.ReducePhaseFlow | pkg/master/master_test.go:78-121 | From that state, workers 10 and 11 each get a reduce task and are acknowledged. The job is then DONE, with exactly one done signal. |
| Fnv.AbsorbConcat | pkg/worker/worker.go:44-48 | Hashing a then b leaves the state that hashing a+b leaves. |
| Fnv.AbsorbSnoc | pkg/worker/worker.go:44-48 | One more byte is one more FNV-1a round on the previous sum. |
| Fnv.TestVectorA | pkg/worker/worker.go:45-47 | FNV-1a (32-bit) of "a" is 0xe40c292c, the published test vector. |
| ByteOrder.LessIrreflexive | pkg/worker/worker.go:200-202 | No string sorts before itself. |
| ByteOrder.LessTransitive | pkg/worker/worker.go:200-202 | The string order is transitive. |
| ByteOrder.LessTotal | pkg/worker/worker.go:200-202 | Any two strings are equal or ordered one way or the other. |
| ByteOrder.LessAsymmetric | pkg/worker/worker.go:200-202 | a < b excludes b < a. |
| ByteOrder.LessMeansDiffersAt | pkg/worker/worker.go:200-202 | The recursive order agrees with the positional definition: the first differing byte is smaller in a, or a is a proper prefix of b. |
| ByteOrder.LessEqTransitive | pkg/worker/worker.go:200-202 | ≤ is transitive. |
| Text.EncodeRune | pkg/worker/worker.go:30 | A code point encodes to 1 to 4 bytes. It takes one byte exactly when it is below 0x80, and that byte is the code. Later bytes are continuation bytes. |
| Text.EncodeRuneRoundTrip | pkg/worker/worker.go:30 | The leading byte of an encoded rune gives its length, and decoding gives the code point back. |
| Text.DecodeEncode | pkg/worker/worker.go:30 | Decoding the UTF-8 encoding of a string gives back its code points. |
| Text.EncodeConcat | pkg/worker/worker.go:30 | Encoding distributes over concatenation. |
| Text.EncodeAscii | pkg/worker/worker.go:30 | An ASCII string encodes to its own character codes, one byte each. |
| Text.LetterRun | pkg/worker/worker.go:23-26 | The run at the front is all letters and stops at the end or at a non-letter. |
| Text.LetterRunUnique | pkg/worker/worker.go:23-26 | Any letter prefix that stops at a non-letter or at the end is that run. |
| Text.FieldsAreWords | pkg/worker/worker.go:23-26 | Every field is a non-empty word of letters only. |
| Text.FieldsKeepLetters | pkg/worker/worker.go:23-26 | The fields together are exactly the letters of the input, in order. |
| Text.FieldsSplit | pkg/worker/worker.go:23-26 | A separator splits the fields: the fields of the text before it, then those after it. |
| Text.WordIsOneField | pkg/worker/worker.go:23-26 | A non-empty word of letters is its own single field. |
| Text.FieldsJoin | pkg/worker/worker.go:23-26 | Splitting undoes joining words of letters with a separator. |
| Text.FieldsExample | pkg/worker/worker_test.go:12 | "hello world goodbye world" splits into the four words, in input order. |
| Text.Decimal | pkg/worker/worker.go:40 | `%d` of a natural number is a non-empty digit string with no leading zero. |
| Text.DecimalRoundTrip | pkg/worker/worker.go:40 | Reading the printed number back gives the number. |
| Shuffle.Insert | pkg/worker/worker.go:199-202 | Insertion adds exactly the record: the result is a permutation of the input plus it. |
| Shuffle.InsertSorted | pkg/worker/worker.go:199-202 | Insertion keeps a key-sorted sequence sorted. |
| Shuffle.SortByKey | pkg/worker/worker.go:199-202 | The sort result is a permutation of its input, sorted by key. |
| Shuffle.RunLength | pkg/worker/worker.go:215-218 | The first run is non-empty, shares the first key, and ends at the end or at a different key. |
| Shuffle.ValuesWithKeyConcat | pkg/worker/worker.go:219-222 | The values of a key in a concatenation are those of each part, in order. |
| Shuffle.FirstGroupValues | pkg/worker/worker.go:215-222 | In a sorted sequence the first run holds every value of its key. |
| Shuffle.GroupsKeys | pkg/worker/worker.go:212-229 | Every group key occurs in the input, and every input key has a group. |
| Shuffle.GroupsAscending | pkg/worker/worker.go:212-229 | Grouping a sorted sequence gives strictly ascending keys, so no key is reduced twice. |
| Shuffle.GroupsCollect | pkg/worker/worker.go:212-229 | In a sorted sequence each group holds every value of its key, in order. |
| Shuffle.ValuesPermutation | pkg/worker/worker.go:199-202 | Reordering records does not change the multiset of values a key carries. |
| Shuffle.CountPermutation | pkg/worker/worker.go:199-202 | Reordering records does not change how many carry a key. |
| Shuffle.AscendingUnique | pkg/worker/worker.go:199-229 | Two strictly ascending key lists with the same elements are equal. |
| Shuffle.InGroupKeys | pkg/worker/worker.go:212-229 | The group keys are exactly the input's keys. |
| Shuffle.SameKeys | pkg/worker/worker.go:199-202 | Permutations have the same keys. |
| Shuffle.SortedOrderIrrelevant | pkg/worker/worker.go:199-202 | Any two key-sorted permutations of the same records give the same (key, count) sequence. The unstable `sort.Slice` therefore cannot change the output. |
| Worker.Ihash | pkg/worker/worker.go:44-48 | The hash is non-negative and below 2^31. |
| Worker.Bucket | pkg/worker/worker.go:161 | The partition is in 0..nReduce-1. |
| Worker.WordRecords | pkg/worker/worker.go:28-32 | One (word, "1") record per word, in word order. |
| Worker.MapF | pkg/worker/worker.go:21-34 | The loop returns exactly `MapOutput`: the records of the input's fields. |
| Worker.ReduceF | pkg/worker/worker.go:38-41 | The result is all digits, and reading it back gives the number of values. |
| Worker.ReduceFExample | pkg/worker/worker_test.go:32-41 | Three "1"s reduce to "3". |
| Worker.IhashHelloWorld | pkg/worker/worker_test.go:43-60 | "hello" and "world" hash differently. |
| Worker.MapFExample | pkg/worker/worker_test.go:11-30 | The records of "hello world goodbye world", sorted by key, are goodbye, hello, world, world, each with "1". |
| Worker.EncodeInjective | pkg/worker/worker.go:30 | Different words give different keys. |
| Worker.MapOutputCounts | pkg/worker/worker.go:21-34 | The records for a word number its occurrences among the input's fields. |
| Worker.WordRecordsCount | pkg/worker/worker.go:28-32 | The records for a word number its occurrences in the word list. |
| Worker.DoMapTask | pkg/worker/worker.go:131-172 | The map task's nReduce files hold exactly its records for each partition, and every other file is unchanged. |
| Worker.CreateIntermediateFiles | pkg/worker/worker.go:147-157 | Each of the task's nReduce files exists and is empty, and no other file is touched. |
| Worker.WriteRecords | pkg/worker/worker.go:160-166 | Each file ends up with exactly the records hashed to it, in output order, and no other file changes. |
| Worker.BucketOfConcat | pkg/worker/worker.go:160-166 | Partitioning distributes over concatenation. |
| Worker.BucketOfMembers | pkg/worker/worker.go:161 | A partition contains a record exactly when the record is in the output and its key hashes to that partition. |
| Worker.BucketOfCount | pkg/worker/worker.go:161 | All records of a key land in the key's partition, and none in any other. |
| Worker.BucketsPartition | pkg/worker/worker.go:160-166 | Each record occurs in its key's partition as often as in the output, and zero times elsewhere. The partitions together are the output. |
| Worker.ReadIntermediate | pkg/worker/worker.go:177-197 | The read loop collects partition r of map tasks 1..nMap in file order, skipping missing files. |
| Worker.ReduceAll | pkg/worker/worker.go:223-226 | One output record per group, with the group's key, in order. |
| Worker.GroupAndReduce | pkg/worker/worker.go:212-229 | The nested loops produce exactly the reduce function applied to each maximal run of equal keys, in order. |
| Worker.ScanRun | pkg/worker/worker.go:215-218 | j stops just past the run of the key at i. |
| Worker.CollectValues | pkg/worker/worker.go:219-222 | The collected values are those of records i..j-1, in order. |
| Worker.DoReduceTask | pkg/worker/worker.go:174-232 | The output file holds the rendered lines of its partition's records, sorted, grouped and reduced. |
| Worker.ReduceOutputMeaning | pkg/worker/worker.go:174-232 | A reduce output holds exactly the distinct keys of its input, strictly ascending, each with the decimal count of its records. |
| Worker.ReduceInputGroups | pkg/worker/worker.go:177-222 | Each group handed to the reduce function holds exactly the values its key carries in the task's unsorted input, each as often as there. |
| Worker.GroupingExample | pkg/worker/worker.go:199-229 | Records (a,1), (b,1), (a,1) reduce to "a 2" then "b 1". |
| Worker.ReduceAllAt | pkg/worker/worker.go:223-226 | Output i is group i's key with the reduce function of its values. |
| Worker.ProcessTask | pkg/worker/worker.go:247-254 | A map task writes its intermediate files and leaves outputs alone. A reduce task writes its output file and leaves intermediate files alone. |
| Worker.MapTaskAdds | pkg/worker/worker.go:131-172 | A completed map task adds its partitions and keeps those of the others. |
| Worker.GatherAll | pkg/worker/worker.go:177-197 | After all map tasks have written, the reduce task's input is partition r of every emitted record. |
| Worker.WordCountCorrect | pkg/worker/worker.go:131-232 | Once every map task has written, reduce task r outputs exactly the emitted keys that hash to r, ascending, each with its total count over all inputs. |
| Worker.PartitionOutput | pkg/worker/worker.go:174-232 | A reduce task whose input is partition r outputs that partition's keys, ascending, with their counts over all records. |
| Worker.CountsCarryOver | pkg/worker/worker.go:161 | Counts within a partition are the counts within all records. |
| Worker.PartitionKeys | pkg/worker/worker.go:161 | The keys of a partition are exactly the keys that hash to it. |
| Worker.AllRecordsCount | pkg/worker/worker.go:21-34 | The records emitted for a word number its occurrences across all inputs. |
| Worker.KeyInOneOutput | pkg/worker/worker.go:161 | Each key appears in the output of exactly one reduce task. |

## Left out

- RPC transport, logging and the clock are not modelled. Each RPC handler is a call on the model. The output of `log.Printf` and the sleeps of the loops are not modelled.
- The coordinator's mutex and concurrency are not modelled. Each locked method is one atomic step. `RequestTask` pops the queue before taking the lock, so in the source a pop can interleave with another handler. The model treats the pop and the update as one step.
- Blocking channel operations are preconditions, not waits:
  - a push needs room below 1024;
  - a pop needs a non-empty queue;
  - the done channel is a counter of sends, proved to stay at most 1.
- The `task == nil` branch of `RequestTask` is not modelled. A receive on the channel never yields nil, because only real tasks are pushed, so the branch is unreachable.
- Master.Master.ReportTask: requires `ReportFits`, that is, the reduce tasks pushed at the barrier must fit in the channel. The source would block while holding the lock.
- MasterModel.ReportTaskConsistent: requires workerId > 0. With worker id 0 the strong invariant does not survive, as `MasterModel.ZeroWorkerBreaksBarrier` exhibits. Only the structural invariant `Valid` is proved for every report.
- MasterModel.ReportTaskBarrier: requires workerId > 0, for the same reason.
- The end-to-end test calls `m.CreateMapTasks`, which the master does not have. `MasterModel.MapPhaseFlow` uses `SubmitJob` in its place.
- Heartbeat bookkeeping beyond the acknowledgement is not modelled. The source has no leases, timeouts or re-execution.
- The worker's `Start`, `heartbeatLoop` and the polling of `taskLoop` are not modelled, and neither is the worker side of the RPC calls, which only forwards arguments. `Worker.ProcessTask` models one dispatch of `taskLoop`. The report that follows is `MasterModel.ReportTask`.
- File I/O and the JSON encoding of intermediate records are not modelled. The file system is a value, and a record written is a record read back. The input file's contents are a parameter, `readFile`. Failed reads, creates and decodes, all of which end in `log.Fatal`, are not modelled; neither is the ignored error of creating the output file.
- Input files are taken to be valid UTF-8: a file's contents are a sequence of Unicode scalar values. The source converts raw bytes with `string(content)`. `strings.FieldsFunc` then reads each invalid byte as U+FFFD, which is not a letter, so the byte separates words, and keys are byte substrings of the file. Raw bytes are not modelled, so this behaviour on malformed input is not captured.
- `unicode.IsLetter` is a parameter `isLetter`, a function on characters. Unicode's letter tables are not modelled. The concrete examples use `AsciiLetter`.
- `sort.Slice` is not stable. The model sorts with an insertion sort (`Shuffle.SortByKey`). `Shuffle.SortedOrderIrrelevant` shows that any other key-sorted permutation gives the same keys and counts. The order of equal-key values can differ, but `reduceF` only counts them.
- Worker.DoMapTask: requires nReduce >= 0, and nReduce = 0 only when there are no records. The source panics in `make` on a negative size and in `%` on a zero divisor.
- Worker.Ihash: states only the range. The value is fixed by `Fnv.Sum32a`. The mask `& 0x7fffffff` is written as the remainder modulo 2^31.
- The command-line programs (`cmd/master`, `cmd/worker`) and the word-count plugin example are not part of this model.
