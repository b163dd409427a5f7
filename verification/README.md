# A model of the base library, with proofs

The `base/` directory of the framework holds its in-memory machinery: JSON, thread pools, a timer,
caches, pools, buffers, hashes and codecs. This project models the parts whose correctness is not
visible from one function, in Dafny, and proves what they are for. `dafny verify dfyconfig.toml`
checks all of it.

- **JSON.** `JsonTexts` says by derivations what a JSON text is, those of RFC 8259 and those that
  use a leniency of the code, and what it denotes. `JsonGrammar` is a recursive grammar over
  positions; `JsonConformance` and `JsonAcceptance` prove that it takes exactly the derived texts.
  `JsonParser` is the parser's machine of four flags, a stack and a cursor, proved to decide that
  grammar; `JsonPrinter` is the printer with its escaper, and `JsonOutput` proves that its output
  is strict RFC 8259; `JsonRoundTrip` proves that parsing undoes printing, and `JsonReparse` that
  printing undoes parsing. `Utf8` is the encoding that all rest on. `Paths` and `JsonNode` are the
  paths: splitting them, finding nodes and creating the missing ones in a graph of shared nodes.
- **Thread pools.** `PoolProtocol` is the task pool as a state machine whose steps are the
  critical sections, with its theorems over all interleavings; `PoolProgress` is about how soon a
  queued task is reached, `PoolThreads` about when threads leave; the class in `TaskThreadPool`
  performs the steps. `PriorityQueues` is the queue discipline of the two parameterised pools.
- **Timer.** `TimerProtocol` is the timer in the same way: the priority queue, the two maps, the
  recycled ids and the jobs that reschedule behind the timer's back. `TimerEffects` says what
  single steps do to a task; `TimerChecks` is about the loop of `checkTasks`, `TimerJobs` about
  the runs that are with the thread pool, `TimerSteps` about the steps a task takes,
  `TimerProgress` about which tasks come to their end, and `TimerWakes` with `Pipe` about the
  event thread's sleep. `Timer` holds the class.
- **Linked structures.** `TailQueue`, `RecencyList` and `LruHashMap` are the LRU map: hash chains
  and a tail queue over the same nodes, against a list in order of use. `BlockList` and
  `MemoryPool` are the memory pool with its three lists. `Chunks` and `ChainBuffer` are the chain
  of blocks that stands for a flat byte string.
- **Hashing and codecs.** `Heap`, `Rendezvous` and `HSequence` are the heap macros, the weighted
  rendezvous hash that selects with them, and the cache over it. `Digest` is the buffering and
  padding that MD5, SHA-1 and SHA-256 share, and `Base64` with `Base64Layout`, `Base64RoundTrip`
  and `Base64Tolerance` the codec.

Clocks, `malloc`, `strtod`, the printing of doubles, the mixing and the compression functions and
the choices of the scheduler are parameters; a condition variable is the set of its waiters.

Where the code and what is written about it differ, the model follows the code:

- The constructors of period and repeated tasks turn zero cycles into -1 in their parameter only;
  the field keeps the zero, which is endless all the same (`base/FPTimer.epoll.cpp:26-27`).
- A task pool that starts without threads and whose `append` creates none accepts tasks and never
  runs them; the exact settings are part of a theorem.
- `round_up_power_two(1)` is 2 (`base/bit.c:115-125`), so that a key mask of 1 gives two cells.
- An endless period task of period zero keeps every task behind it from ever being dispatched, and
  as the loop of `checkTasks` holds the lock all the while, the job of a task that was dispatched
  before waits for ever to reschedule it (`base/FPTimer.epoll.cpp:275-310`); which tasks that
  concerns is part of a theorem.
- Nobody looks whether the write that wakes the timer's event thread succeeds, each round of
  `checkTasks` reads only one message, and a pipe gives its room free page by page
  (`base/FPTimer.epoll.cpp:282-283`, `353-362`). With many tasks queued the write can fail, and a
  trigger is slept over by up to ten minutes; from how many on is part of a theorem.
- Runs of a period task that outlast the period overlap: the task is queued again before its run
  is handed to the pool (`base/FPTimer.epoll.cpp:364-371`).
- When `base64_decode` is to ignore white space, it also passes over the first byte of a run of
  foreign bytes whatever it is, so that `QU#JD` decodes (`base/base64.c:156-162`).
- `base64_decode` takes a foreign byte for an error only when it is not the last one within the
  given length, and its inner loops look at no length (`base/base64.c:140-168`).
- The parser accepts a comma in front of a closing bracket and white space that is not JSON's, and
  refuses a key that is there twice.

## Model

| member | source | states |
|---|---|---|
| JsonParsing.ParseJson | base/FPJsonParser.cpp:511-541 | For every C string and every strtod, the flag-and-stack machine terminates and gives exactly what the recursive grammar gives: the same value where the text is a document, and a failure where it is none. The grammar is RFC 8259 with the leniencies of the code (a trailing comma, C white space, numbers by strtod, nan and infinity in any case) and its stricter rule that keys do not repeat. |
| JsonAcceptance.AcceptedTextsAreTheDerived | base/FPJsonParser.cpp:511-541 | Which texts those are, said by derivations and without any scanning: a text is taken, and read as a tree, if and only if some derivation spells the text and denotes the tree. The derivations are those of RFC 8259 and one kind for each leniency: vertical tabs and form feeds as white space, a comma in front of a closing bracket, any octet but NUL for itself in a string, a dropped backslash, rows of number characters by the C library, and nan, inf and infinity. Keys of an object are unique. |
| JsonConformance.DerivedTextsAreRead | base/FPJsonParser.cpp:511-541 | Every text that a derivation spells is read as the tree it denotes: any white space in any gap, each character as itself, in a short form or as \u with digits of either case or a surrogate pair, and any form of a number. |
| JsonConformance.CharacterReads | base/FPJsonParser.cpp:213-310 | Each way to write a character of a string is read as its octets. |
| JsonConformance.UnitReads | base/FPJsonParser.cpp:184-211 | Four hexadecimal digits, each in either case, are read as the sixteen bits they stand for. |
| JsonConformance.NumberReads | base/FPJsonParser.cpp:383-456 | Every number of RFC 8259 that fits a node is read as its value, a whole one as an integer. |
| JsonAcceptance.DocumentIsDerived | base/FPJsonParser.cpp:511-541 | The other direction: whatever is taken has a derivation, which denotes what was read. |
| JsonParsing.JsonParser.Parse | base/FPJsonParser.cpp:511-535 | The loop of parse ends, with the value that the grammar derives from the whole text, or with a failure where it derives none. |
| JsonParsing.JsonParser.Dispatch | base/FPJsonParser.cpp:464-476 | Whatever byte is at the cursor, its handler either throws, and then the grammar has no document, or goes forward with the verdict unchanged, or closes the root; flags stay exclusive, and an object on top keeps exactly one. |
| JsonParsing.JsonParser.InsertNode | base/FPJsonParser.cpp:127-141 | A finished value goes where the innermost open container expects it; it is refused exactly when its key is already there. |
| JsonParsing.JsonParser.FinishNode | base/FPJsonParser.cpp:106-125 | Closing a container hands it to the container around it, or makes it the root when it is the last. |
| JsonParsing.JsonParser.ExitObject | base/FPJsonParser.cpp:69-76 | `}` is taken exactly where the grammar allows it, behind a member or a comma or at once. |
| JsonParsing.JsonParser.ExitArray | base/FPJsonParser.cpp:97-104 | `]` is taken exactly where the grammar allows it. |
| JsonParsing.JsonParser.EnterObject | base/FPJsonParser.cpp:28-45 | `{` is taken exactly where a value may stand. |
| JsonParsing.JsonParser.EnterArray | base/FPJsonParser.cpp:78-95 | `[` is taken exactly where a value may stand. |
| JsonParsing.JsonParser.ProcessComma | base/FPJsonParser.cpp:357-368 | A comma is taken exactly behind a member or an element. |
| JsonParsing.JsonParser.ProcessSemicolon | base/FPJsonParser.cpp:370-379 | A colon is taken exactly behind a key. |
| JsonParsing.JsonParser.ProcessString | base/FPJsonParser.cpp:338-355 | A string becomes a key or a value, as the flags say and the grammar wants. |
| JsonParsing.JsonParser.FetchString | base/FPJsonParser.cpp:274-310 | The loop over runs and escapes yields the bytes that the grammar assigns to the string body, and stops behind the closing quote. |
| JsonParsing.JsonParser.ProcessSlash | base/FPJsonParser.cpp:213-272 | An escape appends the bytes of its meaning, or fails where the grammar has no escape. |
| JsonParsing.JsonParser.ProcessUnicode | base/FPJsonParser.cpp:213-272 | A \u escape, with the second one of a surrogate pair, appends the UTF-8 form of its code point. |
| JsonParsing.JsonParser.ParseUtf16Char | base/FPJsonParser.cpp:184-211 | The loop over four digits gives the hexadecimal word of the grammar, or fails where it has none. |
| JsonParsing.Utf16ToUtf8 | base/FPJsonParser.cpp:143-168 | The bytes written for a unit that is no surrogate are one well-formed UTF-8 character, and decoding it gives back the unit. |
| JsonParsing.SurrogatesToUtf8 | base/FPJsonParser.cpp:170-182 | The bytes written for a surrogate pair are one well-formed UTF-8 character, and decoding it gives the code point the pair stands for. |
| Utf8.DecodeUndoesEncode | base/FPJsonParser.cpp:143-182 | For every code point below 0x110000 that is no surrogate, the octets are one character by the syntax of section 4 of RFC 3629, and decode to the code point. |
| Utf8.EncodeUndoesDecode | base/FPJsonParser.cpp:143-182 | The other way round: every well-formed character decodes to such a code point, and is what that code point is encoded as. |
| JsonParsing.JsonParser.ScanNumber | base/FPJsonParser.cpp:383-422 | The scan over number characters stops behind the longest run of them and counts the points and exponent letters in it. |
| JsonParsing.JsonParser.FetchNumber | base/FPJsonParser.cpp:383-456 | A number becomes an Integer, an UInteger or a Real by the rules of the grammar, or fails where the conversion does not use up the run or is out of range. |
| JsonParsing.JsonParser.GeneralProcess | base/FPJsonParser.cpp:481-509 | true, false, null and numbers are values exactly where one is expected. |
| JsonPrinting.Escape | base/FPJson.cpp:88-143 | The byte loop with its six kinds of step writes the escaped text: control bytes, 0x7f, quotes and backslashes escaped, multi-byte sequences copied whole by their leading byte. |
| JsonPrinting.Output | base/FPJson.cpp:169-242 | What is written for a tree is the text the printer is specified to give, behind what was there before. |
| JsonPrinting.OutputMembers | base/FPJson.cpp:186-204 | Members are written in the byte order of their keys. |
| JsonOutput.OutputIsStandard | base/FPJson.cpp:88-242 | The output for every tree without Real nodes whose strings are well-formed UTF-8 is derived by RFC 8259 without any leniency, and the derivation denotes the tree in normal form: quotes, backslashes and control characters in one of the eight short forms or as \u with four digits, no comma in front of a closing bracket. |
| JsonOutput.EscapedIsStandard | base/FPJson.cpp:88-143 | What the escaper writes for well-formed UTF-8 is a row of characters as RFC 8259 writes them, which stand for the string. |
| JsonOutput.OutputIsVisible | base/FPJson.cpp:88-242 | No byte of that output is below 0x20 or equals 0x7F. |
| JsonOutput.ObjectText | base/FPJson.cpp:186-204 | An object is written as its members with a comma and a space between them, in the byte order of their keys, each a quoted key, a colon and the value. |
| JsonOutput.ArrayText | base/FPJson.cpp:206-222 | An array is written as its elements in their order, with a comma and a space between them. |
| Bytes.BeforeMeansPrecedes | base/FPJson.cpp:186-204 | That order: a proper beginning comes first, and else the text that is smaller in the first byte in which they differ. |
| JsonRoundTrip.ParseUndoesPrint | base/FPJson.cpp:88-242 | For every tree without Real nodes whose strings and keys are well-formed UTF-8, the output holds no NUL and is a document whose value is the tree, with Uninit turned into Null and an UInteger below 2^63 into an Integer; control bytes, NUL, quotes and empty keys included. |
| JsonRoundTrip.NormalIsExact | base/FPJson.cpp:169-242 | The trees that come back unchanged are exactly those without Uninit and without an UInteger below 2^63. |
| JsonReparse.StringIsWellFormed | base/FPJsonParser.cpp:274-310 | A string read from a place between the characters of a UTF-8 text is well-formed UTF-8 and ends between characters, whatever escapes it holds, a backslash in front of a character of several bytes included. |
| JsonReparse.ParsedTreeIsPrintable | base/FPJsonParser.cpp:511-541 | Whatever the parser makes of a UTF-8 text, if it holds no Real node: its strings and keys are well formed, its numbers lie in the range of their nodes, and it is in normal form. |
| JsonReparse.PrintUndoesParse | base/FPJsonParser.cpp:511-541 | Parsing a UTF-8 text, printing the tree and parsing the output gives the very tree of the first parse, when it holds no Real node. |
| JsonRoundTrip.StringReads | base/FPJsonParser.cpp:274-310 | Wherever an escaped string stands in a text, reading it gives the string and stops behind its closing quote. |
| JsonRoundTrip.IntegerReads | base/FPJsonParser.cpp:383-456 | Wherever a printed integer stands in front of anything but a number character, reading it gives the integer, as an UInteger from 2^63 on. |
| JsonRoundTrip.OutputReads | base/FPJson.cpp:169-242 | The same for whole trees at any place in a text, in front of white space, a comma, a closing bracket or the end. |
| JsonRoundTrip.OutputHasNoNul | base/FPJson.cpp:88-143 | The output is a C string: no byte of it is NUL. |
| Bytes.BeforeIsTotal | base/FPJson.cpp:186-204 | The order of std::string is total, so that the members of an object have one order. |
| Paths.PathSplit | base/FPJson.cpp:247-278 | The cursor loop gives the sections of the path. |
| Paths.SplitThenJoin | base/FPJson.cpp:247-278 | There is one section more than there are delimiter bytes, no section holds one, and putting them back between the sections restores the path. |
| Paths.JoinThenSplit | base/FPJson.cpp:247-278 | Sections without delimiter bytes, joined by any of them, are split back into the same sections. |
| JsonNodes.JsonNode.GetNode | base/FPJson.cpp:310-323 | getNode finds the node to which the sections lead, in any graph of nodes, or none. |
| JsonNodes.JsonNode.AddNode | base/FPJson.cpp:748-765 | A key is added to an object that lacks it or to an uninitialized node, which becomes an object; otherwise nothing changes. |
| JsonNodes.JsonNode.DictAddObject | base/FPJson.cpp:782-787 | The same with a new empty object. |
| JsonNodes.JsonNode.CreateNode | base/FPJson.cpp:367-425 | createNode fails exactly when the path leads through a node that is neither object nor uninitialized, and then changes nothing; it changes nothing when the path is there; otherwise the deepest node reached gets a chain of new nodes and no other node changes. In every success getNode then finds the result. |
| JsonNodes.Grow | base/FPJson.cpp:407-422 | The chain: one object for each missing section but the last, each with a single entry, and an uninitialized node at the end. |
| JsonNodes.OldPathsStay | base/FPJson.cpp:367-425 | From whatever node, a path that led to a node still leads to that node. |
| JsonNodes.NewPathIsFound | base/FPJson.cpp:310-425 | The created path leads to the last node of the chain. |
| JsonNodes.NothingElseIsFound | base/FPJson.cpp:367-425 | A path that leads somewhere only since the call passes the node that grew and goes on with a beginning of what was missing. |
| JsonNodes.OnlyTheCreatedPathIsNew | base/FPJson.cpp:367-425 | Where a single path leads to the node that grew, as in a tree, the paths that lead somewhere afterwards are exactly those that did before and the beginnings of the created path. |
| JsonNodes.MissingOrFound | base/FPJson.cpp:310-323 | A path is found exactly when none of its sections is missing. |
| PoolProtocol.RunKeepsInv | base/TaskThreadPool.cpp:105-367 | Over every interleaving the counters count the threads, stay in their limits, every accepted task is queued, held or run, and a queued task has a thread awake. |
| PoolProtocol.CountersAreBounded | base/TaskThreadPool.cpp:32-278 | In every reachable state normal <= perfect, busy <= normal + temporary, and with a maximum normal + temporary <= maximum. |
| PoolProtocol.QueuedTasksAreAttended | base/TaskThreadPool.cpp:105-278 | No wake-up is lost: while a task is queued some live thread is not asleep. |
| PoolProtocol.AcceptedTasksRunOnce | base/TaskThreadPool.cpp:105-367 | In every run no task is run more often than it was accepted; when release has returned, each was run exactly as often and the queue is empty. |
| PoolProtocol.EveryTaskRunsIffServiceable | base/TaskThreadPool.cpp:105-367 | release returns with every accepted task run, over all runs, if and only if the settings give a thread at the start or let append create one. |
| PoolProtocol.UnserviceablePoolLosesTask | base/TaskThreadPool.cpp:149-180 | For the other settings, the run in which an accepted task is never run. |
| PoolProtocol.HistoriesAreTrue | base/TaskThreadPool.cpp:105-278 | The two histories the statements above use record the acceptances and executions of the run. |
| PoolProtocol.ReleaseMakesProgress | base/TaskThreadPool.cpp:348-367 | Once release has begun, every step but a refused submission brings its end nearer, and until the end such a step is possible. |
| PoolProgress.QueuedTaskComesUp | base/TaskThreadPool.cpp:105-278 | With serviceable settings a queued task is reached, in an open pool as well: until it is taken the threads do at most three steps for each task taken before it, two for each thread there was and one for each there is, whatever is submitted meanwhile; it keeps its place, and some thread can always lock, run or finish. |
| PoolProgress.WorkLowers | base/TaskThreadPool.cpp:195-278 | The measure behind it: with a task queued every lock, wake-up, run and finish lowers the work begun, but for three units with each task taken. |
| PoolThreads.QueueIsBounded | base/TaskThreadPool.cpp:105-126 | In every run, with a limit, no more tasks are queued than it allows. |
| PoolThreads.ThreadsServe | base/TaskThreadPool.cpp:195-278 | In every run a normal thread leaves only when release has begun, and a temporary one only then or when it has waited without a task for its whole latency; with none left it does not go to sleep. |
| PoolProtocol.SubmitKeepsInv | base/TaskThreadPool.cpp:105-180 | wakeUp with its append and its notify_one keeps the invariant, whichever waiter is woken. |
| PoolProtocol.IdleKeepsInv | base/TaskThreadPool.cpp:195-278 | A thread that finds the queue empty may wait or leave without breaking the invariant. |
| TaskThreadPools.TaskThreadPool.ReviseDataRelation | base/TaskThreadPool.cpp:32-46 | The field updates give the revised settings. |
| TaskThreadPools.TaskThreadPool.Init | base/TaskThreadPool.cpp:32-80 | init revises the settings, starts the initial number of normal threads and leaves the initial state of the protocol. |
| TaskThreadPools.TaskThreadPool.Append | base/TaskThreadPool.cpp:149-180 | append is the protocol's growth: one temporary thread, or normal threads up to the perfect count. |
| TaskThreadPools.TaskThreadPool.WakeUp | base/TaskThreadPool.cpp:105-180 | wakeUp is refused exactly when the pool is not initialised, is closing, or has a limit that the queue has reached, and then changes nothing. An accepted task stands last in the queue. When fewer threads are there than tasks run and wait, as many normal threads join as append says and the perfect count leaves room for, or, at the perfect count, one temporary one if the maximum allows; the chosen waiter is woken. When the settings let tasks be served, some worker is awake. |
| TaskThreadPools.TaskThreadPool.ProcessSection | base/TaskThreadPool.cpp:195-216 | The critical section of a normal thread keeps the invariant and the limits; the thread goes to sleep only over an empty queue of a pool that is not closing, and while tasks are queued some worker is awake. |
| TaskThreadPools.TaskThreadPool.TemporarySection | base/TaskThreadPool.cpp:233-265 | The same for a temporary thread with its remaining latency. |
| TaskThreadPools.TaskThreadPool.BeginRelease | base/TaskThreadPool.cpp:348-356 | When release has set the exit flag and notified all, nobody sleeps, nothing more is accepted, what was accepted stays queued, and the invariant holds. |
| TaskThreadPools.TaskThreadPool.EndRelease | base/TaskThreadPool.cpp:357-367 | When release returns, every worker has left and, when the settings let tasks be served, the queue is empty and the tasks run are exactly those accepted. |
| RecencyLists.RunIsLeastRecentlyUsed | base/LruHashMap.h:122-307 | After any run of use, fresh_node, stale_node, insert, replace, remove, remove_node and drain: at most max_size entries, unique keys, each with the value stored last, in the order of their last use, and in front of them those made stale since, the latest first. |
| RecencyLists.OnlyTheStalestIsEvicted | base/LruHashMap.h:163-307 | A key leaves the map only by being removed or drained, or as the stalest one when a new key comes in at capacity. |
| LruHashMaps.LruHashMap.Find | base/LruHashMap.h:124-138 | find searches the chain and finds the entry of the key if there is one; nothing moves. |
| LruHashMaps.LruHashMap.Use | base/LruHashMap.h:141-160 | use finds the entry and makes it the freshest; the order of the others stays. |
| LruHashMaps.LruHashMap.Insert | base/LruHashMap.h:163-191 | insert refuses a key that is there, and else adds the entry as the freshest, evicting exactly the stalest one at capacity. |
| LruHashMaps.LruHashMap.Replace | base/LruHashMap.h:194-227 | replace overwrites the value and refreshes the entry, or inserts it. |
| LruHashMaps.LruHashMap.Remove | base/LruHashMap.h:230-252 | remove takes out the entry of the key and no other. |
| LruHashMaps.LruHashMap.RemoveNode | base/LruHashMap.h:255-276 | remove_node takes the node out of its chain and of the tail queue: the contents are those after remove of its key. |
| LruHashMaps.LruHashMap.FreshNode | base/LruHashMap.h:279-286 | fresh_node makes the entry of the node the freshest, as a use of its key does, and nothing else. |
| LruHashMaps.LruHashMap.StaleNode | base/LruHashMap.h:289-296 | stale_node makes the entry of the node the stalest and nothing else. |
| LruHashMaps.LruHashMap.Drain | base/LruHashMap.h:299-307 | drain removes the stalest entries: the freshest are left, the given number fewer than there were, or none. |
| LruHashMaps.LruHashMap.Search | base/LruHashMap.h:124-138 | The walk along a chain finds the node of the key with the node before it, exactly when the table has one. |
| LruHashMaps.LruHashMap.Unchain | base/LruHashMap.h:230-276 | Taking a node out of its chain leaves the chains of the other nodes intact. |
| LruHashMaps.LruHashMap.AddNode | base/LruHashMap.h:163-227 | The common part of insert and replace: evict at capacity, link the new node into its chain, append it to the queue. |
| TailQueues.TailQueue.InsertTail | base/queue.h:329-334 | The link updates append the element. |
| TailQueues.TailQueue.InsertHead | base/queue.h:319-327 | The link updates put the element in front. |
| TailQueues.TailQueue.Remove | base/queue.h:353-360 | The link updates take the element out and keep the order of the others, at either end and in the middle. |
| TimerProtocol.IdsAreUnique | base/FPTimer.epoll.cpp:373-521 | In every reachable state and for every size of the buffer of recycled ids, the two maps are inverse to each other and hold the tasks that are not removed, each id given out is live or recycled and never both, and the next id is positive and not live. |
| TimerProtocol.TasksAreInOnePlace | base/FPTimer.epoll.cpp:275-413 | A task is queued at most once. While it is queued, or while a run of it is with the thread pool, another run can be there only if it is a period task; a task that its job is still to reschedule is not queued. |
| TimerJobs.DispatchesAreJobs | base/FPTimer.epoll.cpp:364-371 | In every run each dispatch of a task gives the thread pool exactly one job of it, and nothing else does. |
| TimerJobs.RunsOverlap | base/FPTimer.epoll.cpp:364-371 | A period task whose runs outlast its period: for every n, a run after which it is queued with n unfinished runs at the pool. |
| TimerJobs.QueuedWithTwoRuns | base/FPTimer.epoll.cpp:364-371 | The shortest such case: a period of 10, run at once, and checked at 10. |
| TimerProtocol.TriggersKeepTheBeat | base/FPTimer.epoll.cpp:16-52 | However late the checks come, the i-th trigger of a period task is its first one plus i periods; a daily task keeps its time of day. |
| TimerProtocol.CyclesAreExact | base/FPTimer.epoll.cpp:16-81 | A task with n > 0 cycles is dispatched at most n times; one that the user did not remove, is not queued and is not to be rescheduled by a job any more has had exactly n > 0 dispatches and is in neither map. |
| TimerProgress.DispatchedIffNotStuck | base/FPTimer.epoll.cpp:275-310 | While the user removes no task, a queued task can get its next dispatch if and only if no endless task of period zero is queued with an earlier trigger; if so, rounds of checkTasks suffice. |
| TimerProgress.FinishedIffUnblocked | base/FPTimer.epoll.cpp:275-413 | While the user removes no task and the clock does not go back, a task with n > 0 cycles can be brought to exactly n dispatches, all of them run, and out of both maps if and only if no endless task of period zero stands in its way: none is queued before the earliest moment of its last dispatch (at that moment counts too when a job reschedules it, which needs the lock that the loop of checkTasks holds), and none that is due keeps that loop going while the job of its last run waits for the lock. |
| TimerProgress.AdditionsFinishIffNothingSticks | base/FPTimer.epoll.cpp:275-490 | In every reachable state with the lock free, every finite task that is added now, to run at once or later, can be brought to its end if and only if no endless task of period zero is queued. |
| TimerProgress.TaskThatWaitsForEver | base/FPTimer.epoll.cpp:275-310 | A task to be run once that is added behind an endless task of period zero, and is due later, can never be dispatched. |
| TimerProgress.TaskThatNeverEnds | base/FPTimer.epoll.cpp:275-310 | So it can not be brought to its end either, whatever the clock shows. |
| TimerSteps.TurnsAreBounded | base/FPTimer.epoll.cpp:275-413 | In every run, whatever the other tasks and the user do, a task with n > 0 cycles takes no more steps than its work. |
| TimerSteps.WorkOfNewTask | base/FPTimer.epoll.cpp:418-472 | The work of a task that is queued for the first time is 3n + 1. |
| TimerSteps.StepsDoTheWork | base/FPTimer.epoll.cpp:275-413 | The measure behind it: a step that concerns the task lowers its work, and no other step changes it. |
| TimerSteps.NoWorkIffFinished | base/FPTimer.epoll.cpp:385-413 | A task that is not removed by the user has no work left exactly when it has had its n dispatches, none of its runs is with the pool any more, and it is neither queued nor in a map. |
| TimerProgress.LimitMovesAway | base/FPTimer.epoll.cpp:16-81 | No step brings the earliest moment of the last dispatch nearer, and the last dispatch is a round that comes then or later: the first trigger plus n - 1 periods for a period task, and for a repeated one an interval from each run to the next. |
| TimerProtocol.KeysAreFrozenInTheQueue | base/FPTimer.epoll.cpp:275-413 | No step changes the trigger of a task that stays in the priority queue. |
| TimerProtocol.RemovedTaskIsNotDispatched | base/FPTimer.epoll.cpp:492-506 | After removeTask(id) has returned, no run dispatches the task again, even if its job was with the thread pool. |
| TimerWakes.WakesInTimeIff | base/FPTimer.epoll.cpp:243-362 | With at most k tasks queued no trigger is ever slept over, in any run, if and only if the pipe gives the room of each message free at once or k is at most its room less a page and one more. |
| TimerWakes.DefaultPipe | base/FPTimer.epoll.cpp:189-198 | With a pipe as Linux makes it that is at most 15361 queued tasks. |
| TimerWakes.SleepingOver | base/FPTimer.epoll.cpp:275-362 | For any larger k, a run in which the write that should wake the event thread fails and it sleeps ten minutes past a trigger. |
| TimerWakes.PushIsHeardIff | base/FPTimer.epoll.cpp:353-362 | A task that is queued is slept over exactly when the event thread sleeps unnotified up to a later moment and the pipe is full. |
| TimerWakes.StepKeepsPipe | base/FPTimer.epoll.cpp:275-310 | No more messages are unread than tasks are queued, and under that limit a sleeping event thread that nobody has notified can be. |
| TimerWakes.StepWakes | base/FPTimer.epoll.cpp:275-413 | As long as it can, every step keeps the event thread from sleeping past a trigger. |
| TimerProtocol.RunKeepsInv | base/FPTimer.epoll.cpp:275-521 | Every step of every interleaving keeps the invariant behind these statements. |
| TimerProtocol.PeriodTaskIsSent | base/FPTimer.epoll.cpp:401-413 | Rescheduling before the dispatch counts the cycle down and moves the trigger by one period, or retires the task with its last dispatch. |
| TimerEffects.RoundDecides | base/FPTimer.epoll.cpp:275-310 | A round of checkTasks dispatches the task on top, once, when it is due and not removed; a removed one only goes; when it is not due, everything stays and the event thread sleeps up to the trigger, at most ten minutes. |
| TimerEffects.OnlyDueTasksAreSent | base/FPTimer.epoll.cpp:275-371 | No step dispatches a task of the table but a round over it at its trigger or later. |
| TimerProtocol.OutIsDecided | base/FPTimer.h:63-75 | A job's decision makes its task ready for the next trigger, or finds its cycles used up. |
| TimerChecks.LoopEndsIffNothingSpins | base/FPTimer.epoll.cpp:275-310 | With the clock read anew in every round, but never past a given moment, the loop of checkTasks ends if and only if no queued task that is due by then is endless and of period zero. |
| TimerChecks.LoopIsBounded | base/FPTimer.epoll.cpp:275-310 | The bound: one round for each due trigger of each queued task. |
| TimerChecks.SpinningLoop | base/FPTimer.epoll.cpp:275-310 | Over a task that is due, endless and of period zero the loop goes on as long as one likes. |
| TimerChecks.RoundsAreInOrder | base/FPTimer.epoll.cpp:275-310 | The rounds of one call meet their tasks in the order of the triggers. |
| Timers.Timer.CheckTasks | base/FPTimer.epoll.cpp:275-310 | The loop is a run of rounds, each with its own reading of the clock; by the last reading it leaves nothing that is due in the queue, and waits 2 seconds on an empty queue and else up to the earliest trigger, at most 10 minutes. |
| Timers.Timer.Add | base/FPTimer.epoll.cpp:418-490 | An addition returns a positive id that no live task has, under which the new task is found; the others stay. To run at once, it makes exactly one job, of the new task, and one dispatch, and a period task is queued again with its next trigger, or retired when it was its only cycle. Otherwise there is no job and no dispatch, and the task waits in the queue for now plus its period or interval. It is the protocol's step. |
| Timers.Timer.RemoveTask | base/FPTimer.epoll.cpp:492-506 | removeTask(id) takes the task of the id out of both maps and recycles the id, whatever the others are, and leaves an unknown id alone; it is the protocol's cancellation. |
| Timers.Timer.Remove | base/FPTimer.epoll.cpp:508-521 | removeTask(task) takes the task out of both maps and recycles its id; every other live task keeps its id, and the two maps stay inverse to each other. |
| Timers.Timer.ExecuteTask | base/FPTimer.epoll.cpp:364-371 | executeTask makes one job and one dispatch of the task; a period task is counted down and queued with its next trigger first, or retired, and any other is left to its job. |
| Timers.Timer.RescheduleWithoutLocker | base/FPTimer.epoll.cpp:401-413 | The next trigger is queued, or the task retired. |
| Timers.Timer.Decide | base/FPTimer.epoll.cpp:385-394 | What reschedule does before it locks: one cycle less if they are counted, and unless it was the last the next trigger, which for a repeated task is its interval from now; nothing else changes. |
| Timers.Timer.Finish | base/FPTimer.h:63-75 | The job of a period task has nothing to do behind its run. |
| Timers.Timer.Commit | base/FPTimer.epoll.cpp:385-399 | What reschedule does under the lock: the task goes back into the queue, or out of both maps when its cycles are over. |
| Timers.Timer.AssignId | base/FPTimer.epoll.cpp:373-383 | The id given is positive, belongs to no live task, and is the only one that is then neither live nor recycled; it is the oldest recycled one once the buffer is full. |
| Heaps.FixUp | base/heap.h:13-17 | Moving an element up restores the heap and permutes its elements. |
| Heaps.FixDown | base/heap.h:20-27 | Moving an element down restores the heap below it and permutes its elements. |
| Heaps.Heapify | base/heap.h:80-84 | Any array becomes a heap of the same elements. |
| Heaps.HeapSort | base/heap.h:69-76 | A heap becomes the sorted array of the same elements. |
| Heaps.RootIsLargest | base/heap.h:5-7 | No element of a heap is above its root. |
| Rendezvous.HashWhich | base/hseq.c:155-191 | which gives the bucket with the largest product of weight factor and hash in a weighted table, and with the largest hash in any other, the lowest index among equals; it is the first of the full sort. |
| Rendezvous.HashSequence | base/hseq.c:222-290 | The streaming selection on a heap gives exactly the first k buckets of that sort, in order: each goes before those behind it and before all that are left out. The rest of the output is left alone. |
| Rendezvous.DrainedBucketIsPassedOver | base/hseq.c:155-173 | In a weighted table a bucket of factor zero is not the answer while another one has a product above zero. |
| Rendezvous.LargerFactorAttracts | base/hseq.c:155-173 | When the factor of one bucket grows, keys go over to that bucket and to no other, and it loses none. |
| Rendezvous.SelectBest | base/hseq.c:222-257 | After the scan the heap holds the k best buckets. |
| Rendezvous.TopIsPrefix | base/carp.c:203-271 | A shorter sequence is the beginning of a longer one. |
| Rendezvous.FirstIsWhich | base/carp.c:152-271 | The first entry of a sequence is the answer of which. |
| Rendezvous.DeletionKeepsOrder | base/hseq.c:34-290 | For every key, a table of equal weights created without one of its buckets ranks the others as before, each at its place or one further up. |
| Rendezvous.DeletionMovesOnlyOwnKeys | base/hseq.c:34-191 | So the answer changes only for the keys of the deleted bucket. |
| Rendezvous.ScoresStay | base/hseq.c:34-119 | hseq_create without a bucket gives each of the others its old score, when all weights are equal. |
| Rendezvous.RankFollowsOrder | base/hseq.c:204-204 | The ranks that define the full sort follow its order, and no two buckets share one. |
| HSequences.HSequence.Which | base/HSequence.cpp:66-84 | Over any run of calls, with or without the cache, the answer is that of the search for the masked key. |
| HSequences.HSequence.EnableCache | base/HSequence.cpp:46-64 | Cells are allocated exactly when the mask and the number of buckets allow it, and every value that is ever stored fits its cell of one or two bytes. |
| HSequences.HSequence.constructor | base/HSequence.cpp:7-37 | The mask plus one is the least power of two not below the given one, so that a masked key is always in range; 1 gives two cells. |
| HSequences.RoundUpPowerTwo | base/bit.c:115-125 | The shift loop gives the least power of two not below x for all x from 2 up to where the sign bit sets in, but 2 for 1 and 0 for 0 and beyond. |
| HSequences.AnswerIsUnique | base/HSequence.cpp:66-84 | There is one answer for a key, so that the cached one and a new one agree. |
| MemoryPools.UnlockedMemoryPool.Gain | base/UnlockedMemoryPool.cpp:485-508 | gain returns a block that is not handed out; it is refused exactly when the pool is not initialised or has no free block and may or can not get one. The first free block is taken; without one as many are added as are set, granted and below the soft limit, or at the soft limit one overdraft. The three lists stay disjoint and well linked, the counters are their lengths, free and used stay within the soft limit, and all within the hard one. |
| MemoryPools.UnlockedMemoryPool.Recycle | base/UnlockedMemoryPool.cpp:521-549 | A block that was handed out becomes the first free one, an overdraft leaves the pool; the other blocks stay where they are. |
| MemoryPools.UnlockedMemoryPool.Append | base/UnlockedMemoryPool.cpp:256-285 | As many free blocks are added as are needed and granted, up to the soft limit; beyond it one overdraft, unless the hard limit is met. Testing equality suffices, because the total never passes the limit. |
| MemoryPools.UnlockedMemoryPool.GainNode | base/UnlockedMemoryPool.cpp:22-48 | The first free block becomes the first used one. |
| MemoryPools.UnlockedMemoryPool.RecycleNode | base/UnlockedMemoryPool.cpp:67-93 | A used block, wherever it is in its list, becomes the first free one. |
| MemoryPools.UnlockedMemoryPool.RecycleOverdraftNode | base/UnlockedMemoryPool.cpp:111-133 | An overdraft block is taken out of its list and the total. |
| MemoryPools.UnlockedMemoryPool.AppendNode | base/UnlockedMemoryPool.cpp:151-199 | As many new blocks as are needed and granted are hung behind the free ones. |
| MemoryPools.UnlockedMemoryPool.AppendOverdraftNode | base/UnlockedMemoryPool.cpp:216-239 | A granted overdraft becomes the first of its list. |
| MemoryPools.UnlockedMemoryPool.ReviseDataRelation | base/UnlockedMemoryPool.cpp:301-315 | The limits are brought into order: initial <= perfect, and perfect <= maximum if there is one. |
| MemoryPools.UnlockedMemoryPool.Init | base/UnlockedMemoryPool.cpp:335-400 | init succeeds unless blocks are asked for and none is granted; each argument becomes its setting, revised, and as many blocks are free as are asked for and granted. |
| MemoryPools.UnlockedMemoryPool.Clean | base/UnlockedMemoryPool.cpp:413-450 | Every block of the three lists is freed exactly once. |
| BlockLists.TakeOut | base/UnlockedMemoryPool.cpp:67-93 | The link updates take a block out of any place of a list. |
| BlockLists.AttachBehind | base/UnlockedMemoryPool.cpp:178-196 | The walk to the last block hangs the new chain behind it. |
| ChainBuffers.ChainBuffer.Append | base/ChainBuffer.cpp:56-75 | append concatenates, for every capacity and wherever the blocks end; all blocks but the last stay full. |
| ChainBuffers.ChainBuffer.WriteTo | base/ChainBuffer.cpp:77-112 | writeTo copies what the blocks hold from the offset on, as much as is asked for and the chain has room for, and returns how much; within the length that is the slice of the contents. |
| ChainBuffers.ChainBuffer.Find | base/ChainBuffer.cpp:300-353 | find gives the first place from the start on that holds the byte, with its block and offset, or -1 if there is none. |
| ChainBuffers.ChainBuffer.Memcmp | base/ChainBuffer.cpp:355-387 | memcmp is true exactly for a non-empty target that lies within the length and equals the slice. |
| ChainBuffers.ChainBuffer.GetLines | base/ChainBuffer.cpp:389-449 | getLines adds the lines of the bytes from the offset on, wherever the blocks end; from the length on it adds nothing. |
| Chunks.LinesArePartedByBreaks | base/ChainBuffer.cpp:389-449 | Lines are the non-empty runs between CR and LF: a text without a break is one line unless it is empty, and a break parts the lines before it from those after it. |
| ChainBuffers.LinesOfBlock | base/ChainBuffer.cpp:402-446 | Within one block the runs go on with the open line or make new ones. |
| Chunks.FlatAt | base/ChainBuffer.cpp:314-353 | A block's bytes, found in the flat string. |
| Digests.Context.Update | base/md5.c:163-201 | After any updates the context depends only on the concatenation: the state is the compression of its full blocks, the buffer holds the rest, the two words its length modulo 2^64. |
| Digests.Context.Finish | base/md5.c:218-237 | finish compresses the padded message of sections 3.1 and 3.2 of RFC 1321: a one bit, zeros, and the number of bits modulo 2^64. |
| Digests.Checksum | base/sha256.c:262-270 | The digest bytes of a message are the words of the compression of its padded form, low byte first for MD5 and high byte first for SHA-1 and SHA-256. |
| Digests.Get | base/md5.c:210-216 | The words of the state are written one behind the other in the byte order of the digest. |
| Digests.WrittenIsInjective | base/sha1.c:255-262 | Different states have different digests. |
| Digests.Context.Count | base/sha1.c:204-223 | The two 32-bit words with their carry count modulo 2^64. |
| Digests.BitCount | base/sha1.c:264-275 | The shifts that make the two words of the length give the number of bits. |
| Digests.PaddedIsWhole | base/md5.c:218-237 | A padded message is a row of full blocks, and the padding is as short as it can be. |
| Digests.PaddedAt | base/md5.c:218-237 | Every byte of it: behind the message 0x80, then zeros, and in the last eight bytes the number of bits modulo 2^64 in the order of the digest. |
| Digests.DigestAt | base/md5.c:210-216 | Every byte of a digest: word i of the state stands in bytes 4i to 4i + 3, in that order. |
| Digests.PaddingIsInjective | base/sha256.c:241-260 | Messages of fewer than 2^61 bytes are told apart by their padded forms. |
| Digests.FoldSum | base/sha1.c:204-246 | Compressing block by block does not depend on where a message is cut between blocks. |
| Digests.Put | base/md5.c:32-38 | PUT_UINT32 stores the four bytes of a word in the order of the digest. |
| Base64.Init | base/base64.c:49-74 | The alphabet is refused exactly when it is shorter than 64 or has a character twice among its 64 and the padding; otherwise the table inverts it. |
| Base64.Encode | base/base64.c:76-132 | The group loop with its line breaks and its rest gives the encoding. |
| Base64Layout.PlainAt | base/base64.c:90-132 | Which letter stands where: letter i is the six bits i of the bytes, the last ones filled up with zeros, and behind the letters there is padding only. |
| Base64Layout.PlainLength | base/base64.c:90-132 | How long an encoding is: a multiple of four with padding, and as many letters as the bits take without. |
| Base64Layout.BreaksStand | base/base64.c:97-98 | With line breaks, one stands behind every 76 characters and nowhere else, and between them stands the encoding without. |
| Base64.Decode | base/base64.c:134-196 | The bit collector gives the bytes of the sextets in front of what stops it, and fails exactly when that is an error or bits are left over. |
| Base64.OctetsOfSextets | base/base64.c:92-129 | The bytes of the sextets of a byte string are the string, and no bits are left over. |
| Base64.SextetsOfOctets | base/base64.c:167-187 | The sextets of the bytes of sextets without bits left over are those sextets. |
| Base64.KeptAtTheEnd | base/base64.c:190-193 | The decoder's test of its last bits is the test that the sextets make whole bytes. |
| Base64RoundTrip.DecodeUndoesEncode | base/base64.c:76-196 | For every byte string, every accepted alphabet, with or without padding and line breaks, decoding the encoding gives back the string; with line breaks the alphabet must not hold the line feed and the decoder must tolerate it. |
| Base64RoundTrip.EncodeUndoesDecode | base/base64.c:76-196 | Of the texts of alphabet characters the decoder takes exactly those whose sextets make whole bytes, and encoding the result without padding restores the text. |
| Base64Tolerance.DecoderTakes | base/base64.c:134-196 | For every text, length and tolerance: the decoder takes the text exactly when every foreign byte in front of the padding is tolerated and the letters make whole bytes, and it gives the bytes of those letters. Tolerated is, when white space is to be ignored, white space and any first byte of a run of foreign bytes; when all foreign bytes are, any; and the last byte of the length in any case. |
| Base64Tolerance.LoneForeignByteIsPassed | base/base64.c:156-162 | With white space to be ignored, any single foreign byte between letters is passed over, so that QU#JD decodes as QUJD does. |
| Base64Tolerance.ScanIsDeclared | base/base64.c:142-188 | The scan of the decoder from any letter boundary gives the letters up to the padding or the end, or refuses what is not tolerated. |
| PriorityQueues.FormsAgree | base/ParamTemplateThreadPool.h:209-379 | Over any run both forms hold and have taken as many prior and the same ordinary tasks. They differ only in the order of prior tasks, which the pair of queues serves as they came. |
| PriorityQueues.PriorTasksGoFirst | base/ParamTemplateThreadPool.h:344-366 | When a call takes an ordinary task, every prior task called for so far has been taken. |
| PriorityQueues.OrdinaryTasksKeepTheirOrder | base/ParamTemplateThreadPool.double.queue.h:210-380 | Ordinary tasks leave in the order in which they were accepted. |
| PriorityQueues.DequePool.TakeFront | base/ParamTemplateThreadPool.h:344-366 | The front of the deque is the newest prior task that waits or, once all are taken, the ordinary task accepted first of those not taken yet. |
| PriorityQueues.DequePool.PriorWakeUp | base/ParamTemplateThreadPool.h:257-279 | The deque stays the prior tasks, newest first, followed by the ordinary ones, oldest first. |
| PriorityQueues.DequePool.WakeUp | base/ParamTemplateThreadPool.h:209-231 | An ordinary task is refused exactly when as many tasks wait as the limit allows, and else is the last of those accepted. |
| PriorityQueues.DoubleQueuePool.TakeFront | base/ParamTemplateThreadPool.double.queue.h:339-370 | The pair of queues gives the prior task that came first of those not taken yet or, once all are taken, the ordinary task accepted first of those not taken yet. |
| PriorityQueues.DoubleQueuePool.WakeUp | base/ParamTemplateThreadPool.double.queue.h:210-232 | An ordinary task is refused exactly when as many tasks wait in both queues together as the limit allows, and else is the last of those accepted. |

## Left out

- Real numbers in the two JSON round trips: the printer's default precision loses digits. The parser side treats them through a parameter for strtod.
- The `want*` and `get*` access functions, `remove` by path, and node access by index.
- The parser's containers enter their parent when they close and not when they open; whether the key is new is still tested when they open. Nodes of a parsed tree are values; sharing is modelled in `JsonNode` only.
- The texts and kinds of exceptions: a parse fails or succeeds.
- The escaper's `int` length: lengths are unbounded and cannot overflow.
- Whether createNode throws or returns null: both are one failure. Reference counts and freeing.
- Failure to create a thread, restarting a pool after release, and the unlocked look at the `_inited` flag as a step of its own.
- PoolProtocol.CountersAreBounded: counters are unbounded integers, where the code has 32 bits.
- Bit operations on disjoint bits are written as sums, quotients and remainders.
- The LRU map: a failed allocation, the rounding of the slot count to a power of two (the hash is reduced by a remainder), a maximum size of zero, and the walk along neighbours.
- The timer's stop and clean, the file descriptors (the pipe is a count of unread messages with a room in pages; a write that it accepts is taken to wake the event thread), a thread pool that refuses a dispatch, and the calendar computation behind a daily task's first trigger, which is a parameter.
- The timer's task objects as objects: they are records in a table in the order of their creation, and the queue and the maps name them by their place there; times are unbounded, where the code has 64 bits. The priority queue's inner heap is its top only.
- Timers.Timer.CheckTasks: the clock is not read past a given moment, by which no queued task may spin; the lemma beside it shows that the loop need not end otherwise.
- The two copies of the rendezvous hash for weighted and unweighted tables and those of `carp.c`: they are modelled as one; scores and indices are one array of pairs; scores are real numbers that are not negative; the weight factors of a weighted table are parameters, so that what a deletion does to them is not part of the model.
- The check sums of keys that are given to the sequence as bytes.
- The memory pool's block header and the rounding of the block size. Freed blocks are unreachable rather than gone.
- The chain buffer's reading from and writing to files and descriptors, and the vector of blocks.
- The digests' compression functions.
- The two constant tables of the base64 codec; its output buffers are values.
- The threads and counters around the priority queues, which are those of the task pool.
- Rates, sockets, logging, compression, process information and the other modules of the library.
