# Verified models of eight small systems programs

The repository is a collection of independent programs. For eight of them this project holds a Dafny
model of the logic and proofs of what the program is for. `dafny verify dfyconfig.toml` checks
everything.

**Treiber stack and its stress test** (`TreiberStack`, `TreiberInvariant`, `TreiberLinearizability`,
`TreiberTheorems`, `TreiberRetirement`, `TreiberDrain`, `TreiberProgram`, `TreiberFinish`, `AtomicStack`,
`Sequences`). The lock-free stack is a transition system with one step per atomic access and per read or write of a node's `next` or `value`. Any number
of threads interleave at will, and a weak compare-exchange may fail for no reason. The steps log calls,
returns and the moment each operation takes effect; an empty pop takes effect at the read of `head` that
saw null, not at the test that follows. The results are an invariant on the whole heap, linearizability,
lock-freedom bounds for both loops of a pop, the absence of ABA, the two walks of the destructor, and the
verdict of the stress test for any numbers of producers, items and consumers; the program ends in a
state the destructor may run in, cannot deadlock, and can finish from wherever it is. Accesses are
sequentially consistent.

**LSM tree** (`Bytes`, `SSTable`, `TableNames`, `LsmStore`, `LsmBound`, `LsmTree`). `LsmTree` holds the
class, method by method, over a file system of paths and bytes. `LsmStore` says what the methods do to
the abstract store, and compares it with a plain map over every history of puts, deletions, flushes and
restarts. The comparison holds up to exactly 10000 tables: the file names have four digits, and table
10000 sorts behind table 9999. The sentinel for deleted entries is built from a C string that begins
with NUL, so it is the empty string, not the text its definition shows: storing an empty value is a
deletion.

**Coroutine scheduler** (`RoundRobin`, `Scheduler`). A coroutine is the number of times it still yields.
The class keeps the state array, the index `current`, the cyclic search and the one-shot `done_ctx`. The
complete trace of dispatches is proved equal to its closed form: round `r` runs, in ascending order, the
coroutines that yield at least `r` times.

**Continuing a hash from its digest** (`Words`, `MerkleDamgard`, `HashResume`). SHA-256 without its compression
function, which is a parameter: padding, iteration and the streaming context of FIPS 180-4, and the
function that sets up a context from a digest. The result is right for all keys and compression
functions exactly below 2^29 bytes, where the 32-bit lengths of the code begin to wrap.

**DNS query and response** (`DnsName`, `DnsMessage`). The encoder and the query builder write into
arrays; the parser returns the records that the program prints. Where the program would read behind the
bytes it received, the parser's outcome is `PastEnd`.

**Ring buffer** (`RingBuffer`). The class over an array of slots that may hold no value. A moved-out
value leaves an empty slot. Every value taken over is given back once or destroyed once.

**Bloom filter** (`Words`, `Bits`, `BloomFilter`, `BloomProbes`). The two string hashes and the probes in wrapping 64-bit
arithmetic, and the filter's answers in terms of the probes of what was inserted.

**Arena** (`Words`, `Bits`, `Arena`). The bump allocator in wrapping 64-bit arithmetic: the bit mask is alignment
upwards, and the allocator is right exactly when the new offset does not wrap to one that seems to fit.

A method of a class is proved against a function on values, by an `ensures` that equates its results and
the new state with that function; the lemmas are about the functions. Where one loop or body of the
source is split over several methods, the table says so. What the functions themselves compute is fixed
by lemmas that do not use them: in bytes and literal numbers, in chains of single steps, or in terms of
all earlier operations and replies.

## Model

| member | source | states |
|---|---|---|
| TreiberTheorems.RunInv | 02-treiber_lock_free_stack/main.cpp:24-66 | In every state of every run, every allocated node is on the acyclic head chain, on the acyclic trash chain or in the hands of exactly one thread, and the log of operations explains the stack's contents |
| TreiberTheorems.RunsAreLinearizable | 02-treiber_lock_free_stack/main.cpp:24-66 | Linearizability for any number of threads: the recorded takes replay on a sequential LIFO stack with the results the threads return and leave exactly the values on the head chain; calls and returns form a linearizable history |
| AtomicStack.ReturnFollowsItsTake | 02-treiber_lock_free_stack/main.cpp:24-66 | In an accepted log every return has its call and, strictly between the two, its take with the same result, and the thread does nothing else in between: the linearization respects real-time order |
| AtomicStack.VisibleExactly | 02-treiber_lock_free_stack/main.cpp:24-66 | The history that is linearized consists of all calls and returns of the log, in order, and of nothing else |
| AtomicStack.Conservation | 02-treiber_lock_free_stack/main.cpp:24-61 | In every accepted log the values pushed are, as a multiset, the values popped plus the values left |
| TreiberTheorems.NothingLostOrDuplicated | 02-treiber_lock_free_stack/main.cpp:24-61 | In every run the values pushed are, with multiplicity, the values popped plus those on the head chain |
| TreiberTheorems.SuccessfulPopIsCurrent | 02-treiber_lock_free_stack/main.cpp:44-49 | When the compare-exchange of a pop succeeds, the `newHead` it read earlier is the current `next` of the head node, although retired nodes are relinked while other threads hold them |
| TreiberTheorems.NodesNeverReturn | 02-treiber_lock_free_stack/main.cpp:52-57 | A node that has left the head chain is never on it again in the rest of the run |
| TreiberTheorems.FailuresNeedOthersSuccess | 02-treiber_lock_free_stack/main.cpp:31-49 | A thread's failures on `head` that are not spurious are at most the successes of the other threads, one fewer while a read of its own is outdated |
| TreiberLinearizability.FailuresAreLogged | 02-treiber_lock_free_stack/main.cpp:35-49 | The failures counted are exactly the steps in which a thread about to compare-exchange `head` finds another value than it last read |
| TreiberLinearizability.SuccessesAreLogged | 02-treiber_lock_free_stack/main.cpp:35-49 | The successes counted are exactly the steps in which a compare-exchange on `head` finds the expected value and does not fail spuriously |
| TreiberTheorems.CountsOfPlaces | 02-treiber_lock_free_stack/main.cpp:31-49 | The counts in the bounds on `head` are the numbers of places in the log where such an event stands |
| TreiberTheorems.LockFreedom | 02-treiber_lock_free_stack/main.cpp:31-49 | In every run of T threads the failures on `head` that are not spurious are at most T - 1 times the successes |
| TreiberRetirement.TrashFailuresNeedOthersSuccess | 02-treiber_lock_free_stack/main.cpp:55-59 | A thread's failures on `trash` that are not spurious are at most the other threads' successes there, one fewer while a read of its own is stale |
| TreiberRetirement.TrashLockFreedom | 02-treiber_lock_free_stack/main.cpp:55-59 | In every run of T threads the failures on `trash` that are not spurious are at most T - 1 times the successes, so the second loop of a pop is bounded as the first is |
| TreiberRetirement.CountsOfSteps | 02-treiber_lock_free_stack/main.cpp:55-59 | A thread's failures on `trash` are the steps of the run in which it compares another value than `trash` holds |
| TreiberRetirement.TotalsOfSteps | 02-treiber_lock_free_stack/main.cpp:55-59 | All failures and successes on `trash` are the numbers of steps in which some thread fails or succeeds there |
| TreiberRetirement.OthersOfSteps | 02-treiber_lock_free_stack/main.cpp:55-59 | The same of the successes of threads other than a given one |
| TreiberTheorems.Progress | 02-treiber_lock_free_stack/main.cpp:24-66 | Every thread can always take a step: no node it is about to read or write is missing |
| TreiberTheorems.QuiescentPartition | 02-treiber_lock_free_stack/main.cpp:51-60 | With no operation in progress, the head and trash chains together list every node ever allocated exactly once |
| TreiberTheorems.DeleteChain | 02-treiber_lock_free_stack/main.cpp:70-71 | One walk of the destructor, for the other with 72-73: it deletes the nodes of the chain in order, reads only nodes not yet deleted, and leaves the rest of the heap alone |
| TreiberTheorems.Destroy | 02-treiber_lock_free_stack/main.cpp:69-74 | Both walks together delete every node ever allocated, each exactly once |
| TreiberInvariant.StepShape | 02-treiber_lock_free_stack/main.cpp:24-66 | One step of one thread, whichever it is, keeps the partition of the nodes and what every thread's locals say, and changes the two chains by at most one node at the front |
| TreiberInvariant.PopInstallsCurrentNext | 02-treiber_lock_free_stack/main.cpp:44-49 | Under the invariant, a pop whose expected head is the head holds that node's current `next` and unlinks the front of the chain |
| TreiberLinearizability.StepItems | 02-treiber_lock_free_stack/main.cpp:24-66 | A step changes the values on the head chain exactly as the operation it takes, if any, changes a sequential stack, and its result is the sequential one |
| TreiberLinearizability.StepLog | 02-treiber_lock_free_stack/main.cpp:24-66 | After any step the extended log still replays to the values on the head chain and puts every thread where it is |
| TreiberProgram.ProgramInv | 02-treiber_lock_free_stack/main.cpp:78-120 | In every state of every run of the whole program each value pushed so far is on the stack or with exactly one consumer, and `done` is up only when all producers have finished |
| TreiberProgram.Drained | 02-treiber_lock_free_stack/main.cpp:83-91 | Once all consumers, at least one, have returned, the head is null, their sets are pairwise disjoint and together they are exactly the values of all work lists |
| TreiberProgram.FinishedCollectsAll | 02-treiber_lock_free_stack/main.cpp:109-120 | The set merged by the main thread is exactly the set of values of all work lists |
| TreiberProgram.FinishedWithoutConsumers | 02-treiber_lock_free_stack/main.cpp:104-120 | With no consumer the merged set is empty: at least one consumer is needed |
| TreiberProgram.RangesCover | 02-treiber_lock_free_stack/main.cpp:78-81 | The producers' ranges cover exactly the numbers below producers times n |
| TreiberProgram.RangesDistinct | 02-treiber_lock_free_stack/main.cpp:78-81 | No number is pushed twice |
| TreiberProgram.StressTestPasses | 02-treiber_lock_free_stack/main.cpp:95-129 | For any numbers of producers, items and consumers, at least one consumer, the program's verdict is PASS: the collected set has producers times n elements and they are the expected ones |
| TreiberProgram.FinishedQuiescent | 02-treiber_lock_free_stack/main.cpp:68-120 | When the main thread has finished, no operation is in progress, so the destructor's precondition holds; with at least one consumer the head chain is empty and every node ever allocated has been retired |
| TreiberFinish.RunOperation | 02-treiber_lock_free_stack/main.cpp:24-66 | A thread that runs alone, from anywhere inside an operation, comes to its return, with the result and the effect of the sequential operation if it has not taken place yet |
| TreiberFinish.EveryRunCanFinish | 02-treiber_lock_free_stack/main.cpp:78-120 | Every run of the program, whatever has happened in it, can be continued to one in which the main thread has finished |
| TreiberFinish.NoDeadlock | 02-treiber_lock_free_stack/main.cpp:78-120 | Until the main thread has finished, some step is always possible |
| TreiberFinish.SomeRunPasses | 02-treiber_lock_free_stack/main.cpp:95-129 | For any numbers of producers, items and consumers there is a finished run, and with at least one consumer it has collected all values |
| LsmTree.LSMTree.constructor | 08-LSM_tree/main.cpp:26-40 | A new or existing directory of this program's tables gives an empty memtable, the number of tables and the paths in descending order, whatever the order of the listing |
| LsmTree.LSMTree.FindTables | 08-LSM_tree/main.cpp:27-39 | The constructor's body: nothing to find in a new directory; otherwise as many tables as there are files, with the sorted paths |
| LsmTree.LSMTree.CollectPaths | 08-LSM_tree/main.cpp:33-38 | The constructor's loop: every listed name becomes a path, and the counter their number |
| LsmTree.LSMTree.Put | 08-LSM_tree/main.cpp:42-45 | The store becomes the specified one, no existing file changes, and the memtable stays below the threshold |
| LsmTree.LSMTree.Del | 08-LSM_tree/main.cpp:47-49 | The same as storing the sentinel |
| LsmTree.LSMTree.Get | 08-LSM_tree/main.cpp:51-73 | The answer of the specified lookup: memtable first, then the first table in path order that has the key; the sentinel counts as absent |
| LsmTree.LSMTree.MaybeFlush | 08-LSM_tree/main.cpp:76-80 | At the threshold the memtable becomes a new table and is emptied; below it nothing changes |
| LsmTree.LSMTree.Flush | 08-LSM_tree/main.cpp:82-89 | The memtable's listing becomes the next table, older files stay as they are |
| LsmTree.LSMTree.WriteSSTable | 08-LSM_tree/main.cpp:91-110 | The file's name was unused, its bytes are the encoding of the map in key order, and the path list is again the sorted list of all tables |
| LsmTree.LSMTree.WriteEntries | 08-LSM_tree/main.cpp:97-105 | The writing loop produces the encoding of the whole map in ascending key order |
| LsmTree.LSMTree.WriteEntry | 08-LSM_tree/main.cpp:98-104 | The four writes of one entry append its encoding and touch no other file |
| LsmTree.LSMTree.ReadSSTable | 08-LSM_tree/main.cpp:112-137 | The decoding of the file's bytes, nothing for a missing file |
| LsmTree.ReadEntries | 08-LSM_tree/main.cpp:117-136 | The reading loop terminates and gives the decoding of the bytes, whatever they are |
| LsmTree.InputFile.Read | 08-LSM_tree/main.cpp:119-128 | A stream's read: all bytes asked for, or what there is and a cleared state; nothing once the state is cleared |
| LsmTree.FileSystem.ListDirectory | 08-LSM_tree/main.cpp:33 | Every file of the directory once, in an order nothing is known about |
| LsmTree.NextUnused | 08-LSM_tree/main.cpp:85-87 | The name of the next table is not in use |
| LsmTree.SortedListing | 08-LSM_tree/main.cpp:33-39 | Whatever order the directory is listed in, collecting and sorting gives the sorted paths of tables 0 to n - 1 |
| LsmTree.Restart | 08-LSM_tree/main.cpp:26-40 | Reopening a directory gives the same path list and counter as before and loses exactly the memtable |
| LsmStore.GetAgreesWithMap | 08-LSM_tree/main.cpp:42-73 | After every history with at most 10000 tables and lengths below 2^32, a lookup of any key equals the plain map's, and the memtable is below the threshold |
| LsmStore.ReopenedAnswersAsAtLastFlush | 08-LSM_tree/main.cpp:26-40 | A store reopened after any such history answers as the map stood at the last flush |
| LsmStore.ReadYourWrites | 08-LSM_tree/main.cpp:42-58 | After every history within the bounds a put is answered by its value if that has at least one byte, and by nothing if it is empty |
| LsmStore.DeletedIsGone | 08-LSM_tree/main.cpp:17-58 | A deletion gives the same store as a put of the empty string, and a lookup of the key then finds nothing |
| LsmStore.FlushesAtFour | 08-LSM_tree/main.cpp:76-89 | After every history a put writes a table, and empties the memtable, exactly when it brings a fourth key to three others |
| LsmStore.SortedNewestFirst | 08-LSM_tree/main.cpp:107-108 | The sorted path list is newest first if and only if there are at most 10000 tables |
| LsmBound.NewestNotFirst | 08-LSM_tree/main.cpp:85-108 | With 10001 tables the path of the newest is not first in the sorted list |
| LsmBound.StaleRead | 08-LSM_tree/main.cpp:60-70 | A concrete history with one table more than 10000 after which a lookup gives an overwritten value |
| LsmBound.TableLimit | 08-LSM_tree/main.cpp:42-109 | For every n: all lookups after all histories with at most n tables agree with the plain map if and only if n is at most 10000 |
| SSTable.RoundTrip | 08-LSM_tree/main.cpp:91-137 | Decoding the encoding gives the entries back if and only if every key and value length fits 32 bits |
| SSTable.EntryBytes | 08-LSM_tree/main.cpp:98-104 | The bytes of an entry: the key's length as four bytes, least significant first, the key, the value's length likewise, the value |
| SSTable.PrefixReadsPrefix | 08-LSM_tree/main.cpp:112-137 | Any byte prefix of a table reads as a prefix of its entries and at most one more, which has the right key and a value of the right length whose missing bytes are zero |
| SSTable.CutWithin | 08-LSM_tree/main.cpp:117-134 | Which it is when the file ends within entry i: before the value, exactly the entries before it; within the value, these and the entry itself, zero from the cut on |
| SSTable.ReadStep | 08-LSM_tree/main.cpp:118-134 | What reading makes of one entry of which the last bytes may be missing |
| SSTable.DecodedFit | 08-LSM_tree/main.cpp:118-134 | Whatever the bytes, every decoded length fits 32 bits |
| SSTable.WordRoundTrip | 08-LSM_tree/main.cpp:98-103 | A length written as four bytes reads back as itself modulo 2^32 |
| SSTable.ListingSorted | 08-LSM_tree/main.cpp:97 | The entries written are in strictly ascending key order and are exactly the map's bindings |
| SSTable.FindInListing | 08-LSM_tree/main.cpp:63-68 | Searching the entries of a table finds exactly what the map had |
| Bytes.LessExactly | 08-LSM_tree/main.cpp:39 | The order of strings in full: they agree up to a place where the first ends or has the smaller unsigned byte |
| TableNames.PathWritten | 08-LSM_tree/main.cpp:84-85 | The bytes of a path: the directory, "/sstable_", at least four digits that stand for the number with no needless zero beyond four, and ".sst" |
| TableNames.PathInjective | 08-LSM_tree/main.cpp:84-87 | Different numbers give different paths, however long the number |
| TableNames.NamesInAgeOrder | 08-LSM_tree/main.cpp:84-85 | Below 10000 the order of the paths is the order of the numbers |
| TableNames.NameOrderBreaks | 08-LSM_tree/main.cpp:84-85 | The path of table 10000 is less than that of table 9999 |
| TableNames.SortIsDescending | 08-LSM_tree/main.cpp:39 | The sort gives a permutation in descending order |
| TableNames.DescendingUnique | 08-LSM_tree/main.cpp:39 | There is only one descending order of a collection of strings, so any correct sort gives it |
| Scheduler.Scheduler.constructor | 09-stackful_croutines_ucontext_t/main.c:31-37 | No coroutine, none running, `done_ctx` not set up |
| Scheduler.Scheduler.CoroSpawn | 09-stackful_croutines_ucontext_t/main.c:43-53 | One more READY coroutine behind the others, with its own number of yields |
| Scheduler.Scheduler.DoneSpawn | 09-stackful_croutines_ucontext_t/main.c:57-63 | `done_ctx` can be used for one return |
| Scheduler.Scheduler.SwapToCurrent | 09-stackful_croutines_ucontext_t/main.c:39-41 | A dispatch, through 75 and 101-103: the coroutine yields and stays RUNNING, or returns, becomes DONE and uses up `done_ctx`; no other coroutine changes |
| Scheduler.Scheduler.Search | 09-stackful_croutines_ucontext_t/main.c:68-73 | While not all have returned the search always stops at a READY coroutine, the first in cyclic order after `current` |
| Scheduler.Scheduler.Resume | 09-stackful_croutines_ucontext_t/main.c:74-81 | One dispatch with its bookkeeping: afterwards nothing is RUNNING and `done_ctx` is ready again |
| Scheduler.Scheduler.Run | 09-stackful_croutines_ucontext_t/main.c:65-83 | The scheduler terminates, its dispatches are exactly the closed form, every coroutine is DONE with nothing left, and `done_ctx` is ready again |
| Scheduler.SearchFinds | 09-stackful_croutines_ucontext_t/main.c:67-73 | As long as fewer are DONE than there are, going around once from any position meets one that is not |
| Scheduler.DispatchContinues | 09-stackful_croutines_ucontext_t/main.c:68-81 | Dispatching what the search finds extends the closed form by one element and keeps every coroutine's remaining work |
| RoundRobin.SearchContinues | 09-stackful_croutines_ucontext_t/main.c:68-73 | The first unfinished coroutine in cyclic order is the next element of the closed form, in this round or the next |
| RoundRobin.TraceInOrder | 09-stackful_croutines_ucontext_t/main.c:65-83 | The trace without recursion: all pairs of a round r and a coroutine that yields at least r times, in order of round and then of coroutine |
| RoundRobin.EachRunsToItsEnd | 09-stackful_croutines_ucontext_t/main.c:65-83 | In the complete trace coroutine i occurs exactly as often as it yields, plus once |
| RoundRobin.TraceLength | 09-stackful_croutines_ucontext_t/main.c:65-83 | The complete trace has as many dispatches as the sum over all coroutines of their yields plus one |
| RoundRobin.Fair | 09-stackful_croutines_ucontext_t/main.c:65-83 | No starvation: at every moment a coroutine that has not returned is at most one dispatch behind any other |
| MerkleDamgard.StreamingIsHash | 10-HMAC_length_extension/main.cpp:25-29 | A context that has absorbed a message in any pieces ends with the one-shot hash of FIPS 180-4, sections 5.1.1, 5.2.1 and 6.2.2 |
| MerkleDamgard.FoldOneBlock | 10-HMAC_length_extension/main.cpp:25-29 | One block is compressed exactly once, for every compression function |
| MerkleDamgard.FoldChain | 10-HMAC_length_extension/main.cpp:25-29 | Any chain of states that starts at the given one and compresses one block after the other ends in the iteration's result |
| MerkleDamgard.PaddingBytes | 10-HMAC_length_extension/main.cpp:25-29 | The padding in bytes: 0x80, zeros, the bit count modulo 2^64 as a big-endian number; the shortest that fills whole blocks |
| MerkleDamgard.HashIsStandard | 10-HMAC_length_extension/main.cpp:25-29 | The words of the digest, high byte first, are the last state of the chain over the padded message from the initial value of FIPS 180-4, written out |
| MerkleDamgard.ShortMessage | 10-HMAC_length_extension/main.cpp:25-29 | The digest of a message below 56 bytes is one compression of the initial value with one block, whose bytes are given |
| MerkleDamgard.UpdateAbsorbs | 10-HMAC_length_extension/main.cpp:27-28 | Absorbing more bytes, buffered or not, is absorbing the concatenation, from any starting state and bit count |
| HashResume.NaiveMacIsHash | 10-HMAC_length_extension/main.cpp:23-31 | The keyed hash is the hash of key followed by message |
| HashResume.WriteZeros | 10-HMAC_length_extension/main.cpp:76-78 | The padding loop terminates with exactly the zeros that section 5.1.1 of FIPS 180-4 asks for |
| HashResume.WritePadding | 10-HMAC_length_extension/main.cpp:75-82 | The padding with a bit count cut to 32 bits, of a length that brings the total to a multiple of 64 |
| HashResume.PaddingExact | 10-HMAC_length_extension/main.cpp:75-82 | The padding written is the true one if and only if the bit count fits 32 bits |
| HashResume.PaddingWrittenBytes | 10-HMAC_length_extension/main.cpp:75-82 | The padding written in bytes, for every length: 0x80, zeros, and the bit count modulo 2^32 as a big-endian number of eight bytes |
| HashResume.Extend | 10-HMAC_length_extension/main.cpp:63-101 | The extended message and the digest of the context decoded from the token, big-endian, with the 32-bit count and nothing buffered |
| HashResume.TokenIsState | 10-HMAC_length_extension/main.cpp:67-73 | Decoding a digest gives the iteration's state after the padded input |
| HashResume.ResumedIsStandard | 10-HMAC_length_extension/main.cpp:67-98 | The words of the resumed digest are the last state of a chain that starts at the words of the token, high byte first, and goes block by block through the padded extension |
| HashResume.ResumedIterates | 10-HMAC_length_extension/main.cpp:88-98 | The digest computed is the iteration over key, message, padding and extension with a final bit count that lacks what 32 bits cannot hold |
| HashResume.ResumedIsMac | 10-HMAC_length_extension/main.cpp:63-101 | For every 16-byte key, message, extension and compression function, if key, message and padding are shorter than 2^29 bytes, the digest is the keyed hash of message, true padding and extension |
| HashResume.ResumedIsNotMac | 10-HMAC_length_extension/main.cpp:75-93 | From 2^29 bytes on, within the standard's message limit, there is a compression function for which, whatever the key, the digest is wrong |
| HashResume.ResumeLimit | 10-HMAC_length_extension/main.cpp:63-101 | Within the standard's message limit and for any key: the digest is right for every compression function if and only if key, message and padding are shorter than 2^29 bytes |
| DnsName.EncodeName | 04-dns_query/main.c:35-57 | The buffer holds the labels behind their lengths and the root label, nothing behind is touched, and the result is the string's length plus 2, or -1 if that exceeds 255 |
| DnsName.StoreLabel | 04-dns_query/main.c:42-45 | The encoder's inner loop: one label is appended behind its length |
| DnsName.FlatLength | 04-dns_query/main.c:35-57 | The encoded labels of any string take one byte more than the string |
| DnsName.WireBytes | 04-dns_query/main.c:35-57 | The encoding byte by byte: every byte but 0x2E stays, one place on; at the front and in the place of each 0x2E stands the number of bytes to the next one or the end; 0 ends it |
| DnsName.NameRoundTrip | 04-dns_query/main.c:35-57 | A label decoder gives back the labels and what follows if and only if no label is empty |
| DnsName.TrailingDot | 04-dns_query/main.c:39-51 | No name with a trailing dot survives the round trip |
| DnsName.DottedLabels | 04-dns_query/main.c:39-53 | The labels joined by dots are the original string, so the encoding loses nothing |
| DnsMessage.BuildQuery | 04-dns_query/main.c:60-91 | The buffer holds header, name, type and class and the result is their length; for a name that is too long the result is -1 and only the header is written |
| DnsMessage.QueryReadBack | 04-dns_query/main.c:60-91 | The id of a built query reads back, and a label decoder finds the labels of the domain and behind them the bytes 0, 1, 0, 1 |
| DnsMessage.QueryBytes | 04-dns_query/main.c:60-91 | The query in bytes: id, high byte first, then 1, 0, 0, 1 and six zeros, the name, and 0, 1, 0, 1 |
| DnsMessage.QuerySkips | 04-dns_query/main.c:60-129 | Skipping the name at 12 of a built query and four more bytes lands on the query's length if and only if the domain has no empty label |
| DnsMessage.SkipName | 04-dns_query/main.c:121-129 | The loop finds the position behind the first root label or pointer, or fails exactly when the walk over the labels leaves the buffer |
| DnsMessage.SkipsName | 04-dns_query/main.c:121-129 | Labels that end in the root, labels that end in a pointer, and a bare pointer are each skipped exactly, whatever surrounds them |
| DnsMessage.SkipsByWalking | 04-dns_query/main.c:121-129 | A name is skipped, and to which position, exactly when there is a chain of lengths below 0xC0 that ends at a 0 or at a byte from 0xC0 on inside the buffer |
| DnsMessage.EarlyOutcomes | 04-dns_query/main.c:137-156 | The header is missing if and only if there are fewer than 12 bytes, and the id is wrong if and only if bytes 0 and 1 say so; neither yields a record |
| DnsMessage.NameBytes | 04-dns_query/main.c:121-129 | The well-formed names in bytes, with the pointer's two high bits |
| DnsMessage.AnswerBytes | 04-dns_query/main.c:172-187 | The well-formed answers in bytes: TYPE, CLASS, TTL and RDLENGTH, each high byte first |
| DnsMessage.ResponseBytes | 04-dns_query/main.c:144-147 | Where id and number of answers stand in a well-formed response |
| DnsMessage.ParseResponse | 04-dns_query/main.c:132-189 | Outcome and records of the specified walk: too short, wrong id, bad question name, or the walk over the answers |
| DnsMessage.WalkAnswers | 04-dns_query/main.c:167-188 | The loop over the answers computes the recursive walk, with the records found before a failure kept |
| DnsMessage.ReadsAnswer | 04-dns_query/main.c:168-187 | A valid answer is read as itself and the walk continues exactly behind it |
| DnsMessage.ParsesResponse | 04-dns_query/main.c:132-189 | Every well-formed response to one question yields, for the expected id, exactly the address, TTL and class of its answers of TYPE 1 and RDLENGTH 4 in order, and for another id nothing |
| RingBuffer.New | 13-heap_ring_buffer/src/lib.rs:17-32 | An empty buffer of the given capacity, or a panic for capacity zero or a failed allocation |
| RingBuffer.RingBuffer.Push | 13-heap_ring_buffer/src/lib.rs:35-44 | The bounded queue's push: appended, or handed back when full; never onto a slot that holds a value |
| RingBuffer.RingBuffer.Pop | 13-heap_ring_buffer/src/lib.rs:47-57 | The bounded queue's pop: the oldest value, moved out of its slot, or None when empty |
| RingBuffer.RingBuffer.Drop | 13-heap_ring_buffer/src/lib.rs:66-74 | The remaining values are destroyed once each, in order; then everything accepted was returned or destroyed and no slot holds a value |
| RingBuffer.LivePush | 13-heap_ring_buffer/src/lib.rs:37-42 | Writing at head keeps: exactly the slots from tail on, wrapping around, hold the queue's values |
| RingBuffer.LivePop | 13-heap_ring_buffer/src/lib.rs:50-55 | Moving out at tail and advancing it keeps the same |
| RingBuffer.Use | 13-heap_ring_buffer/src/lib.rs:35-57 | Any sequence of pushes and pops gives the replies and contents of the bounded queue |
| RingBuffer.ServeIsInOrder | 13-heap_ring_buffer/src/lib.rs:35-57 | Over any sequence from an empty buffer: a push is accepted if and only if fewer values than the capacity are held, else handed back; a pop brings the oldest value not yet returned, or None if and only if none is held; held is accepted minus returned so far |
| RingBuffer.Conservation | 13-heap_ring_buffer/src/lib.rs:35-57 | Over any sequence what was held and accepted is, in order, what was returned followed by what is held, and never more than the capacity |
| BloomFilter.Fnv1a64 | 11-bloom_filter/bloom.h:11-18 | The loop computes the wrapped 64-bit hash defined by recursion on the string |
| BloomFilter.Djb264 | 11-bloom_filter/bloom.h:20-25 | Shift and add computes 33 times the hash modulo 2^64 in the recursive definition |
| BloomFilter.BloomFilter.HashI | 11-bloom_filter/bloom.h:75-82 | Probe i: both finalized hashes, combined and wrapped to 64 bits before the reduction modulo m |
| BloomProbes.ProbesAdvance | 11-bloom_filter/bloom.h:75-82 | Probe 0 is the finalized first hash, each further probe lies the finalized second hash behind the last modulo 2^64, and a filter of m bits reduces these words modulo m |
| BloomProbes.FinalizeBits | 11-bloom_filter/bloom.h:79-80 | The finalizer by its bits: each bit flipped by the one 33 places above, times the factor modulo 2^64, and flipped again |
| BloomProbes.FinalizeInjective | 11-bloom_filter/bloom.h:79-80 | With either factor, different words have different results |
| BloomProbes.KnownHashes | 11-bloom_filter/bloom.h:11-25 | Both hashes of the empty string and of "a" as numbers |
| BloomProbes.Fnv1aStep | 11-bloom_filter/bloom.h:13-16 | Undoing the multiplication of one more byte leaves the hash before it with the byte's bits flipped |
| BloomProbes.Djb2Step | 11-bloom_filter/bloom.h:22-23 | Flipping the bits of one more byte leaves 33 times the hash before it, which determines that hash |
| BloomProbes.HashStepsInjective | 11-bloom_filter/bloom.h:11-25 | One more byte keeps different hashes apart, and different bytes give different hashes |
| BloomFilter.BloomFilter.Insert | 11-bloom_filter/bloom.h:40-46 | The bits set are afterwards exactly the union of the probes of all keys inserted so far |
| BloomFilter.BloomFilter.Contains | 11-bloom_filter/bloom.h:49-55 | True if and only if every probe of the key lies in that union |
| BloomFilter.NoFalseNegatives | 11-bloom_filter/bloom.h:40-55 | Every inserted key is found |
| BloomFilter.FalsePositives | 11-bloom_filter/bloom.h:48-55 | A key is found if and only if each of its probes coincides with some probe of some inserted key |
| BloomFilter.OrderDoesNotMatter | 11-bloom_filter/bloom.h:40-46 | The bits depend only on the set of keys, not on order or repetition, and grow with it |
| Bits.XorBit | 11-bloom_filter/bloom.h:14-24 | The recursive exclusive or is the bitwise one, at every position |
| Arena.MaskAligns | 01-arena_allocator/arena.c:36-37 | For every power of two the mask expression is the least aligned address at or above the bump pointer, modulo 2^64 |
| Arena.Arena.Alloc | 01-arena_allocator/arena.c:32-44 | Result and new offset for every size, with all wrap-around; unless a request wraps, all blocks since the last reset stay aligned, inside the region behind the header, and in order without overlap |
| Arena.Arena.Reset | 01-arena_allocator/arena.c:46-48 | The offset is the header size again and no block is out |
| Arena.Create | 01-arena_allocator/arena.c:8-29 | NULL exactly when the mapping fails, otherwise an arena whose offset is behind the header |
| Arena.RightUnlessWrapped | 01-arena_allocator/arena.c:34-43 | For all inputs the outcome is the wanted one if and only if the new offset does not wrap to one within the capacity, one self-cancelling case apart |
| Arena.HugeSizeSucceeds | 01-arena_allocator/arena.c:39-43 | A concrete size near 2^64 for which the allocator returns an address and moves the offset back to 0 |
| Arena.WantedFits | 01-arena_allocator/arena.c:39-43 | The wanted outcome is NULL if and only if no aligned place for the block lies between the bump pointer and the end, and is otherwise the least such place |
| Arena.AllocKeeps | 01-arena_allocator/arena.c:32-44 | An allocation keeps the offset within the region and, if it does not wrap, the blocks aligned, inside and in order |
| Arena.LaidDisjoint | 01-arena_allocator/arena.c:32-44 | Blocks so laid out have no byte in common |
| Arena.HeaderKept | 01-arena_allocator/arena.c:19-47 | No block has a byte in common with the three eight-byte words of the header |
| Arena.FirstRequest | 01-arena_allocator/arena.c:32-43 | The first request of alignment 1 gets the address 24 behind the base if 24 plus the size fits, else NULL |
| Bits.AndMask | 01-arena_allocator/arena.c:37 | And with the ones above bit p rounds down to a multiple of 2^p |

## Left out

- C++ memory orders in the Treiber stack and the data race on `next`: interleavings are sequentially consistent.
- The comment on ABA behind the Treiber program, which is about a variant that frees nodes.
- TreiberTheorems.Destroy: called on a quiescent stack, as the source's comment demands; thread joins are steps of the driver, exceptions in allocation are not modelled.
- LsmTree.LSMTree.constructor: the directory holds only this program's tables, and one process uses it; files that fail to open, and writes that fail, are not modelled, nor is the overflow of the table counter.
- LsmTree.LSMTree.WriteSSTable: the early return for a file that cannot be opened, after which the flushed entries are lost, is not modelled.
- TableNames.SortIsDescending: `std::sort` is a specified insertion sort; by DescendingUnique any sort gives the same list.
- Scheduler.Scheduler.SwapToCurrent: a context switch is a transfer of control; registers, stacks and their release are not modelled, and a coroutine is the number of its yields.
- Scheduler.Scheduler.CoroSpawn: the source does not check the array of 8 coroutines for overflow, so callers must; spawning during a run is not modelled.
- The SHA-256 compression function, which is a parameter, the HMAC of the second half of that program and its check, which rest on a library and on a computational assumption.
- HashResume.Extend: the token has at least 32 bytes, as the code indexes them; sizes are below 2^64.
- DnsName.EncodeName: labels are at most 63 bytes, because the code stores a label before it checks its length; the buffer must hold the encoding before its length is checked.
- DnsMessage.BuildQuery: the string is at most 510 bytes, as the code's 512-byte array demands without checking it.
- DnsMessage.ParseResponse: records are returned, not printed; printing of the header and sockets are left out. Bytes of the receive buffer behind those received are not modelled.
- RingBuffer.RingBuffer.Drop: memory layout, deallocation and the marker traits for threads are left out; a moved-out value leaves an empty slot, although its bits stay in memory.
- BloomFilter.BloomFilter.constructor: the sizes m and k, computed with floating-point logarithms in the source, are parameters; the theoretical rate of false positives is left out.
- Arena.Create: the mapping call is a parameter, and its region ends below the top of the address space; releasing it is left out.
- The programs 03, 05, 06, 07 and 12: thin wrappers around libraries, debugger glue, kernel I/O, printing, and two fixed byte sequences.
