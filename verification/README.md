# lmvs, modelled in Dafny

A model of the data structures and the event loop of the lmvs streaming server, with proofs of what they
keep over every run.  `dafny verify dfyconfig.toml` checks everything.

## What is modelled

**The lock-free list** (`src/lmvs-lflist.c`).  `LfListModel` is an interleaved step machine: a heap of
nodes whose `next` words carry a pointer and a mark bit, and any number of threads with a program counter
between the single reads and CASes of insert, delete, search and `inner_search`.  CAS is atomic and strong,
memory is never reused.  `LfListInvariant` proves what every access keeps and which two change the set,
`LfListRuns` carries it over runs and records what an operation has seen since its call, `LfListLinear`
proves linearizability, `LfListProgress` lock-freedom.  `LfListRequests` states linearizability in the callers'
terms, requests and data, and `LfListUnlink` says what becomes of a deleted node.  Sentinels are recognised by address, so the smallest
and the largest 64-bit integers are ordinary keys.  `LfList` is the same code on one thread, on node objects
changed in place, with reclamation: every operation refines the sorted entries of `ListSpec`, and each node
is freed exactly once.

**The hash** (`src/lmvs-lfhash.c`).  `LfHash` is a row of such lists, with any function as the hash; it
refines the finite map with a counter of `HashSpec`.  Both atomic macros add one, so the counter never
falls; only "zero means empty" holds, and that is what the timer needs.

**The timer** (`src/lmvs-timer.c`).  `TimerSpec` is the wheel as a value, `TimerRuns` its runs: agreement of
index and wheels, expiry on the exact turn, bounds in real time.  `Timer` is the object, whose index holds
cells that an update overwrites through a shared reference.  `TimerThreads` takes insertion and removal apart
into hash operations on two threads: they act as whole calls, and no freed cell is read, exactly when no removal
searches for an id between its two insertions.

**Slots and event loop** (`src/lmvs-sockset.c`, `src/lmvs-el.c`).  `SockSetSpec` and `SockSet` are the slot
table with its wrapping ids.  `ElSpec` and `El` tie slots, timer and connection count together, one call after
another.  In the server an add runs on the accepting thread (`src/lmvs.c:155`) beside the loop
(`src/lmvs.c:76`), with no lock between them.  `ElThreads` therefore takes every call on the count, the slots
and the timer as a step of its own (the insertion as two, as it first reads prev_wheel) and lets the steps of the
two threads mix; `ElRuns` has the runs, and `ElAlone` shows that the calls of `ElSpec` are these steps without
interruption.

**The log ring** (`src/lmvs-log.c`).  `LogSpec` is a state machine of critical sections, `Log` the linked
buffers.  The flusher does not look at `tail` inside its critical section and may pass it.

**Buffer, chained table, response** (`src/lmvs-rb.c`, `src/lmvs-sock.c`, `src/lmvs-hashtable.c`,
`src/lmvs-response.c`).  `RbSpec` and `Rb` refine a byte queue, `HashTable` the newest-first order of its
nodes, `ResponseSpec` and `Response` the bytes a peer should get.

Events of the kernel (what `recv`, `send` and `sendfile` take, the clock) are parameters.  One call of the
sendfile loop asks every file position at most once, so its answers are a function of the position.

## Where the code does not do what it seems to promise

Each has a lemma that says exactly when it goes right.

- epoll is armed before the timer knows the id (`src/lmvs-el.c:51-52`).  A closing event whose removal comes
  before the insertion leaves a dead id in the timer that is not counted (`ElRuns.RaceExact`, reached in
  `ElRuns.RaceIsReached`).  Which steps of the two threads keep slots, timer and count in agreement is exact
  (`ElThreads.StepExact`, `ElRuns.RunExact`).
- A delete whose unlinking CAS fails searches again, and then frees the node that search returns: a node still in
  the list, which may be the tail (`LfListUnlink.FreesItsOwn`, reached in `LfListUnlink.TailIsFreed`).
- A removal that searches the index between the two insertions of an id frees the cell that the second one
  still reads (`TimerThreads.SafeExactly`, reached in `TimerThreads.TearIsReached`).
- A connection that is turned away stays counted (`ElThreads.CountExact`, reached in
  `ElAlone.TurnedAwayIsReached`).
- Adding at `cur_conn == max_conn` is admitted and overwrites a live connection (`ElSpec.AddExact`, reached
  in `ElAlone.OneTooMany`).
- Event ids are cut to 16 bits (`ElSpec.EventHitsItsOwn`, reached in `ElAlone.LateIdMissed`).
- Where the ids wrap, a claim can overwrite a live slot while another is free
  (`SockSetSpec.ClaimsFreeIffNoGap`, reached in `SockSetSpec.WrapOverwrites`).
- A log burst that pushes `tail` onto `head` loses the order but no message, as long as there is room
  (`LogSpec.AppendOrderExact`, `LogSpec.LogConservation`, reached in `LogSpec.IdleTurnThenBurst`); what the
  file then has is in `LogSpec.OverrunReorders`.
- The receive buffer ends at 4 MiB, not at 5, and bytes beyond are dropped without notice
  (`RbSpec.ReceivedExact`).
- A header block sent in parts is followed by foreign bytes, and the response ends as many file bytes short
  (`ResponseSpec.EventCarries`, `ResponseSpec.HeadersRightIffWhole`).
- When a not-found page sent in parts is counted full, too much has gone out (`ResponseSpec.DeficitRuns`,
  `ResponseSpec.PageRightIffWhole`, `ResponseSpec.CutPageExact`).
- An empty file, or a full socket at the first file byte of an event, closes the connection, and the end of a
  resumed file is told from an error only by what an earlier call left in errno
  (`ResponseSpec.FileEventExact`).
- `src/lmvs-sock.c` documents 1 as the result of a successful send; the code returns the number of bytes, and
  the model follows the code.

## Main results

| | theorem |
|---|---|
| concurrent list | `LfListRequests.Linearizable`, `LfListUnlink.DeleteUnlinks`, `LfListUnlink.FreesItsOwn`, `LfListProgress.LockFree`, `LfListProgress.RetryIsCharged` |
| list on one thread | `LfList.LfList.InsertKey`, `LfList.LfList.DeleteKey`, `LfList.LfList.FreeAll` |
| hash | `LfHash.LfHash.Insert`, `LfHash.LfHash.Delete`, `LfHash.LfHash.GetAllKeys` |
| timer | `TimerThreads.CallsAreAtomic`, `TimerThreads.SafeExactly`, `TimerRuns.Exec`, `TimerRuns.ExpiresExactly`, `TimerRuns.UpdatedExpiresExactly`, `TimerRuns.ReportedInTime` |
| slots | `SockSetSpec.ClaimsFreeIffNoGap`, `SockSetSpec.GetUntilReset` |
| event loop | `ElRuns.RunExact`, `ElRuns.EveryRunAgrees`, `ElRuns.RaceExact`, `ElRuns.ClosedExactlyWhenDue`, `ElAlone.AddsTurnedAway` |
| log | `LogSpec.LogOrder`, `LogSpec.RingTakes`, `LogSpec.AppendOrderExact`, `LogSpec.LogConservation` |
| buffer | `Rb.Rb.Append`, `RbSpec.AppendExact`, `RbSpec.ReceivedExact` |
| chained table | `HashTable.Ht.Search`, `HashTable.DeleteExposes`, `HashTable.HtList.Delete` |
| response | `ResponseSpec.FileIsDelivered`, `ResponseSpec.FileEventExact`, `ResponseSpec.EventCarries`, `ResponseSpec.ClosesExactly`, `ResponseSpec.PagePieces` |

## Model

| member | source | states |
|---|---|---|
| LfListLinear.Linearizable | src/lmvs-lflist.c:62-162 | every run of any number of threads is linearizable in terms of its operations: one order, legal for an atomic map from keys to nodes, has every completed operation with the result it returned, respects real time, and replays to the current set |
| LfListLinear.EffectApplies | src/lmvs-lflist.c:75-97 | the publishing CAS and the marking CAS are exactly an atomic insert and an atomic delete |
| LfListLinear.JustifiedMoment | src/lmvs-lflist.c:70-116 | an operation that fails or only reads has a moment between its call and its return at which the atomic map gives its answer |
| LfListLinear.WitnessUpdate | src/lmvs-lflist.c:75-95 | a successful publish or mark extends the order at its end |
| LfListLinear.WitnessReader | src/lmvs-lflist.c:70-120 | an operation that changed nothing is entered at a moment that may lie before operations already in the order |
| LfListLinear.WitnessSame | src/lmvs-lflist.c:88-160 | no other access needs a new entry, and every result already promised is the one returned |
| LfListLinear.WitnessRealTime | src/lmvs-lflist.c:62-162 | an operation that returned before another was called comes before it in the order |
| LfListRequests.Linearizable | src/lmvs-lflist.c:62-162 | every run is linearizable in terms of the requests its callers made: one order of the requests, each answered as by an atomic map from keys to data (0, -1, the data put in under the key, or null), has every request that returned with the answer its caller got, respects real time, and ends as the data of the set |
| LfListRequests.ServeExact | src/lmvs-lflist.c:62-120 | what that map does: an insert never overwrites, a delete takes out its key alone, a search changes nothing |
| LfListRequests.OperationMeans | src/lmvs-lflist.c:24-32 | the operation a thread runs is the one it was asked for, and the node of an insert carries key and data of the request for the rest of the run |
| LfListRequests.EveryRunAsks | src/lmvs-lflist.c:62-120 | every run is the run of some sequence of requests |
| LfListUnlink.GoneStays | src/lmvs-lflist.c:75-153 | a node that head does not reach any more is never reached again |
| LfListUnlink.DeleteUnlinks | src/lmvs-lflist.c:93-107 | when a delete has returned, the node it marked is out of the list for the rest of the run, also if its unlinking CAS failed |
| LfListUnlink.FreesItsOwn | src/lmvs-lflist.c:101-104 | a delete frees the node it deleted, and a node that is out of the list, exactly when its unlinking CAS succeeded; otherwise the node it frees is still in the list |
| LfListUnlink.TailIsFreed | src/lmvs-lflist.c:101-104 | a run of two threads in which a delete returns 0 and frees the tail |
| LfListRuns.InitInv | src/lmvs-lflist.c:39-46 | a new list satisfies the system invariant |
| LfListRuns.NextKeepsInv | src/lmvs-lflist.c:62-162 | one access of any thread keeps the system invariant and disturbs nothing another thread relies on |
| LfListRuns.RunInv | src/lmvs-lflist.c:62-162 | the invariant holds in every state of every run |
| LfListRuns.NeverStuck | src/lmvs-lflist.c:62-162 | in a state with the invariant every thread can make its next access without following a wild pointer |
| LfListRuns.MarkedForever | src/lmvs-lflist.c:93-97 | a published node that is marked keeps its mark and its next pointer for the rest of the run |
| LfListRuns.ReturnedIsLive | src/lmvs-lflist.c:70-120 | the node that a search returns, and the one on which an insert gives up, is in the set at the moment of the return |
| LfListRuns.AdvanceEnds | src/lmvs-lflist.c:130-142 | where an advance of the traversal leads: to the next node, to the cut of what is marked, or at the tail to the end of the search |
| LfListRuns.GapToAbsent | src/lmvs-lflist.c:130-150 | two nodes read as neighbours around the key during the operation mean that the key was absent at a moment of that operation |
| LfListRuns.WatchSelf | src/lmvs-lflist.c:122-162 | after its own step a thread still knows enough of its interval, or has returned a justified result |
| LfListRuns.WatchOther | src/lmvs-lflist.c:122-162 | a step of another thread takes away nothing of what a thread has seen since its call |
| LfListInvariant.StepIsSafe | src/lmvs-lflist.c:122-162 | the next access follows only pointers to real nodes |
| LfListInvariant.StepIsPolite | src/lmvs-lflist.c:62-162 | no access changes keys, un-publishes a node, touches a marked word or a node another thread owns |
| LfListInvariant.StepKeepsHeap | src/lmvs-lflist.c:62-162 | every access keeps the heap invariant: head reaches tail, keys strictly increase along every next pointer, published unmarked nodes are on the path |
| LfListInvariant.StepKeepsThread | src/lmvs-lflist.c:62-162 | every access leaves the acting thread with what its program point promises, including the frozen marked run behind left_node_next |
| LfListInvariant.RightIsChecked | src/lmvs-lflist.c:140-160 | inner_search hands out the tail, or a node whose word it has read once more, unmarked |
| LfListInvariant.FailureStartsOver | src/lmvs-lflist.c:68-160 | a failed CAS or a mark in the way changes nothing and leads back to head |
| LfListInvariant.ThreadInvStable | src/lmvs-lflist.c:122-162 | what a thread knows survives the steps of all others |
| LfListInvariant.PublishKeepsHeap | src/lmvs-lflist.c:74-75 | linking a node in between two neighbours keeps the heap invariant |
| LfListInvariant.SnipKeepsHeap | src/lmvs-lflist.c:153-153 | cutting out a frozen run of marked nodes of any length keeps the heap invariant |
| LfListInvariant.MarkKeepsHeap | src/lmvs-lflist.c:95-95 | marking an interior node keeps the heap invariant |
| LfListInvariant.PathSorted | src/lmvs-lflist.c:130-142 | the walk from head to tail is strictly sorted, sentinels by address |
| LfListInvariant.PathFollowsRun | src/lmvs-lflist.c:130-153 | from its first node on, the walk repeats a marked run node by node |
| LfListInvariant.LiveIsReachable | src/lmvs-lflist.c:109-120 | the abstract set is exactly the unmarked nodes that head reaches |
| LfListInvariant.AbsEntries | src/lmvs-lflist.c:109-120 | a key belongs to at most one live node |
| LfListInvariant.AdjacentIsGap | src/lmvs-lflist.c:130-150 | an unmarked node and its successor leave no live key between them |
| LfListInvariant.GapMeansAbsent | src/lmvs-lflist.c:70-116 | a key that falls into a gap is not in the set |
| LfListInvariant.PublishAddsKey | src/lmvs-lflist.c:75-75 | the publishing CAS adds the key, which was absent, and nothing else |
| LfListInvariant.MarkRemovesKey | src/lmvs-lflist.c:95-95 | the marking CAS removes the key of the node it marks, which was present, and nothing else |
| LfListInvariant.OtherStepsKeepAbs | src/lmvs-lflist.c:101-153 | every other access, both snips included, leaves the abstract set alone |
| LfListProgress.LockFree | src/lmvs-lflist.c:68-160 | in every infinite run, from any moment on, some thread completes an operation |
| LfListProgress.RetryIsCharged | src/lmvs-lflist.c:68-160 | every retry is charged to another thread's successful CAS on the very field whose check failed: the thread held the right value until that CAS and a stale one ever since, so it came after its last read |
| LfListProgress.OwnStepKeepsLink | src/lmvs-lflist.c:88-160 | the own step of a thread reads or writes a link it holds, or leaves it as stale as it was |
| LfListProgress.OtherStepKeepsLink | src/lmvs-lflist.c:75-153 | another thread makes a held link stale only by a successful CAS on that field |
| LfListProgress.OwnStepStaysFresh | src/lmvs-lflist.c:68-160 | a thread whose view of the list is current does not retry and keeps a current view by its own step |
| LfListProgress.OtherStepStaysFresh | src/lmvs-lflist.c:68-160 | only a successful CAS of another thread can make a view stale |
| LfListProgress.AheadDescends | src/lmvs-lflist.c:130-142 | the traversal meets every node at most once, because keys strictly increase |
| LfListProgress.SnipShrinks | src/lmvs-lflist.c:153-153 | every snip uses up a marked node of the path |
| LfListProgress.StepDescends | src/lmvs-lflist.c:68-160 | every step that completes no operation descends in a well-founded measure |
| ListSpec.LookupInsert | src/lmvs-lflist.c:62-79 | inserting a key makes it found with its value, unless it was there before, and changes no other key |
| ListSpec.LookupRemove | src/lmvs-lflist.c:81-107 | removing a key makes it absent and changes no other key |
| LfList.CasNext | src/lmvs-atomic.h:8-8 | the swap happens exactly when the word has the expected pointer and no mark |
| LfList.CasMark | src/lmvs-lflist.c:95-95 | the mark is set exactly when the word has the expected pointer and no mark |
| LfList.EntriesAround | src/lmvs-lflist.c:130-150 | left and right around a key split the live entries at the position of the key, and right has the key exactly when it is present |
| LfList.CutEntries | src/lmvs-lflist.c:153-153 | taking marked nodes out changes no live entry |
| LfList.WithEntries | src/lmvs-lflist.c:74-75 | a node linked in between left and right is an insertion into the live entries |
| LfList.DeadEntries | src/lmvs-lflist.c:95-95 | marking the node with the key is a removal from the live entries |
| LfList.LfList.constructor | src/lmvs-lflist.c:39-46 | a new list is empty |
| LfList.LfList.ContentsSorted | src/lmvs-lflist.c:130-142 | the contents are strictly sorted |
| LfList.LfList.Traverse | src/lmvs-lflist.c:128-144 | the walk stops at the first unmarked node not below the key, with only marked nodes between left and it; it terminates |
| LfList.LfList.Arrive | src/lmvs-lflist.c:146-160 | on one thread the snip succeeds, one pass is enough, and left and right end as neighbours |
| LfList.LfList.Snip | src/lmvs-lflist.c:153-153 | the marked run leaves the chain, the contents stay |
| LfList.LfList.InnerSearch | src/lmvs-lflist.c:122-162 | left and right are neighbours around the key, the contents are unchanged |
| LfList.LfList.PutBetween | src/lmvs-lflist.c:74-75 | the new node is linked in: the contents are those of an insertion |
| LfList.LfList.TryInsert | src/lmvs-lflist.c:68-77 | one round finds the key or inserts it |
| LfList.LfList.InsertKey | src/lmvs-lflist.c:62-79 | refines insertion into the sorted contents; -1 exactly when the key was present, and then the new node alone is freed |
| LfList.LfList.TryMark | src/lmvs-lflist.c:87-99 | one round finds no key or marks the node that has it |
| LfList.LfList.MarkHit | src/lmvs-lflist.c:95-95 | the marking CAS succeeds on one thread |
| LfList.LfList.UnlinkMarked | src/lmvs-lflist.c:101-104 | the unlinking CAS succeeds, and the node freed is the one marked |
| LfList.LfList.DeleteKey | src/lmvs-lflist.c:81-107 | refines removal; 0 exactly when the key was present, and then exactly the deleted node is freed; no marked node stays linked |
| LfList.LfList.SearchKey | src/lmvs-lflist.c:109-120 | the node with the key, or null exactly when it is absent |
| LfList.LfList.FreeNode | src/lmvs-lflist.c:34-37 | no node is freed twice |
| LfList.LfList.FreeAll | src/lmvs-lflist.c:48-60 | exactly the nodes still linked are freed, each once |
| HashSpec.ZeroIsEmpty | src/lmvs-lfhash.c:82-85 | a counter of zero means an empty table |
| HashSpec.EmptyNotZero | src/lmvs-atomic.h:5-5 | after an insertion and its deletion the table is empty and the counter is two |
| HashSpec.PutExact | src/lmvs-lfhash.c:31-46 | for every key: an insertion adds the new key with its value and nothing else; a key that is present keeps its value, and the counter stays |
| HashSpec.DropExact | src/lmvs-lfhash.c:66-80 | for every key: a deletion takes out this key and no other; the counter goes up exactly if it was there |
| LfHash.RowsInsert | src/lmvs-lfhash.c:36-41 | inserting into the row of the key inserts into the map the rows hold together |
| LfHash.RowsRemove | src/lmvs-lfhash.c:70-75 | removing from the row of the key removes from the map |
| LfHash.CopyKeys | src/lmvs-lfhash.c:93-97 | the inner loop adds exactly the keys of one list |
| LfHash.LfHash.constructor | src/lmvs-lfhash.c:9-21 | a new table is empty, whatever the hash function |
| LfHash.LfHash.Insert | src/lmvs-lfhash.c:31-46 | -1 exactly when the key was present, and then map and counter stay; otherwise the map has the data under the key and the counter goes up |
| LfHash.LfHash.Search | src/lmvs-lfhash.c:48-64 | the value of the key, or null when it is absent |
| LfHash.LfHash.Delete | src/lmvs-lfhash.c:66-80 | the key is out of the map; the counter goes up exactly when it was in it, and -1 when it was not |
| LfHash.LfHash.Count | src/lmvs-lfhash.c:82-85 | the counter; zero only for an empty table |
| LfHash.LfHash.CopyRow | src/lmvs-lfhash.c:92-98 | one round of the outer loop adds exactly the keys of one bucket |
| LfHash.LfHash.GetAllKeys | src/lmvs-lfhash.c:87-102 | a new strictly sorted list of exactly the keys of the map; the table is unchanged |
| TimerSpec.NewAgrees | src/lmvs-timer.c:8-25 | a new timer: prev_wheel is the last wheel, curr_wheel the first, all tables are empty with counter zero, and it agrees: the index says w exactly when the id is on wheel w |
| TimerSpec.InsertionAgrees | src/lmvs-timer.c:36-65 | an insertion keeps the agreement, fails exactly when the id is indexed, so the second failure branch is unreachable, and puts the id on prev_wheel |
| TimerSpec.MovedAgrees | src/lmvs-timer.c:67-81 | an update keeps the agreement and moves the id to curr_wheel unless it is on prev_wheel; no other id moves |
| TimerSpec.RemovalAgrees | src/lmvs-timer.c:83-99 | a removal keeps the agreement and takes exactly this id out of the index and its wheel |
| TimerSpec.BookKeepingAgrees | src/lmvs-timer.c:103-122 | book keeping moves no entry |
| TimerSpec.InsertionExact | src/lmvs-timer.c:36-65 | a new id is entered in the index for prev_wheel, and there with a node of its descriptor, id and interval; both counters go up by one; nothing else changes |
| TimerSpec.RemovalExact | src/lmvs-timer.c:83-99 | an indexed id leaves the index and its wheel, both counters go up by one; nothing else changes |
| TimerSpec.MovedExact | src/lmvs-timer.c:67-81 | an update takes the same node from its wheel to curr_wheel; the counters of both go up, that of the index stays |
| TimerSpec.BookKeepingExact | src/lmvs-timer.c:103-122 | the wheel turns exactly when 1000000 microseconds have gone by on the 64-bit clock since it last turned; the wheel it turns to is reported unless its counter is zero |
| TimerRuns.StepAgrees | src/lmvs-timer.c:36-122 | every operation keeps the agreement of index and wheels |
| TimerRuns.Exec | src/lmvs-timer.c:36-122 | the agreement holds after every run of insertions, updates, removals and ticks |
| TimerRuns.StepCountsDown | src/lmvs-timer.c:103-115 | an operation that leaves the entry alone takes one turn off its remaining turns exactly if it turns the wheel |
| TimerRuns.ReportsTheDue | src/lmvs-timer.c:110-121 | the reported wheel holds an entry exactly when that entry had one turn to go; a counter of zero never hides one |
| TimerRuns.ExpiresExactly | src/lmvs-timer.c:36-122 | an inserted entry that is neither updated nor removed is reported by the interval-th turn after its insertion and by none before |
| TimerRuns.DueExactly | src/lmvs-timer.c:103-121 | the same for any entry and what it has left |
| TimerRuns.UpdatePostpones | src/lmvs-timer.c:67-81 | an update sets the deadline to interval turns, or interval + 1, and never brings it forward |
| TimerRuns.UpdatedExpiresExactly | src/lmvs-timer.c:67-121 | an updated entry is reported by the turn that completes its new deadline and by none before |
| TimerRuns.ClockBounds | src/lmvs-timer.c:105-111 | n turns advance the clock by at least n - 1 seconds after the start and at most n times a second and a gap |
| TimerRuns.ExpiryWindow | src/lmvs-timer.c:105-121 | the n-th turn comes between (n - 1) * 1000000 and n * (1000000 + d) microseconds after the start, d being the longest gap between calls |
| TimerRuns.NthTurnInWindow | src/lmvs-timer.c:105-121 | a run with n turns has an n-th turn, and it comes inside its window |
| TimerRuns.ReportedInTime | src/lmvs-timer.c:36-122 | once n * (1000000 + d) microseconds have gone by, n being the lifetime in turns, an untouched entry has been reported, by a call no earlier than (n - 1) * 1000000 microseconds after its insertion and no later than n * (1000000 + d) |
| TimerRuns.NoLaterThan | src/lmvs-timer.c:105-121 | once n * (1000000 + d) microseconds have gone by, the wheel has turned n times |
| Timer.Timer.constructor | src/lmvs-timer.c:8-25 | the new timer object is the new timer value |
| Timer.Timer.Register | src/lmvs-timer.c:37-47 | a new cell for a new id, shared with no other id |
| Timer.Timer.Insert | src/lmvs-timer.c:36-65 | the object does what the insertion on values does, result included |
| Timer.Timer.Update | src/lmvs-timer.c:67-81 | writing through the shared cell moves this id and no other |
| Timer.Timer.Remove | src/lmvs-timer.c:83-99 | the object does what the removal on values does |
| Timer.Timer.Turn | src/lmvs-timer.c:103-122 | the object does what book keeping on values does, result included |
| TimerThreads.StepExact | src/lmvs-timer.c:36-99 | every hash operation of an insertion, a removal or a turn keeps the invariant exactly when it is not the search of a removal for an id between its two insertions |
| TimerThreads.StepRefines | src/lmvs-timer.c:36-122 | a fair step changes the timer, as it is apart from the calls half done, not at all or by the one whole call that takes effect with it, and reads no freed cell |
| TimerThreads.CallsAreAtomic | src/lmvs-timer.c:36-122 | over every fair interleaving of the hash operations the timer is what the calls make of it one after another, each at a step of its own |
| TimerThreads.CallsAreThoseMade | src/lmvs-timer.c:36-122 | over every fair interleaving the calls that take effect are those the two threads made, each once, with their own arguments and in their order, but for the calls under way |
| TimerThreads.TimerIsAtomic | src/lmvs-timer.c:36-122 | the same from a new timer: between calls index and wheels agree |
| TimerThreads.UnfairTears | src/lmvs-timer.c:83-91 | a removal that searches between the two insertions leaves an id with a freed cell in the index and on no wheel |
| TimerThreads.TornStays | src/lmvs-timer.c:58-58 | whatever the loop does next, the second insertion then reads the freed cell |
| TimerThreads.SafeExactly | src/lmvs-timer.c:36-99 | over every run that ends with no insertion under way, freed memory is read if and only if a removal searches for an id between its two insertions |
| TimerThreads.TearIsReached | src/lmvs-timer.c:36-99 | that is reached from a new timer; the removal then gives up and leaves the id in the index with a freed cell, and on its wheel |
| SockSetSpec.ClaimKeeps | src/lmvs-sockset.c:47-59 | a claim hands out an id of the range that fits its slot; taken slots hold such ids |
| SockSetSpec.ClaimAdds | src/lmvs-sockset.c:47-59 | a claim of a free slot adds one live id and changes no other live id or its descriptor |
| SockSetSpec.ReleaseRemoves | src/lmvs-sockset.c:66-74 | a release takes exactly this id out, and nothing when it is not live |
| SockSetSpec.NextExact | src/lmvs-sockset.c:12-18 | ids go up by one in 32 bits, and from 0xbabefacd back to the start |
| SockSetSpec.ClaimExact | src/lmvs-sockset.c:47-59 | in any table a claim fills the slot of its id, sid % max_conn, taken or not, with id and descriptor, and no other |
| SockSetSpec.ReleaseExact | src/lmvs-sockset.c:66-74 | in any table a release empties slot sid % max_conn exactly if it holds the id, and no other |
| SockSetSpec.TryIs | src/lmvs-sockset.c:13-19 | the id of the d-th try in closed form, wrap included |
| SockSetSpec.SettleStops | src/lmvs-sockset.c:52-55 | the probe ends on the first free slot it meets, or after max_conn tries |
| SockSetSpec.NoGapFindsFree | src/lmvs-sockset.c:48-58 | without a gap in the window of ids, a claim gets a free slot if there is one |
| SockSetSpec.GapMisses | src/lmvs-sockset.c:14-16 | with a gap, some slot is tried by none of the next max_conn ids |
| SockSetSpec.ClaimsFreeIffNoGap | src/lmvs-sockset.c:47-59 | a claim gets a free slot under every occupancy by ids of the range that leaves one free, if and only if the window of ids has no gap: it does not cross 0xbabeface, wraps at once, or the wrap skips whole rounds |
| SockSetSpec.WrapOverwrites | src/lmvs-sockset.c:14-16 | two slots, start id 0xab: a run of claims that all find a free slot, after which the next claim overwrites the live slot although the other is free |
| SockSetSpec.GetUntilReset | src/lmvs-sockset.c:61-74 | over every run whose claims find free slots, a live id keeps its slot and the descriptor stored with it until it is reset |
| SockSet.SockSet.constructor | src/lmvs-sockset.c:21-37 | every slot has a socket of its own, all free |
| SockSet.SockSet.SockId | src/lmvs-sockset.c:13-19 | the next id, wrapping at 0xbabeface |
| SockSet.SockSet.Probe | src/lmvs-sockset.c:49-55 | the loop settles on the id that the recursive description settles on |
| SockSet.SockSet.Put | src/lmvs-sockset.c:47-59 | one slot changes; table and id are those of the claim |
| SockSet.SockSet.Get | src/lmvs-sockset.c:61-64 | the socket in the slot of the id |
| SockSet.SockSet.ResetSock | src/lmvs-sockset.c:66-74 | the slot is released only if the id still holds it |
| ElSpec.CountAndSlots | src/lmvs-el.c:43-50 | in agreement the count is at most max_conn, and below it exactly when a slot is free |
| ElSpec.AddKeeps | src/lmvs-el.c:42-55 | an uninterrupted add that gets a free slot is one more live id in the slots, the index, and prev_wheel; the timer takes it |
| ElSpec.AddExact | src/lmvs-el.c:45-52 | an uninterrupted add keeps slots, timer and count in agreement exactly when the probed slot is free, and, without a gap, exactly when the count was below max_conn |
| ElSpec.AddLimit | src/lmvs-el.c:45-52 | in agreement or not, an add is turned away with -1 exactly when the count was above max_conn; it raises the count all the same and leaves slots and timer alone; otherwise it takes a slot with the descriptor and is indexed |
| ElSpec.CloseKeeps | src/lmvs-el.c:87-91 | closing a live id takes exactly it out of slots, index and wheel |
| ElSpec.CloseExact | src/lmvs-el.c:98-102 | closing keeps the agreement exactly when the id is live |
| ElSpec.CloseAlways | src/lmvs-el.c:87-91 | in agreement or not, a close lowers the count and takes exactly this id out of slots, index and wheel |
| ElSpec.EventSid | src/lmvs-epoller.c:134-138 | the id of an event is the id modulo 0x10000 |
| ElSpec.CloseAllKeeps | src/lmvs-el.c:151-165 | closing a list of distinct live ids takes exactly them out everywhere and counts them off |
| ElSpec.AscendingLists | src/lmvs-el.c:149-151 | the expired keys in strictly ascending order, each once |
| ElSpec.TimeoutKeeps | src/lmvs-el.c:144-168 | an uninterrupted timeout pass keeps the agreement |
| ElSpec.TimeoutAlways | src/lmvs-el.c:144-168 | in agreement or not, a timeout pass empties the expired wheel, removes exactly its ids from slots and index, and counts each of them off |
| ElSpec.CloseAllAlways | src/lmvs-el.c:151-165 | in agreement or not, closing a list of ids takes exactly them out of slots, index and wheels, and lowers the count by its length |
| ElSpec.NewLoop | src/lmvs-el.c:25-40 | a new loop is in agreement |
| ElSpec.EventHitsItsOwn | src/lmvs-el.c:69-91 | a closing event closes the connection it is about exactly when the id is below 0x10000 |
| ElThreads.QuietAgrees | src/lmvs-el.c:42-168 | the invariant of the two threads is the agreement when both are between calls |
| ElThreads.CountExact | src/lmvs-el.c:45-48 | counting keeps the invariant exactly when the connection is not turned away |
| ElThreads.TakeSlotExact | src/lmvs-el.c:50-51 | put and arm keep the invariant exactly when the slot is free |
| ElThreads.StartTimerKeepsInv | src/lmvs-el.c:52-52 | the insertion of an id that is not in the timer keeps the invariant and puts the id on the wheel that was read for it |
| ElThreads.StartTimerExact | src/lmvs-el.c:52-52 | the insertion keeps the invariant exactly when the id is not in the timer any more; otherwise it changes nothing in the timer |
| ElThreads.EventExact | src/lmvs-el.c:69-90 | starting to close keeps the invariant exactly when the id is live, in the timer yet or not |
| ElThreads.TurnKeepsInv | src/lmvs-el.c:146-147 | book keeping keeps the invariant, and reports a wheel exactly with the expired ids on it |
| ElThreads.ListKeepsInv | src/lmvs-el.c:147-151 | listing the keys keeps the invariant and hands exactly the ids that are on the reported wheel by then to the sweep |
| ElThreads.WorkExact | src/lmvs-el.c:87-163 | each step of closing keeps the invariant, except a removal from the timer that finds nothing, and exactly that |
| ElThreads.StepExact | src/lmvs-el.c:42-168 | every step of either thread keeps the invariant exactly when it is fair |
| ElThreads.RoomForCounted | src/lmvs-el.c:45-50 | a connection counted below max_conn finds a free slot whatever the loop is doing, and gets it if the ids have no gap |
| ElRuns.RunExact | src/lmvs-el.c:42-168 | over every interleaving of the two threads, the invariant holds in all states if and only if every step is fair |
| ElRuns.EveryRunAgrees | src/lmvs-el.c:42-168 | over every fair interleaving: the live ids are those of the timer and the one being added, less the one being closed unless it is being added anew; the ids of the timer are those on the wheels, each on one; between calls slots, timer and count agree within max_conn |
| ElRuns.RaceExact | src/lmvs-el.c:50-91 | an event that closes an armed connection before its insertion: in each of the four orders, the end is in agreement if and only if the insertion came before the removal; otherwise the timer keeps the dead id, which is not counted |
| ElRuns.RaceIsReached | src/lmvs-el.c:42-91 | that race is reached by fair steps with the first connection of a new loop |
| ElRuns.WaitCounts | src/lmvs-timer.c:44-58 | from reading prev_wheel to the insertion, each turn takes one off what a connection is given |
| ElRuns.AddStays | src/lmvs-el.c:52-52 | a connection the loop is not closing enters the timer with the turns it has left, or, on a single wheel just reported, is swept at once |
| ElRuns.StepSpares | src/lmvs-el.c:42-168 | a step of either thread that is no event for a connection takes at most one turn off it; its last turn makes it due |
| ElRuns.ClosedExactlyWhenDue | src/lmvs-el.c:42-168 | over every fair interleaving, a connection no event closes stays live until the turn that completes its time, and that turn and none before makes it due |
| ElRuns.SweepCloses | src/lmvs-el.c:146-165 | a timeout pass that comes to its end has closed every due connection on the way, whatever the accepting thread did |
| ElAlone.AddIsSteps | src/lmvs-el.c:42-55 | the add on values is its steps without interruption; one that is turned away is the count alone |
| ElAlone.CloseIsSteps | src/lmvs-el.c:87-91 | the close on values is its three steps without interruption |
| ElAlone.OrderOfClosing | src/lmvs-el.c:87-163 | step by step: an event resets the slot, removes the id from the timer, then counts it off; the sweep counts it off before it removes it |
| ElAlone.TimeoutIsSteps | src/lmvs-el.c:144-168 | the timeout pass on values is its steps without interruption |
| ElAlone.OneTooMany | src/lmvs-el.c:45-52 | from a new loop, after max_conn adds the next one is admitted and breaks the agreement |
| ElAlone.AddsTurnedAway | src/lmvs-el.c:45-52 | from a new loop with no close, the first max_conn + 1 adds are admitted, and every later one gets -1 and changes nothing but the count |
| ElAlone.TurnedAwayIsReached | src/lmvs-el.c:45-48 | from every new loop, whatever its max_conn, fair steps lead to a connection that is turned away and is still counted when both threads are done |
| ElAlone.LateIdMissed | src/lmvs-epoller.c:134-138 | from an empty loop, connections that come and go lead in agreement to a live id 0x10000, whose closing event leaves it live and breaks the agreement |
| El.El.constructor | src/lmvs-el.c:25-40 | the new object is the new loop value |
| El.El.AddConnection | src/lmvs-el.c:42-55 | -1 exactly when the count was above max_conn, and then only the count changes; the object does what adding on values does |
| El.El.CloseConnection | src/lmvs-el.c:87-91 | the object does what closing on values does |
| El.El.CloseEvent | src/lmvs-el.c:69-91 | a closing event closes the id cut to 16 bits |
| El.El.CheckTimeout | src/lmvs-el.c:144-168 | the walk along the expired keys does what the timeout pass on values does |
| LogSpec.AppendInOrder | src/lmvs-log.c:257-264 | a message that does not push tail onto head goes to the end of the order, into a buffer with room for it |
| LogSpec.AppendExact | src/lmvs-log.c:257-264 | a message goes behind what the tail buffer holds if together they are less than 1048576 bytes, else into the next of the 100 buffers |
| LogSpec.FlushExact | src/lmvs-log.c:155-164 | a flush writes out what the head buffer holds, empties it and goes on to the next of the 100 |
| LogSpec.RingTakes | src/lmvs-log.c:147-266 | while the flusher gets no turn, a new log takes 12400 lines of 8447 bytes in order, 124 a buffer, and the next one overruns |
| LogSpec.OverrunBreaksOrder | src/lmvs-log.c:260-264 | a message that pushes tail onto head destroys the order |
| LogSpec.OverrunReorders | src/lmvs-log.c:150-264 | after a message that pushes tail onto head and fits, a full round of the flusher has put it into the file behind the oldest buffer and in front of everything logged between the two, of which there is some |
| LogSpec.AppendOrderExact | src/lmvs-log.c:257-264 | a message keeps the order exactly when it does not push tail onto head |
| LogSpec.IdleTurnThenBurst | src/lmvs-log.c:150-264 | from a new log, an idle turn of the flusher and 124 lines keep the order, and the next line loses it |
| LogSpec.FlushInOrder | src/lmvs-log.c:155-164 | a flush keeps the order wherever head is, also when it takes head past tail |
| LogSpec.FlushesWrite | src/lmvs-log.c:150-165 | n turns write out the n buffers from head on, in or out of order |
| LogSpec.RunInOrder | src/lmvs-log.c:147-266 | over every run without an overrun every append fits, file ++ buffers from head round to tail is everything logged in order, and all other buffers are empty |
| LogSpec.LogOrder | src/lmvs-log.c:147-266 | the same from the ring as it is created |
| LogSpec.Drains | src/lmvs-log.c:150-165 | left alone, the flusher writes out everything in one round, in the order logged |
| LogSpec.AppendConserves | src/lmvs-log.c:257-264 | a message that fits adds itself to what is held and loses nothing, overrun or not |
| LogSpec.FlushConserves | src/lmvs-log.c:155-164 | a flush moves messages to the file and loses none |
| LogSpec.RunConserves | src/lmvs-log.c:147-266 | over every run in which every append fits, the multiset flushed plus held is the multiset logged |
| LogSpec.LogConservation | src/lmvs-log.c:147-266 | the same from the ring as it is created |
| Log.LogBuffer.constructor | src/lmvs-log.c:49-62 | an empty buffer with seek + remain = BUFFER_SIZE |
| Log.LogBuffer.Append | src/lmvs-log.c:64-72 | the bytes go behind the ones there; seek + remain stays BUFFER_SIZE |
| Log.LogBuffer.Clear | src/lmvs-log.c:161-162 | the buffer is empty and whole again |
| Log.AllocateBuffers | src/lmvs-log.c:76-84 | a hundred distinct empty buffers |
| Log.LinkBuffers | src/lmvs-log.c:86-89 | next leads from each buffer to the following one, and from the last to the first |
| Log.Log.constructor | src/lmvs-log.c:213-215 | the new log is the new ring |
| Log.Log.LogMessage | src/lmvs-log.c:236-267 | messages above the level are dropped; otherwise the ring changes as an append, in the pointers and the bytes |
| Log.Log.FlushHead | src/lmvs-log.c:155-164 | the ring changes as a flush: the bytes of head go to the file, head is emptied and moves on |
| RbSpec.LadderStops | src/lmvs-rb.c:13-20 | a buffer that starts at 4096 doubles up to 4 MiB and no further, below the 5 MiB maximum |
| RbSpec.AppendExact | src/lmvs-rb.c:47-81 | with chunks of at most 4096 all copies stay in bounds, a chunk is accepted exactly when the buffer then holds at most 4194304 bytes, the buffer doubles exactly when it is too small, and data moves to the front exactly when there is no room behind it |
| RbSpec.AdvanceExact | src/lmvs-rb.c:83-96 | seeking keeps the layout in bounds and takes off exactly what was asked, or nothing when it is too much |
| RbSpec.ReceivedLength | src/lmvs-sock.c:43-49 | receiving never holds more than 4 MiB |
| RbSpec.ReceivedChunk | src/lmvs-sock.c:43-49 | chunk by chunk: one that would bring the length past 4194304 is dropped, and those behind it are tried all the same |
| RbSpec.ReceivedExact | src/lmvs-sock.c:43-49 | nothing of what recv delivered is lost exactly when it all fits into 4 MiB |
| Rb.Rb.constructor | src/lmvs-rb.c:22-39 | an empty buffer |
| Rb.Rb.Expand | src/lmvs-rb.c:13-20 | no buffer above 5242880 bytes, and any other |
| Rb.Rb.Append | src/lmvs-rb.c:47-81 | refines a byte queue: success appends exactly the data, failure changes nothing |
| Rb.Rb.AppendBehind | src/lmvs-rb.c:55-57 | room behind the data: the queue grows by the data |
| Rb.Rb.AppendSliding | src/lmvs-rb.c:58-63 | the data slides to the front: the queue grows by the data |
| Rb.Rb.AppendGrowing | src/lmvs-rb.c:64-77 | the buffer doubles: the queue grows by the data, or nothing changes |
| Rb.Rb.Seek | src/lmvs-rb.c:83-96 | refines dropping bytes from the front; asking for too much drops none and answers zero |
| Rb.Rb.Reset | src/lmvs-rb.c:108-112 | the queue is empty |
| Rb.SockRecv | src/lmvs-sock.c:38-59 | the buffer holds what it held and the accepted chunks in order; the result is the length held, or -1 |
| Rb.ReadEvent | src/lmvs-el.c:74-93 | the read branch: it closes exactly when recv fails or nothing is held, and a parsed request takes everything held with it |
| HashTable.FirstInSlot | src/lmvs-hashtable.c:61-86 | searching the bucket of the key is searching the whole table |
| HashTable.FirstIsNewest | src/lmvs-hashtable.c:72-84 | what the search returns is the newest node with the key, and null only if there is none |
| HashTable.DeleteExposes | src/lmvs-hashtable.c:88-100 | deleting the node that search returns exposes the one it shadowed; any other deletion changes nothing for the key |
| HashTable.WithoutInSlot | src/lmvs-hashtable.c:88-100 | a deletion takes the node out of its bucket and leaves the others |
| HashTable.HtList.Insert | src/lmvs-hashtable.c:137-145 | the node becomes the first; prev and next agree at every node |
| HashTable.HtList.Delete | src/lmvs-hashtable.c:147-158 | the node is taken out; prev and next agree at every node |
| HashTable.HtList.Search | src/lmvs-hashtable.c:70-86 | the nested loops end and find the first node with the key |
| HashTable.Ht.constructor | src/lmvs-hashtable.c:18-31 | 709 empty buckets |
| HashTable.Ht.Insert | src/lmvs-hashtable.c:43-59 | the new node is the newest of the table; key_count goes up |
| HashTable.Ht.Search | src/lmvs-hashtable.c:61-86 | the newest surviving node with the key, or null |
| HashTable.Ht.Delete | src/lmvs-hashtable.c:88-100 | exactly this node is taken out; key_count stays |
| ResponseSpec.EventTracks | src/lmvs-response.c:34-74 | one write event of a file response whose header block is taken whole: what went out is a prefix of headers ++ file, the count is exact, and it is full exactly when everything went out |
| ResponseSpec.FileIsDelivered | src/lmvs-el.c:95-110 | the same over any number of write events, whatever sendfile takes |
| ResponseSpec.SendFileAtEnd | src/lmvs-sock.c:84-98 | a resumed transfer that reaches the end of the file fails exactly when errno does not say EAGAIN by then |
| ResponseSpec.SendFileStep | src/lmvs-sock.c:84-98 | the sendfile loop goes on where the last answer ended, until the length is reached or nothing more is taken |
| ResponseSpec.HeaderSendExact | src/lmvs-response.c:39-47 | a header send that does not take the block: an error closes and changes nothing, a full socket changes nothing and stays writing, a part goes out from where the last one stopped and is counted |
| ResponseSpec.PageSendExact | src/lmvs-response.c:54-65 | a page send, in every state: an error closes; otherwise a part goes out from where the last one stopped, the next one begins behind it, and the count and the end of the event are given exactly |
| ResponseSpec.FileSendExact | src/lmvs-response.c:66-73 | a file event, in every state: the bytes moved and exactly when it closes the connection |
| ResponseSpec.ClosesExactly | src/lmvs-el.c:95-103 | exactly when a write event closes the connection, whatever was sent before: the header send fails, or with the block out the page send fails, or the file meets an error, moves no byte, or ends where it could not finish |
| ResponseSpec.FileEventExact | src/lmvs-response.c:39-72 | exactly when an event that reaches the file closes the connection, and exactly when it completes the response |
| ResponseSpec.LastEventCompletes | src/lmvs-response.c:39-72 | the event that moves the last byte, with or without the headers, goes back to reading exactly when there was a byte to move and it began at the start of the file or errno still says EAGAIN |
| ResponseSpec.FullSocketCloses | src/lmvs-response.c:67-72 | a full socket closes the connection exactly when the event moved no byte of the file |
| ResponseSpec.EmptyFileCloses | src/lmvs-response.c:67-72 | an empty file is never completed: the connection is closed after its headers |
| ResponseSpec.EventCarries | src/lmvs-response.c:39-72 | every event of a file response, however the header block was cut: the wire is headers, foreign bytes, file; there are as many foreign bytes as had gone out before the block was taken whole; the count is exact, and full exactly when as many bytes of the file are missing |
| ResponseSpec.EventsCarry | src/lmvs-el.c:95-110 | the same over any number of events after the block was sent |
| ResponseSpec.HeadersRightIffWhole | src/lmvs-response.c:39-51 | the event that completes the header block sends a beginning of the response, whatever lies behind the block, exactly when no part of it had gone out before |
| ResponseSpec.PageCountExact | src/lmvs-response.c:54-65 | in the event that sends an uncut header block of a not-found response, the count is exact, and full, exactly when the page goes out whole in that event |
| ResponseSpec.PagePieces | src/lmvs-response.c:54-65 | over any number of events, a page that goes out in parts: the wire is the headers and the page up to the sum of the parts |
| ResponseSpec.PageFromStart | src/lmvs-response.c:39-65 | the same from the event that sends the headers |
| ResponseSpec.MemoryAt | src/lmvs-sock.c:67-70 | what a send takes is the block from pdata on, and behind its end the memory that follows |
| ResponseSpec.DeficitStays | src/lmvs-response.c:60-63 | a count that once misses the header block misses it in the next event too; when it is full, too much was sent |
| ResponseSpec.DeficitRuns | src/lmvs-el.c:95-110 | over any number of events, a count that misses the header block and is full means that too much went out, by the header block |
| ResponseSpec.PageRightIffWhole | src/lmvs-response.c:39-65 | over any number of events from one that sends the header block uncut, a not-found response ends complete and right if and only if the page went out whole in that first event |
| ResponseSpec.CutPageExact | src/lmvs-response.c:39-65 | a header block cut in parts: the event that sends the rest ends the not-found response exactly when the whole page follows an uncut block, or the part of the page and what had gone out before add up to the total |
| Response.Conn.constructor | src/lmvs-request.c:88-90 | a parsed request is ready to go out |
| Response.Conn.Send | src/lmvs-sock.c:67-79 | the bytes taken are those of the block from pdata on; a full socket counts zero |
| Response.Conn.SendFile | src/lmvs-sock.c:81-100 | the loop ends by the remaining file bytes, moves the file in order, and returns what the description returns |
| Response.Conn.SendBody | src/lmvs-response.c:54-73 | the object does what the second half does on values |
| Response.Conn.Respond | src/lmvs-response.c:34-74 | the object does what the response does on values, result included |
| Response.Conn.Reset | src/lmvs-request.c:93-104 | the request is blank again |
| Response.Conn.WriteEvent | src/lmvs-el.c:95-110 | the write branch closes, stays, or goes back to reading as the event on values does |

## Left out

- Reuse of freed nodes while other threads run: the code has no safe scheme for it, so the concurrent model says
  which node is freed (`LfListUnlink`) but never reuses memory; reclamation is modelled on one thread.
- LfList.LfList.UnlinkMarked: does not model the second search after a failed unlinking CAS, because on one thread that CAS succeeds; the step machine models it.
- The low bit of `next` as a bit of an address: the mark is a field beside the pointer.
- The `locked` flag and spinlock around the hash operations, which give no mutual exclusion: the hash is
  modelled in quiescence.
- The bit mixing of both hash functions: any function from keys to naturals.
- Timer.Timer.Insert: its hash tables are values of `HashSpec`, which the methods of `LfHash` are proved to implement; the tables' own update in place is not repeated inside the timer.
- Freeing of timer nodes; of the cells `TimerThreads` keeps which are freed, and `Timer` does not.
- ElRuns.EveryRunAgrees: does not split its steps further; a change of the count, a call on the slot table, the listing of the keys and a call on the timer (its insertion: the reading of prev_wheel and the rest) are each one step, although `cur_conn` is a plain int and the slot table has no lock. The calls on the timer are taken apart, down to the hash operations, in `TimerThreads`.
- Kernel events arrive one per live connection, matching its current interest.
- El.El.CheckTimeout: the list that get_all_keys returns is a sequence, taken from the table value; the list object is proved in `LfHash.LfHash.GetAllKeys`.
- epoll, accept, connect, socket options and CPU binding.
- Request parsing, MIME lookup and header formatting: straight-line string code.
- Log file rotation, timestamps, lmvs_log_fatal, and messages whose formatted length exceeds the local
  buffer; a write to the log file is complete.
- Out-of-memory paths, wrap-around of the counters, and the second close of a request's descriptor.
- Configuration, trimming, main.
