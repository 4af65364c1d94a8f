# The list package and its two LRU caches

A Dafny model of the generic list package `list.c`, of the queue and stack macros
over it, and of the two caches built on it: `examples/cache/cache.c`, one list
searched from the front, and `examples/cache/hash.c`, a table of bucket lists and
one LRU list whose items store each other's list elements.

* `Zippers.dfy` - the value of a list: a sequence with a cursor, every list
  routine as a function on it, and traversals. `ZipperLaws.dfy` - laws spanning
  several calls: what each routine does around the current element, the same seen
  from the rear, undoing an insertion, draining, traversals by option bits.
* `Lists.dfy` - the linked list itself, by pointer surgery, proved to compute those
  functions on its elements and on its data. `ListRuns.dfy` - any run of calls on
  it, the handles a client keeps through the run, order and conservation.
* `ListIds.dfy` - the compare-and-swap loop that hands out list ids, over every
  interleaving of any number of threads.
* `Queues.dfy`, `Stacks.dfy` - the macros as FIFO and LIFO over every run.
* `Lru.dfy` - what both caches are meant to be: one sequence in order of use.
  `Traces.dfy` - the get-else-put client over every key trace.
* `Caches.dfy` - `cache.c` as a class on a real list, over every run.
* `HashModel.dfy`, `HashLaws.dfy` - the hashed cache as sequences of cells that name
  each other by handle, and its invariant in three parts, of which the first holds
  under every allocator. `HashChecks.dfy` - what `hash_check` tests and what its
  silence means. `HashRuns.dfy` - runs of calls with malloc's answers, and exactly
  when they are runs of `Lru.dfy`.
* `Hashes.dfy` - `hash.c` as a class on real lists and items. `HashCalls.dfy` - runs
  of calls on that class.
* `HashTests.dfy` - the loop of `hashtest.c` on the real hash. `Lockstep.dfy` - the
  hash and the list cache given the same calls.

How the C is read:

* **Allocation** is a parameter. An insertion gets the block malloc returned, or
  null. A re-insertion after a removal (`hash_get`, `cache_check`) is told whether
  malloc fails, recycles the element freed a moment before, or hands out another
  block. A block handed out is any that is in use in no list of the cache: never used
  before, or freed by it at any earlier time.
* **Promotion and the back link.** `hash_get` re-inserts the LRU item in an element
  it has just allocated and does not rewrite `hash_item->element`
  (`examples/cache/hash.c:316-319`). The model keeps this. When malloc answers with
  another block than the one freed a moment before, the entry has moved and the handle
  in its bucket item is out of date. What follows is this:
  * Each LRU item still stores the handle of its own bucket item, whatever the bucket
    items store (`HashModel.Joined`). Insertions, evictions and promotions keep that,
    so insertions and evictions are right under every allocator
    (`HashRuns.PutMeans`, `HashRuns.RunSound`).
  * A later lookup of the moved entry follows a handle to a block that was freed. If
    the block is not in use again, C reads freed memory and nothing is claimed. If it
    is, the lookup returns the right entry but brings to the front the LRU item that
    has the block now; a block in use in a bucket list is refused by `list_setcurr`,
    and the LRU item under the cursor is brought to the front (`HashRuns.GetMeans`,
    `HashRuns.AimMeans`, `Hashes.Hash.Get`).
  * So this is a defect of `hash.c` that shows on defined inputs: in
    `HashRuns.StolenElement`, a cache of three, all handles lead to live elements, and
    the hash evicts another entry than the simple LRU cache does.
  * The order of use is that of the simple LRU cache after every call if and only if
    every lookup brings the entry it has found to the front (`HashRuns.RunExact`).
    When every re-insertion gets the very block freed a moment before, that is always
    so (`HashRuns.RecyclingIsRight`).
  * `hash_check` complains exactly when an entry has moved (`HashChecks.JoinedConsistent`,
    `HashTests.Play`). If `hash_get` also stored the new element in the bucket item,
    no promotion would break anything (`HashLaws.RelinkCoupled`).
* **Integer widths.** List sizes and ids count modulo 2^32, the hash's counters
  modulo 2^64. A negative `max_elements` is compared as unsigned.
* **NULL data.** `cache_enter` takes a NULL result for a failed insertion and skips
  the eviction; `Caches.EnterBound` says exactly when the bound survives.
* **Documentation against code.** `list.man:267-276` lets LIST_FORW alone start at
  the current element; the code starts at the front
  (`ZipperLaws.DirectionAloneStartsAtFront`). `list.man:156-159` lets every removal
  move the cursor; the code moves it only off the removed element.
* A data pointer is an opaque value and a callback a function of it. A `ced_t` is a
  value that carries its own address, so that two descriptors never coincide.

Proofs use `hide` to keep definitions they do not need out of the solver's way. A
method that hides everything gets what it uses from small lemmas beside the
definitions, mostly named after them (`TableIs`, `ValidIs`, `LiveMeans`).

## Model

| member | source | states |
|---|---|---|
| Lists.List.constructor | list.c:90-108 | a new list is well formed and empty, with the id it was given |
| Lists.List.MvPrev | list.c:213-228 | the cursor steps back unless it is at the front or there is none, and the result says whether it moved |
| Lists.List.MvNext | list.c:231-245 | the cursor steps on unless it is at the rear or there is none, and the result says whether it moved |
| Lists.List.MvFront | list.c:248-256 | the cursor goes to the front |
| Lists.List.MvRear | list.c:259-267 | the cursor goes to the rear |
| Lists.List.SetCurr | list.c:270-284 | an element of this list becomes current, one with another id is refused and nothing changes; the list stays well formed if and only if the element was refused or is really in it |
| Lists.List.RemoveSingle | list.c:318-329 | the only element goes and the list is empty |
| Lists.List.InsertBefore | list.c:333-372 | in all three cases the heap stays a doubly linked list and elements, data and cursor are those of the insertion; a failed allocation changes nothing |
| Lists.List.InsertAfter | list.c:375-414 | the same for insertion behind the cursor |
| Lists.List.RemoveFront | list.c:417-448 | the front datum is returned, the rest keeps its order, the cursor moves only if it was there |
| Lists.List.RemoveRear | list.c:451-482 | the rear datum is returned, the rest keeps its order, the cursor moves only if it was there |
| Lists.List.RemoveCurr | list.c:485-521 | the current datum is returned and the cursor goes to the next element, or back at the rear |
| Lists.List.Traverse | list.c:524-578 | for every option word: terminates, visits exactly the prescribed prefix of the route, returns the prescribed code, and moves the cursor only under LIST_ALTR |
| Lists.List.Destroy | list.c:111-140 | every datum is released once, front to rear, unless no deallocation was asked for |
| Lists.List.Promote | examples/cache/hash.c:316-319 | remove, move to front, insert before: the current item ends in front, in the element malloc gave, which may be any that is not in the list; without memory the item is lost |
| Zippers.VisitsMeaning | list.c:553-575 | a traversal's visits are a prefix of its route, all accepted but possibly the last, cut short only by a rejection |
| Zippers.VisitsStop | list.c:553-575 | conversely the first rejection, or else the end, determines the visits |
| Zippers.SearchFromFront | list.c:524-578 | the front traversal with LIST_ALTR returns OK exactly when some element is rejected, and leaves the cursor on the first |
| Zippers.SearchKeepingCursor | list.c:524-578 | without LIST_ALTR the cursor stays, and OK tells that some element from the start on is rejected |
| ZipperLaws.TraversalMeaning | list.c:524-578 | EMPTY, OK and EXTENT tell no element, rejected, ran off the end, for every option word, and where the cursor ends |
| ZipperLaws.TraversalExact | list.c:537-577 | for every option word, by the values of its bits: where the traversal starts, in which direction each next element is, how it ends, what it returns and where the cursor is; no other walk is like that |
| ZipperLaws.BackwardMirrorsForward | list.c:540-575 | rear-to-front traversal is front-to-rear traversal of the reversed list |
| ZipperLaws.DirectionAloneStartsAtFront | list.c:540-547 | LIST_FORW alone starts at the front whatever the cursor; LIST_BACK alone visits the front element only |
| ZipperLaws.AroundCurrent | list.c:78-85 | a list with a current element splits in one way into what is in front of it, itself, and what is behind it |
| ZipperLaws.InsertsAround | list.c:351-411 | insert_before puts the new element directly in front of the old current one, insert_after directly behind it, wherever the cursor is; it becomes current, and nothing else changes |
| ZipperLaws.RemoveFrontAround | list.c:437-444 | remove_front takes the first element and leaves the current one current, unless it was that one |
| ZipperLaws.RemoveRearAround | list.c:471-478 | remove_rear takes the last element and leaves the current one current, unless it was that one |
| ZipperLaws.RemoveCurrAround | list.c:497-518 | remove_curr takes the current element; its follower becomes current, or at the rear the one in front of it |
| ZipperLaws.StepsAround | list.c:212-245 | mvprev and mvnext make the neighbour current and change no order; at the ends they do nothing |
| ZipperLaws.JumpsAround | list.c:248-267 | mvfront and mvrear make the first and the last element current and change no order |
| ZipperLaws.NothingAround | list.c:333-521 | on the empty list both insertions make a list of one with it current, and nothing else does anything |
| ZipperLaws.InsertsMirror | list.c:333-414 | seen from the rear, insert_before is insert_after |
| ZipperLaws.EndsMirror | list.c:417-482 | seen from the rear, remove_front is remove_rear |
| ZipperLaws.MovesMirror | list.c:212-267 | seen from the rear, mvprev is mvnext and mvfront is mvrear |
| ZipperLaws.RemoveCurrMirrors | list.c:485-521 | remove_curr looks the same from the rear if and only if the current element is at one of the ends |
| ZipperLaws.InsertBeforeUndone | list.c:333-372 | removing what insert_before inserted restores sequence and cursor |
| ZipperLaws.InsertAfterUndone | list.c:375-414 | removing what insert_after inserted restores the sequence always and the cursor exactly when the insertion was at the rear |
| ZipperLaws.DrainOrder | list.c:485-521 | repeated remove_curr returns everything from the cursor to the rear, then what was in front of it, backwards |
| ZipperLaws.DrainOnce | list.c:485-521 | repeated remove_curr returns every element exactly once |
| ListRuns.HandleStable | list.c:270-284 | a handle survives any legal run that does not free its element: setcurr with remove_curr is then legal, returns the datum the element always had and removes exactly that element |
| ListRuns.Play | list.c:213-521 | any legal run of insertions, removals, moves and setcurr on a real list, blocks freed by one call and linked in again by another, keeps the list well formed and leaves and returns what the run does |
| ListRuns.PlayAndTake | list.c:270-284 | a client that keeps a handle through such a run takes out exactly its element with the datum it had |
| ListRuns.OrderKept | list.c:333-521 | two elements that a legal run does not free keep their order, whatever is inserted and removed around them |
| ListRuns.Conserved | list.c:333-521 | over every run, what was there and what was put in is what came out and what is left |
| ListIds.IdsAreConsecutive | list.c:102-106 | in every interleaving each swap that finds the counter as read, and no other step, hands out one id, to the thread that swaps; the ids are the consecutive values from 1000 modulo 2^32 |
| ListIds.IdsAreDistinct | list.c:68-106 | they are pairwise distinct if and only if at most 2^32 were handed out |
| ListIds.TakeId | list.c:103-106 | one thread's loop: it ends at the first attempt no rival disturbed, with the next id after all those the rivals took |
| ListIds.FailedSwapMeansRival | list.c:103-106 | a swap fails only after another thread's success since the read; it succeeds exactly when their number is a multiple of 2^32 |
| ListIds.WinnersAreIssued | list.c:103-106 | from every state, over every schedule, ids go to exactly the threads whose swaps find the counter as read, in that order |
| ListIds.AloneGetsNext | list.c:103-104 | a thread that nobody disturbs gets the value of the counter after its read and its swap, and the counter is one further |
| ListIds.LockFree | list.c:103-106 | from every state, in every interleaving, some thread has got an id once any one thread has made three steps; two are enough if it was about to read, one if its swap was about to succeed |
| ListIds.TakeIdIsRun | list.c:103-106 | as a run of the machine, the failed attempts and the undisturbed one give the thread exactly one id, last, which is the one that TakeId returns |
| Queues.Fifo | queue.h:28-37 | over every run the cursor stays at the rear, and what came out followed by what is left is what was put in |
| Queues.Play | queue.h:33-38 | every run on a real list leaves the state of the run and hands out exactly what the run hands out, so first in, first out |
| Queues.EnqueueItem | queue.h:34 | the item is appended, or nothing changes when there is no memory |
| Queues.DequeueItem | queue.h:35 | the front item is returned and removed, through the single and empty cases |
| Stacks.Lifo | stack.h:28-36 | after a push and any run that pops only its own pushes, the next pop returns the pushed item and leaves the old stack |
| Stacks.SettledRun | stack.h:28-36 | a run that never pops below a level and ends on it leaves everything below that level in place |
| Stacks.Play | stack.h:33-39 | every run on a real list keeps the cursor in front, leaves the state of the run and hands out exactly what the run hands out |
| Stacks.PushItem | stack.h:34 | the item goes in front, or nothing changes when there is no memory |
| Stacks.PopItem | stack.h:35 | the front item is returned and removed, through the single and empty cases |
| Caches.Cache.constructor | examples/cache/cache.c:62-81 | a new cache is empty, cursor in front |
| Caches.Cache.Add | examples/cache/cache.c:84-106 | the result, the removed entry and the new sequence, for NULL data and failed allocation too; the cursor is in front afterwards |
| Caches.Cache.Lookup | examples/cache/cache.c:109-144 | the first match is found and moved to the front, and the cursor is in front afterwards on every path |
| Caches.FrontOrBehind | examples/cache/cache.c:128-137 | comparing data pointers decides whether the first match is the front element |
| Caches.EnterBound | examples/cache/cache.c:97-103 | an insertion keeps the bound if and only if there was room, or the datum is not NULL and the limit is not the largest uint32_t |
| Caches.NullOutgrows | examples/cache/cache.c:97-103 | two NULL entries in a cache of one |
| Caches.RunBound | examples/cache/cache.c:84-144 | over every run without NULL data the length stays within the limit, unless max_elements is -1 |
| Caches.Play | examples/cache/cache.c:84-144 | every run of a real cache, with NULL data, any match functions and failing allocations, leaves the sequence and returns the data of the specified run |
| Traces.RecencyMeaning | examples/cache/hashtest.c:23-57 | the recency list of a trace has each key once, in descending order of its last request |
| Traces.ContentsAreMostRecent | examples/cache/hashtest.c:23-57 | for every trace the client's cache holds the first max_items keys of the recency list |
| Traces.HitMeansRecentlyUsed | examples/cache/hashtest.c:27-28 | a request hits if and only if fewer than max_items distinct other keys were requested since |
| Traces.AheadMeansSince | examples/cache/hashtest.c:23-57 | the keys in front of a key are exactly those requested since its last request |
| Traces.Inclusion | examples/cache/hashtest.c:23-57 | a smaller cache is always a prefix of a larger one fed the same trace |
| Traces.LargerCacheHitsMore | examples/cache/hashtest.c:23-57 | so it never has more hits |
| HashLaws.InsertCoupled | examples/cache/hash.c:195-228 | inserting in front of both lists with cross links keeps the invariant |
| HashLaws.VictimFound | examples/cache/hash.c:233-242 | the handle stored in the rear LRU item leads to its partner, the last of its key in its bucket |
| HashLaws.EvictCoupled | examples/cache/hash.c:231-248 | eviction through the handle keeps the invariant and evicts the LRU victim's descriptor |
| HashLaws.LookupAgrees | examples/cache/hash.c:307-314 | searching one bucket finds the partner of what searching the LRU list would find, or both find nothing |
| HashLaws.PromoteCoupled | examples/cache/hash.c:311-320 | a promotion keeps the invariant if and only if nothing moves or the freed element is reused |
| HashLaws.CoupledMeans | examples/cache/hash.c:226-228 | the invariant is the conjunction of three: LRU items and bucket items correspond one to one through the handles in the LRU items, in the same order per key, and the handles in the bucket items lead back |
| HashLaws.JoinedInsert | examples/cache/hash.c:195-228 | an insertion in elements not in use keeps LRU and bucket items one to one, whatever the bucket items store |
| HashLaws.JoinedEvict | examples/cache/hash.c:231-248 | so does an eviction, whose stored handle leads to the bucket item of the victim |
| HashLaws.JoinedPromote | examples/cache/hash.c:311-320 | so does a promotion from anywhere in the LRU list to any element that no other LRU item is in |
| HashLaws.FirstFound | examples/cache/hash.c:307-314 | with that and the order per key, searching one bucket and searching the LRU list find the same entry, or both find nothing |
| HashLaws.RelinkCoupled | examples/cache/hash.c:311-320 | if hash_get also stored the new element in the bucket item, every promotion would keep the invariant |
| HashLaws.LossUnjoins | examples/cache/hash.c:316-319 | a promotion whose allocation fails leaves a bucket item without an LRU item |
| HashLaws.CoupledLinks | examples/cache/hash.c:226-228 | under the invariant every LRU item and its bucket item name each other, and no bucket item is left over |
| HashChecks.NoneLeftOver | examples/cache/hash.c:437-454 | pigeonhole: when every LRU item is matched, equal totals mean every bucket item is matched too |
| HashChecks.QuietMeansConsistent | examples/cache/hash.c:403-580 | as long as its totals do not wrap, hash_check is silent if and only if keys and buffers are distinct, the size is within bounds and both lists correspond one to one |
| HashChecks.CoupledConsistent | examples/cache/hash.c:403-580 | under the invariant that is the case if and only if keys and buffers do not repeat |
| HashChecks.CoupledMatches | examples/cache/hash.c:437-454 | under the invariant the bucket lengths add up to the LRU length |
| HashChecks.JoinedTotal | examples/cache/hash.c:437-454 | the bucket lengths add up to the LRU length, handles in the bucket items out of date or not |
| HashChecks.JoinedConsistent | examples/cache/hash.c:403-580 | with keys and buffers distinct, the cache is consistent if and only if no handle in a bucket item is out of date |
| HashChecks.BrokenLinkIsReported | examples/cache/hash.c:542-546 | every promotion into another element is reported |
| HashChecks.FreshBlockBreaksLinks | examples/cache/hash.c:316-319 | a concrete table whose links break that way |
| HashRuns.PutMeans | examples/cache/hash.c:195-251 | an insertion with its eviction is the simple one, handles out of date or not, for every allocation pattern |
| HashRuns.GetMeans | examples/cache/hash.c:307-326 | a lookup whose handle is a live element returns the entry found in the bucket and brings the LRU item in that element to the front, whoever's it is |
| HashRuns.GetLoses | examples/cache/hash.c:315-323 | when the re-insertion finds no memory the answer is the same, and the LRU item and no other is lost, its bucket item staying |
| HashRuns.StepRight | examples/cache/hash.c:167-330 | a call that brings the entry it has found to the front is the call on the simple LRU cache |
| HashRuns.StepWrong | examples/cache/hash.c:311-320 | conversely a lookup that brings another entry to the front still answers right, but leaves another order than the simple lookup |
| HashRuns.RunSound | examples/cache/hash.c:167-330 | over every covered run, wherever the handles lead, LRU and bucket items stay one to one and within max_items |
| HashRuns.RunRight | examples/cache/hash.c:167-330 | as long as every lookup brings the entry it has found to the front, a run has the order of use and the answers of the simple LRU cache |
| HashRuns.RunExact | examples/cache/hash.c:167-330 | when no descriptor is put in twice, the order of use agrees after every call if and only if every lookup brings the entry it has found to the front |
| HashRuns.AimMeans | examples/cache/hash.c:311-315 | which is the case if and only if the handle is the entry's own element, or is refused while the cursor is on the entry |
| HashRuns.RefusedAfter | examples/cache/hash.c:314-320 | when the handle is refused the previous call decides: after printing and checking the least recently used entry is promoted, after an insertion or a hit none |
| HashRuns.RecyclingIsRight | examples/cache/hash.c:311-320 | when every re-insertion gets the very element freed a moment before, every run is covered, every lookup is right and no entry moves |
| HashRuns.StolenElement | examples/cache/hash.c:311-320 | a run of seven calls on a cache of three, all its handles leading to live elements, in which the last eviction takes another entry than the simple LRU cache takes |
| Hashes.Hash.InsertSecond | examples/cache/hash.c:214-224 | when the second insertion fails, the first is undone |
| Hashes.Hash.RemovePair | examples/cache/hash.c:231-242 | the rear LRU item and, through its handle, exactly its partner are removed; list_setcurr never fails |
| Hashes.Hash.Seek | examples/cache/hash.c:314-315 | after list_setcurr, comparing item pointers decides whether the current LRU item is in front |
| Hashes.Hash.Put | examples/cache/hash.c:167-254 | on any blocks not in use: keeps the invariant; a failing call changes neither entries nor counters; a succeeding one inserts and evicts through the victim's handle |
| Hashes.Hash.Get | examples/cache/hash.c:280-330 | for a handle that is an element of the LRU list or carries another list's id: the entry found, the LRU item brought to the front, the new table, cursor and counters; the cache stays in order if and only if no promotion was without memory |
| Hashes.Hash.Check | examples/cache/hash.c:402-580 | complains if and only if one of its tests fails, which is when the cache is not consistent unless its totals wrap; writes nothing but cursors, and says where the LRU cursor ends |
| Hashes.Hash.Print | examples/cache/hash.c:359-387 | writes nothing but cursors |
| Hashes.Hash.Destroy | examples/cache/hash.c:134-164 | frees every item wherever the cursors stand, and none twice, handles out of date or not |
| Hashes.Hash.Create | examples/cache/hash.c:78-131 | null for no capacity, otherwise an empty cache with all three parts of the invariant |
| Hashes.Hash.Bounds | examples/cache/hash.c:231-251 | between calls the bucket lengths add up to the LRU length, which is within max_items |
| Hashes.LookupsBalance | examples/cache/hash.c:293-326 | checks = hits + misses modulo 2^64 |
| Hashes.PutsBalance | examples/cache/hash.c:231-251 | insertions - evictions = number of items modulo 2^64 |
| HashCalls.Use | examples/cache/hash.c:167-580 | one call on the real hash, hash_print and hash_check included, is one step of the state machine, with the counters of its answer |
| HashCalls.Play | examples/cache/hash.c:167-580 | every covered run on the real hash ends in the state of the run, answers what the run answers and has counted its answers |
| HashTests.RoundDiffer | examples/cache/hashtest.c:23-57 | one round, whatever its lookup brings to the front, keeps keys and buffers different |
| HashTests.RoundsDiffer | examples/cache/hashtest.c:23-57 | so no two entries ever share a key or a buffer, although evicted entries' buffers are handed out again |
| HashTests.RoundsTouch | examples/cache/hashtest.c:23-57 | as long as every lookup is right, the keys held and the rounds that hit are those of the client on keys alone |
| HashTests.Play | examples/cache/hashtest.c:15-73 | for every trace and every allocator, no handle dangling: each round is counted as a hit or as a miss with one insertion, keys and buffers are different, and hash_check complains if and only if an entry has moved; if every lookup was right, the most recent distinct keys in order and the exact hit count |
| HashTests.PlayTwoSizes | examples/cache/hashtest.c:15-73 | two real caches on one trace, each with its own allocator and every lookup right: prefix, and no more hits for the smaller |
| Lockstep.CheckIsGet | examples/cache/cache.c:109-144 | cache_check with a key match is the simple lookup |
| Lockstep.EnterIsPut | examples/cache/cache.c:84-106 | cache_enter of a non-NULL pointer is the simple insertion |
| Lockstep.PlayCache | examples/cache/cache.c:84-144 | every run of the list cache whose promotions find memory is the run of the simple LRU cache |
| Lockstep.Play | examples/cache/hash.c:167-330 | for every run from agreeing caches, keys repeating freely, insertions failing, entries moving and hash_print and hash_check in between: if every lookup of the hash is right, both find the same entries, evict the same victims and agree again |

## Left out

- Hashes.Hash.Get: needs the handle it finds to be an element in use or to carry another list's id. A handle to a block that is free, which list_setcurr reads in C, is not covered; nor are calls after a promotion that found no memory, which lost its item.
- HashRuns.RunExact: needs runs that put in no descriptor that is in the cache already, because two equal entries can change places unseen.
- Lockstep.Play: covers the runs without such lookups and such promotions; cache_enter is taken to find memory exactly when hash_put does.
- HashTests.Play: the same, and no allocation of a miss fails, after which the C ends the run.
- Hashes.Hash.Create: needs max_items below 2^28, because `table_len` is an int of eight bytes an entry; failing list creation inside hash_create and its clean-up are not modelled.
- Hashes.Hash.Put: `evicted` is a result, so a NULL `evicted` with an eviction due, which C would dereference, cannot occur.
- Hashes.Hash.Check: its messages are one boolean.
- A NULL datum and the NULL of an empty list, one value in C, are told apart in the results of the removals.
- NULL caches and lists as arguments; the one-branch getters of list.c as separate results.
- Copying data (`bytes > 0`), the insides of malloc and free, deallocator constants beyond which data are released.
- Threads working on one hash: its counters and two of its size tests lie outside the mutex, so every operation is taken as atomic.
- Callbacks that call back into the list.
- The reference count of a descriptor, printing, random keys (every trace is covered), the interactive test programs and the performance programs.
