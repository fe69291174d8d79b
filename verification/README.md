# clr-debug-info: a verified model

clr-debug-info delivers debug information on demand. A FUSE mount asks a daemon for the files below a path, the
daemon fetches a tarball from one of several mirrors and unpacks it where the mount reads, and a script on the
server side prepares those tarballs. The daemon remembers what it asked for in a chained hash map taken from
libnica. This project models that map and what is built on it, and proves what a caller may rely on.

## What is modelled

| files | subject |
|---|---|
| `Words.dfy` | 64-bit numbers, signed and unsigned |
| `Keys.dfy` | keys as an address with a text; the two hash and compare pairs, with 32-bit wrap-around |
| `Chains.dfy` | one bucket: lookup, insertion, tombstones, and chains that end or run in a circle |
| `Tables.dfy`, `Refinement.dfy` | the whole table as a value, its operations and its invariant |
| `Histories.dfy`, `Costs.dfy` | whole runs: refinement of an abstract map, conservation, load and cost |
| `Circles.dfy`, `CircleExamples.dfy` | resizing tables with circular chains: failure without a failed allocation, or no end |
| `Hashmap.dfy`, `Iteration.dfy` | the map in memory (bucket heads, nodes changed in place, `free`) and its iterator |
| `Dupes.dfy`, `DupesThreads.dfy` | the daemon's duplicate suppression: one call, and all interleavings of threads |
| `Fetches.dfy`, `Mirrors.dfy` | URL building, the bound on fetches, the list of mirrors and its tokenizer |
| `Connections.dfy` | the accept loop, its threads, the connection counter and the descriptors |
| `Wire.dfy`, `Backoff.dfy` | the request on the wire, and the client's rationed waiting |
| `Naming.dfy`, `Planner.dfy` | tarball names end to end, and the incremental planner |
| `MkdirP.dfy` | the recursive directory maker |

The map appears twice. `Tables` has every operation as a function on a value; `Hashmap` has it as a method on nodes
and an array, and each method's contract equates the new memory with that function of the old one. The theorems are
about the functions, so they hold of the methods.

A bucket is a sequence of slots and the place its last `next` points to, because insertion can really close a chain
into a circle: it reuses the last tombstone it passed and then links the tail to it. `InsertFiniteExactly` says when,
`PutFiniteExactly` says it for a put with its resize, and the theorems about runs carry that condition
(`KeepsFinite`) until runs without removals, where it always holds. What the operations do on tables that have a
circle is modelled as well, wherever they come to an end (`PutEnds`); where they do not, that is a theorem.

## Where the code and its documentation differ

The model follows the code.

* `put` is documented to answer true on success (`src/nica/hashmap.h:159`); it answers false when it replaced the
  value of a stored address (`src/nica/hashmap.c:158`, `194-199`). `PutKeeps` gives the exact meaning of the answer,
  `ReplaceExample` a history.
* `put` is documented to displace duplicate keys (`src/nica/hashmap.h:153`). It replaces the entry of the same address
  only; an equal key at another address is stored beside the old one. Whichever of them comes first in the bucket
  answers, so even a put that replaces the entry of its own address need not be seen by a lookup:
  `SecondAddressExample`. `PutDisplacesExactly` says, for every put, when the new value is the one found.
* `contains` is documented as "the key exists" (`src/nica/hashmap.h:186`); a key with a null value counts as missing:
  `NullValueExample`.
* Removing one of two keys of a bucket and putting a third can close the chain into a circle: `CycleExample`. From
  then on a lookup there that finds nothing never ends (`SearchEndsExactly`), nor does a put of a new address there as
  long as the table is below its load limit (`InsertEndsExactly`, `PutEndsExactly`), and iteration never leaves the
  bucket (`LassoNeverLeft`). Releasing the map comes to nodes of the circle again after it freed them
  (`ReleasedOnceExactly`).
* The failure label of the resize is commented as likely a memory issue (`src/nica/hashmap.c:387`), and the order of
  the steps as preserving old data (`src/nica/hashmap.c:394-395`). A circle that holds an entry reaches the label with
  every allocation successful: the entry is met a second time and found in the new array (`MoveFailsExactly`,
  `ResizeExactly`). The put is then refused at any key, and the destructors are called on entries that stay in the
  table, on one of them twice (`RefusedReleases`, `RefusedExample`). With a circle of tombstones the resize never ends
  (`EndlessExample`).
* The daemon stores the time of the first sighting only, and never renews it (`src/server.c:85-95`): a URL is
  suppressed for 600 seconds once, and every later request for it is admitted: `NeverRenewed`, `ReadmittedExample`.
* The result of `pthread_create` is ignored (`src/server.c:615`): each failure costs one of the sixteen connections
  for good, and leaves a descriptor open. `SlotsCanBeLost` is a run that loses all sixteen, `LostSlotsNeverReturn`
  what follows.
* When the accept loop ends, the map and the list of mirrors are freed (`src/server.c:619-623`) without waiting for
  threads that may still use them: `ExitWhileBusy`, `ExitSafeExactly`.
* The client's comments speak of 0.75 and of 0.5 seconds (`src/client.c:41`, `102`); the limit is 75000 microseconds.
* `nc_mkdir_p` answers true when a file is where the path leads: `FileInTheWayExample`. The contract of `MkdirP` says
  exactly when it leaves a directory, by the tree before the call.
* Below `/usr/lib/debug` and `/usr/src/debug` a path that starts with `/src` loses that part inside the tarball, so
  it is unpacked elsewhere than the mount looks: `ContentAgrees`, `SrcBelowLibExample`.

## Model

| member | source | states |
|---|---|---|
| Keys.StringHashLoop | src/nica/hashmap.h:88-98 | the loop with 32-bit wrap-around and sign-extended characters is the polynomial 33 * h + c over the integers, reduced modulo 2^32 once |
| Keys.LibraryOpsAreLawful | src/nica/hashmap.h:88-125 | both shipped pairs are fit for the map: comparison is an equivalence on non-null keys, equal keys hash alike, and no key compares equal to null |
| Keys.HashExamples | src/nica/hashmap.h:88-125 | the 32-bit hash of a text that wraps around, of a byte above 127, and of an address wider than 32 bits, as numbers; how the two comparisons treat null |
| Chains.FirstMatch | src/nica/hashmap.c:202-218 | the slot a lookup stops at: the first whose key compares equal, none before it does |
| Chains.FoundAppend | src/nica/hashmap.c:202-218 | in a chain grown at its end the older part answers first |
| Chains.SearchPrefix | src/nica/hashmap.c:211-216 | the lookup loop is at node n exactly when no earlier node matched |
| Chains.FiniteIffNoBack | src/nica/hashmap.c:136-148 | following `next` reaches null iff the last node does not point back into the chain |
| Chains.AbsentSearchNeverEnds | src/nica/hashmap.c:211-216 | on a circular chain a lookup that matches nothing is still running after any number of steps |
| Chains.SearchEndsExactly | src/nica/hashmap.c:211-216 | the lookup loop ends iff the chain does or something in it matches |
| Chains.InsertEndsExactly | src/nica/hashmap.c:136-148 | the insertion loop ends iff the chain does or holds the key's own entry |
| Chains.AbsentInsertNeverEnds | src/nica/hashmap.c:136-148 | on a circular chain the insertion of an address not stored there is still running after any number of steps |
| Chains.LassoNeverLeft | src/nica/hashmap.c:448-467 | iteration never comes to the end of the circle an insertion leaves, and meets the inserted entry again after any number of steps |
| Chains.VisitedTwiceExactly | src/nica/hashmap.c:299-317 | following next comes to a node more than once iff it lies on a circle |
| Chains.ReleasedOnceExactly | src/nica/hashmap.c:299-317 | releasing a bucket comes to each node behind the head, and to each node at all, at most once iff the chain is finite |
| Chains.FiniteSearchEnds | src/nica/hashmap.c:211-216 | on a finite chain every lookup is over within the length of the chain |
| Chains.InsertFiniteExactly | src/nica/hashmap.c:126-178 | for an address not stored, insertion into a finite chain leaves a finite chain iff no node is unoccupied or the last one is; otherwise every lookup that matches nothing there never ends |
| Chains.OccupiedUpdate | src/nica/hashmap.c:170-172 | overwriting one node exchanges exactly that node's entry among the occupied ones |
| Tables.NextSize | src/nica/hashmap.c:336-342 | the load limit is 7n/10 rounded down |
| Tables.InBagIffHome | src/nica/hashmap.c:129 | an entry is in the table iff it is in the bucket its hash selects |
| Tables.RowDistinct | src/nica/hashmap.c:141-146 | a chain holds an address at most once |
| Tables.InsertGathered | src/nica/hashmap.c:126-178 | into a chain without tombstones a new address is appended, or fills the blank head |
| Tables.SpreadInsert | src/nica/hashmap.c:377-390 | moving the next entry during a resize adds it, never replaces, never closes a circle |
| Tables.SpreadAgain | src/nica/hashmap.c:377-390 | moving an entry that was moved before finds it, replaces it by itself and adds nothing |
| Tables.SpreadBag | src/nica/hashmap.c:374-393 | spreading entries over any number of buckets loses none and doubles none |
| Refinement.ResizeRow | src/nica/hashmap.c:352-393 | on finite chains: new bucket b is the occupied part of old bucket b % n whose hash selects b among 4n, in the same order |
| Refinement.ResizeKeepsLookups | src/nica/hashmap.c:352-406 | on finite chains every lookup finds the same entry before and after a resize, also with equal keys at different addresses |
| Refinement.ResizeKeeps | src/nica/hashmap.c:352-406 | a resize of finite chains keeps entries, size and invariant, leaves only finite chains, and leaves room |
| Refinement.OwnIffStored | src/nica/hashmap.c:141-146 | insertion takes the replacing branch iff the key's address is stored anywhere in the table |
| Refinement.InsertBag | src/nica/hashmap.c:126-178 | insertion adds one entry and answers 1, or exchanges the entry of the same address, releases that one and answers 0 |
| Refinement.InsertKeeps | src/nica/hashmap.c:126-178 | insertion below the load limit keeps placement, one entry per address, exact size and load |
| Refinement.PutKeeps | src/nica/hashmap.c:180-200 | every put that ends keeps the invariant; refused on a full table with a circle, it answers false and changes no bucket; otherwise it answers true iff the key's address was not stored, and the entries change as for an insertion, whether or not it resized |
| Refinement.RemoveKeeps | src/nica/hashmap.c:248-283 | remove and steal answer whether an entry compares equal, take away exactly the one a lookup finds, run its destructors only for remove, and change nothing on failure |
| Histories.PutFiniteExactly | src/nica/hashmap.c:180-200 | after a put that ends all chains are finite iff all were, and the bucket inserted into, after any resize, met the condition |
| Histories.GetMeaning | src/nica/hashmap.c:202-246 | a lookup succeeds iff some stored entry compares equal, and answers the value of such an entry |
| Histories.PutRefines | src/nica/hashmap.c:180-200 | put is map update, and answers whether the key was new |
| Histories.RemoveRefines | src/nica/hashmap.c:248-283 | remove and steal are map deletion |
| Histories.StepRefines | src/nica/hashmap.c:126-283 | each operation gives the answer of the abstract map and a table that represents its next state |
| Histories.RunRefines | src/nica/hashmap.c:126-283 | every run of admissible operations, with any resizes, gives the abstract map's answers and ends in a table that represents it, its size the number of keys, its chains finite |
| Histories.AddressRunRefines | src/nica/hashmap.c:180-283 | with address keys every mix of put, replacing put, remove, steal and resize whose puts meet the acyclicity condition refines map update and deletion |
| Histories.FreshRunRefines | src/nica/hashmap.c:126-246 | from an empty map, every history of lookups and puts of new keys refines the abstract map with no further condition, leaves no tombstone, and every put answers true |
| Histories.PutFound | src/nica/hashmap.c:126-218 | after every put that ends, of a new or a stored address, circles or not: nothing is found differently if it was refused; otherwise a key finds the slot written iff it compares equal to it and no earlier slot of the bucket matches, and else what it found before |
| Histories.PutLookup | src/nica/hashmap.c:126-218 | what every key finds after any put that keeps chains finite: the entry found before, replaced by the new one if it was at the same address; if there was none, the new one where it matches |
| Histories.PutDisplacesExactly | src/nica/hashmap.h:151-161 | for every put that ends, of a new or a stored address: the new value is the one found iff it was there before a refusal, or no slot before the one written matches, or the first that does has the same value; on chains that stay finite, iff a lookup before the put finds nothing, the entry at the key's own address, or the same value |
| Histories.SecondAddressExample | src/nica/hashmap.c:141-158 | equal texts at two addresses: putting the second again replaces its entry, and a lookup of it answers the value of the first |
| Histories.CycleExample | src/nica/hashmap.c:137-140 | put, put, remove, put in one bucket closes the chain into a circle |
| Histories.ReplaceExample | src/nica/hashmap.c:150-158 | putting an address twice stores the second value and answers false |
| Costs.RunAccount | src/nica/hashmap.c:150-273 | over any run, what was put is what is stored, plus what the destructors were called on, plus what steal handed back, with multiplicities |
| Costs.DestroyedOnce | src/nica/hashmap.c:290-334 | a map used without steals and then freed has the destructors called once per put, on exactly what was put |
| Costs.SomeBucketIsEmpty | src/nica/hashmap.c:26-27 | the load is at most 70%, so some bucket holds no entry |
| Costs.BucketCountFitsInt | src/nica/hashmap.c:366-367 | 61 * 4^k fits a C int iff k <= 12 |
| Costs.LimitFraction | src/nica/hashmap.c:341 | 7/10 of a bucket count is never within a tenth of an integer |
| Costs.LimitInFloatingPoint | src/nica/hashmap.c:341 | for every bucket count that fits an int, truncating the product computed with one rounding of 0.7 and one of the product gives the exact limit |
| Costs.RunPaid | src/nica/hashmap.c:187-195 | over any run the entries moved by resizes stay within credit earned by the load and by the puts that added |
| Costs.SizeIsAdded | src/nica/hashmap.c:194-196 | without removals the size grows by the number of puts that answered true |
| Costs.ResizeCost | src/nica/hashmap.c:366-405 | from an empty map, 3 * moves <= 4 * puts that added; without removals 3 * moves <= 4 * size |
| Costs.RunKeeps | src/nica/hashmap.c:126-283 | every table a run reaches has 61 * 4^k buckets, exact size within the load limit, and finite chains |
| Circles.MoveFailsExactly | src/nica/hashmap.c:376-392 | node by node: the walk over an old bucket reaches the failure label iff the chain is a circle that holds an entry, then with all entries moved and the circle's first one found again; it ends iff the chain is finite |
| Circles.ResizeExactly | src/nica/hashmap.c:374-413 | with every allocation successful, a resize succeeds iff all chains are finite; otherwise the first circle decides between the failure label and no end |
| Circles.PutEndsExactly | src/nica/hashmap.c:180-200 | a put ends iff its resize does, or, when it is not refused, the insertion loop does |
| Circles.RefusedReleases | src/nica/hashmap.c:408-413 | a refused put stores nothing, answers false, and calls the destructors on every entry moved before the failure and once more on one of them, while all of them stay in the table |
| Circles.EndingRunKeeps | src/nica/hashmap.c:126-283 | circles or not, every run of operations that end keeps entries in their home buckets, one per address, exactly counted and within the load limit |
| CircleExamples.RefusedExample | src/nica/hashmap.c:376-391 | a history of 44 operations after which a put of a new address is refused with no failed allocation |
| CircleExamples.EndlessExample | src/nica/hashmap.c:376-391 | a history after which a put never ends |
| Hashmap.BucketArray.constructor | src/nica/hashmap.c:91 | an array of n blank heads, all nodes distinct |
| Hashmap.BucketArray.Fill | src/nica/hashmap.c:170-175 | overwriting a node and linking the tail to it changes one slot and, if the node is not the tail, makes the chain point back to it |
| Hashmap.BucketArray.Extend | src/nica/hashmap.c:163-175 | a new node linked behind the tail appends one slot to one bucket |
| Hashmap.BucketArray.Vacate | src/nica/hashmap.c:268-270 | clearing a node in place changes one slot and no link |
| Hashmap.Hashmap.constructor | src/nica/hashmap.c:80-107 | a new map is the empty table of 61 buckets |
| Hashmap.Hashmap.FindPlace | src/nica/hashmap.c:129-161 | the walk finds the key's own node, else the last tombstone, else none, and the last node visited |
| Hashmap.Hashmap.InsertBucket | src/nica/hashmap.c:126-178 | whenever the walk ends, on a circular bucket too: the linked nodes afterwards hold what the insertion function says; at most one node is allocated; a replaced entry is released |
| Hashmap.Hashmap.GetEntry | src/nica/hashmap.c:202-218 | the node of the first match or null; ends on a finite chain, and on a circular one that has a match |
| Hashmap.Hashmap.EnsureGet | src/nica/hashmap.c:220-246 | the table's lookup; null value and false when there is none |
| Hashmap.Hashmap.Contains | src/nica/hashmap.c:285-288 | true iff a lookup finds a non-null value |
| Hashmap.Hashmap.RemoveInternal | src/nica/hashmap.c:248-273 | the table's removal, in place |
| Hashmap.Hashmap.RemoveValid | src/nica/hashmap.c:275-283 | removal and steal keep a map in good order |
| Hashmap.Hashmap.FreeBucket | src/nica/hashmap.c:290-318 | destructors on the occupied nodes in order when asked to; every node but the head is freed, each once |
| Hashmap.Hashmap.FreeBuckets | src/nica/hashmap.c:325-328 | the same for all buckets of an array |
| Hashmap.Hashmap.FreeArray | src/nica/hashmap.c:409-412 | an array is released with its nodes, with or without destructors |
| Hashmap.Hashmap.FreeMap | src/nica/hashmap.c:320-334 | each stored entry is destroyed once, each allocation freed once, nothing is left |
| Hashmap.Hashmap.MoveEntry | src/nica/hashmap.c:377-391 | an occupied entry is added to the new array, or, if it was moved before, found there and released; the next node is the one linked |
| Hashmap.Hashmap.InsertMoved | src/nica/hashmap.c:378-384 | the insertion answers 1 for the next entry of the list, 0 for one moved before |
| Hashmap.Hashmap.MoveChain | src/nica/hashmap.c:375-392 | one old chain is moved in order and left as it was; fails iff it is a circle, at its first entry's second visit |
| Hashmap.Hashmap.MoveAll | src/nica/hashmap.c:374-393 | the new array is the spread of all entries, or of those up to the end of the first circle, where it fails |
| Hashmap.Hashmap.Rehash | src/nica/hashmap.c:352-413 | on success old nodes and old array are freed, no destructor runs, and the map is the spread of its entries over four times the buckets; on failure the new array is freed with destructors and the old map stays |
| Hashmap.Hashmap.Resize | src/nica/hashmap.c:352-413 | a resize that ends succeeds iff all chains are finite, and is the table's resize or the table's failed one; allocations and frees balance in both |
| Hashmap.Hashmap.MakeRoom | src/nica/hashmap.c:187-191 | resizes exactly when the size has reached the limit; fails iff there is a circle then |
| Hashmap.Hashmap.InsertCounted | src/nica/hashmap.c:192-199 | the table's insertion with its count |
| Hashmap.Hashmap.PutInternal | src/nica/hashmap.c:180-200 | every put that ends, in memory, is the table's put |
| Hashmap.Hashmap.Put | src/nica/hashmap.c:180-200 | every put that ends keeps invariant and links, and leaves a map in good order iff it was and the bucket met the acyclicity condition |
| Hashmap.NullValueExample | src/nica/hashmap.c:285-288 | any key put with a null value is found by ensure_get and denied by contains |
| Iteration.Iter.constructor | src/nica/hashmap.c:416-427 | an iterator before the first bucket that has answered nothing, in order for every map whose chains are finite |
| Iteration.Iter.Next | src/nica/hashmap.c:429-480 | the n-th call yields the n-th entry in bucket then chain order while there is one, and false for ever after |
| Iteration.Iter.Advance | src/nica/hashmap.c:448-479 | the call while a bucket is left |
| Iteration.Iter.PastLast | src/nica/hashmap.c:449-459 | a call after the last bucket answers false, keeps the saved item, and moves the bucket counter on only when there is none |
| Iteration.Iter.Seek | src/nica/hashmap.c:448-467 | the scan stops at the next occupied node, or leaves the last bucket having passed every entry |
| Iteration.Iter.FollowStale | src/nica/hashmap.c:449-467 | past the end a saved item leads over tombstones only, so the loop ends with false |
| Iteration.Iter.NodeFacts | src/nica/hashmap.c:470-479 | the node the scan stopped at is the next entry of the whole list |
| Dupes.LookupRemembers | src/server.c:85 | a lookup by text succeeds iff the URL was seen, with the time of its first sighting |
| Dupes.PutRemembers | src/server.c:92-95 | storing a copy of an unseen URL adds it, needs no acyclicity condition, and leaves no tombstone |
| Dupes.Daemon.AvoidDupes | src/server.c:75-100 | 1 iff the same text was seen and the clock minus its first time, modulo 2^64, is less than 600; an unseen text is remembered, a seen one keeps its time |
| Dupes.Daemon.EnsureMap | src/server.c:81-83 | the map exists from the first call on, empty when new |
| DupesThreads.DecideKeeps | src/server.c:86-96 | the step that reads the clock and stores keeps the agreement of table, log and threads |
| DupesThreads.StepKeeps | src/server.c:75-100 | every step of every thread does |
| DupesThreads.RunKeeps | src/server.c:75-100 | every interleaving does |
| DupesThreads.Linearises | src/server.c:75-100 | from the start, one thread at most is inside, answers are the sequential ones in log order, and each finished call took effect while it was open |
| DupesThreads.LookupsEnd | src/server.c:85 | the lookup made inside is on a finite chain without tombstones, so it ends |
| DupesThreads.CallHappens | src/server.c:75-100 | from any reachable state with the mutex free, an idle thread can make any call to its end, and gets the sequential answer |
| DupesThreads.EveryLogHappens | src/server.c:75-100 | every list of requests at any clock readings is the log of some run |
| Fetches.UrlInjective | src/server.c:423-430 | when no mirror is a prefix of another, a URL determines mirror, prefix and path |
| Fetches.FirstSighting | src/server.c:92-95 | the remembered time is that of the first call for the URL |
| Fetches.RefusedExactly | src/server.c:85-96 | for clock readings from 0 to 2^63, in any order: a call is refused iff the first call for the same URL lies 0 to 599 seconds back |
| Fetches.NeverRenewed | src/server.c:85-95 | once the first sighting of a URL is 600 seconds old every call for it is admitted, whatever came in between |
| Fetches.ReadmittedExample | src/server.c:85-95 | a run of the daemon that fetches a URL at 0, refuses it at 599 and fetches it twice at 600 seconds |
| Fetches.RefusedForItself | src/server.c:234-236 | a refused request repeats one for the same mirror, prefix and path, less than 600 seconds old |
| Fetches.AdmittedOnce | src/server.c:234-236 | in the 600 seconds after the first request each URL is fetched at most once |
| Fetches.FetchBound | src/server.c:428-433 | in the 600 seconds after the first request for a prefix and path at most one fetch per mirror is admitted, however the counter rotates |
| Fetches.FetchBoundInEveryRun | src/server.c:75-100 | the same in every interleaving of the daemon's threads |
| Connections.StepKeeps | src/server.c:598-616 | every step of loop and threads keeps exact counter, single holders, single closes and different numbers for open descriptors |
| Connections.CloseHitsOwn | src/server.c:460-466 | a close hits the descriptor of its own connection and of no other open one |
| Connections.RunKeeps | src/server.c:576-617 | every interleaving does |
| Connections.CounterExact | src/server.c:156-222 | the counter is threads not finished, plus the one being started, plus failed creations, and within 0 to 16 |
| Connections.ClosedExactlyOnce | src/server.c:460-466 | without failed creations a descriptor is closed once as soon as neither the loop nor its thread has it, and not before |
| Connections.TurnedAwayExactly | src/server.c:600-606 | an accepted connection is turned away, and closed, iff sixteen slots are taken by threads or lost; otherwise it is let in |
| Connections.SlotsComeBack | src/server.c:460-465 | from every state the threads can finish by their own events alone, and then the counter holds only lost slots and the connection being started |
| Connections.NextIsServed | src/server.c:598-616 | as long as fewer than sixteen slots are lost, a run exists in which the next connection gets a thread |
| Connections.SlotsCanBeLost | src/server.c:613-616 | for any n up to 16 there is a run that loses n slots and leaves n different descriptors open that nobody closes |
| Connections.LostSlotsNeverReturn | src/server.c:613-616 | after sixteen failed creations no thread is ever started again |
| Connections.ExitWhileBusy | src/server.c:594-595 | the loop can be left while a thread is serving |
| Connections.ExitSafeExactly | src/server.c:619-623 | no thread serves at or after the end of the loop, in any continuation, iff none does as the loop is left |
| Mirrors.TokensAreTheRuns | src/server.c:112-135 | the tokens are exactly the maximal non-empty runs free of space, tab and newline, in order |
| Mirrors.JoinRoundTrip | src/server.c:112-135 | tokenizing words joined by any separators gives the words back |
| Mirrors.NoTokenExactly | src/server.c:137-142 | there is no token iff the variable holds separators only |
| Mirrors.SeparatorsExample | src/server.c:113 | space, tab and newline separate; comma and carriage return do not |
| Mirrors.Mirrors.ConfigureUrls | src/server.c:105-144 | the loop over the variable ends with its tokens as mirrors and counter 0; the defaults stay iff there is none |
| Mirrors.Mirrors.UrlFor | src/server.c:428 | the URL is the request's on the mirror the counter selects |
| Mirrors.MirrorChangesExactly | src/server.c:297-299 | with two or more mirrors the next request goes to another one, the following in the list, iff the response was none of 200, 404 and 304 |
| Mirrors.FirstUrlsExample | src/server.c:65-69 | the first two URLs a daemon without the variable asks for, with a bad response between them |
| Mirrors.EveryMirrorSelected | src/server.c:297-299 | once one response fewer than there are mirrors was other than 200, 404 and 304, in whatever order with others, each mirror has been the selected one |
| Wire.TimestampRoundTrip | src/server.c:401 | any 64-bit timestamp, negative ones included, survives printing as unsigned and reading back |
| Wire.ReadsNumber | src/server.c:401 | what is read of blanks, a sign, digits and a rest: the number, the largest one on overflow, with a minus the negative modulo 2^64 |
| Wire.ReadsNothing | src/server.c:401 | 0 when no digit comes |
| Wire.StrChr | src/server.c:396 | the first place of the character before the string ends |
| Wire.ParseInPlace | src/server.c:396-426 | cutting the buffer in place reads the request that splitting the whole text at its first two colons gives, drops the rest, and changes only those two colons |
| Wire.TwoColons | src/server.c:396-409 | the strings left in the cut buffer are the three parts of the text |
| Wire.SplitMessage | src/client.c:93 | splitting the printed message gives timestamp, prefix and path, whatever colons the path has |
| Wire.ServedExactly | src/server.c:415-426 | the filter, by characters: prefix lib or src, path other than "/", no two adjacent dots, no quote, no semicolon |
| Wire.ParsedExactly | src/server.c:396-426 | for every buffer: what is parsed passes the filter, and what passes is parsed as it was split; everything else is dropped |
| Wire.BadPathDropped | src/server.c:419-421 | a request whose path has "..", a quote or a semicolon anywhere is dropped |
| Wire.RoundTrip | src/server.c:391-426 | for every 64-bit timestamp, prefix without a colon and path, a message that fits 4104 bytes and arrives in one read is split into the triple that was sent, and parsed to it iff it passes the filter |
| Wire.MessageExample | src/client.c:93 | two messages, character by character |
| Backoff.Client.TryToGet | src/client.c:99-120 | one call: how long it waits and what it does to deadtime |
| Backoff.DeadSince | src/client.c:117-120 | after a full timeout deadtime stays at least four seconds past its end |
| Backoff.FullTimeoutsApart | src/client.c:102-120 | a full timeout starts at least four clock seconds after the previous one ended |
| Backoff.WaitsExactly | src/client.c:99-120 | in every run of a fresh client: a call that times out does so in full iff no full timeout ended less than 4 seconds before it begins; then it waited 75000 microseconds and deadtime is its end plus 4, otherwise 1500 and deadtime stays; an answer ends the wait earlier |
| Backoff.Rationed | src/client.c:102-120 | the invariant of a run behind the bound |
| Backoff.TimeoutBudget | src/client.c:102-120 | n full timeouts need 4 * (n - 1) seconds; waiting lost in timeouts is at most 75000 * (T / 4 + 1) + 1500 * calls microseconds |
| Backoff.WaitLimits | src/client.c:103-116 | a call with a timestamp never waits and leaves deadtime alone; the full limit only once deadtime has passed |
| Naming.NameAgrees | scripts/clr_debug_prepare:88-102 | the tarball of root + p is named prefix + p iff p does not belong to the longer share root |
| Naming.ContentAgrees | scripts/clr_debug_prepare:61 | the member inside is "." + p iff no second "/src" is stripped |
| Naming.ContentIsThere | scripts/clr_debug_prepare:60-61 | directory and member name put together are the source path |
| Naming.EndToEnd | src/server.c:428 | the URL asked for names the planner's tarball and its member lands where the mount reads, iff p does not start with "/src" or the root is the share source root |
| Naming.RequestReachesTarball | src/fuse.c:57-64 | the same from the client's message through the server's parser |
| Naming.SrcBelowLibExample | scripts/clr_debug_prepare:60-63 | a file below /usr/lib/debug/src is packed under another name |
| Naming.RootExamples | scripts/clr_debug_prepare:88-102 | tarball name and member of one file below each of the four roots |
| Planner.LeExactly | scripts/clr_debug_prepare:129 | the string order: a prefix comes first, otherwise the first difference decides |
| Planner.LeastExists | scripts/clr_debug_prepare:129 | string order has a least name, so the final pass is determined |
| Planner.SourcesMeaning | scripts/clr_debug_prepare:87-108 | the table has exactly the names of the source listing, each with the data of its last line, not done |
| Planner.Planner.OnDest | scripts/clr_debug_prepare:109-127 | a destination line marks a known name done, and prints it when it is an outdated file |
| Planner.Planner.OnEnd | scripts/clr_debug_prepare:128-141 | prints, in string order and once each, what is not done, or everything when there was no destination line |
| Planner.Plan | scripts/clr_debug_prepare:85-142 | the output is exactly the names missing from the destination or older there and not directories, each once; each job holds, in this order, the path of the last source line for the name, the name, and that line's type; outdated files come first, as the destination lists them, then missing names in string order |
| Planner.AllPlanned | scripts/clr_debug_prepare:109-141 | what was printed on the way and what the final pass prints are together the plan |
| Planner.NothingWanted | scripts/clr_debug_prepare:120-124 | once the jobs are done no name is missing or outdated |
| Planner.Converges | scripts/clr_debug_prepare:85-142 | a rerun after the jobs were done prints nothing |
| Planner.FirstRun | scripts/clr_debug_prepare:130-133 | without destination content the plan is every source name |
| MkdirP.DirnameShrinks | src/nica/files.c:53-60 | the recursion descends in a measure with ".", "/" and "//" at its bottom |
| MkdirP.DirnameComps | src/nica/files.c:57-58 | dirname drops the last component, or is "." for a single relative one |
| MkdirP.DirnameExamples | src/nica/files.c:57-58 | dirname on ten paths, among them those with one, two and three leading slashes |
| MkdirP.ParentPlace | src/nica/files.c:57-64 | dirname leads to the directory in which mkdir makes the entry |
| MkdirP.WalkGrew | src/nica/files.c:60-64 | what could be reached before more directories were made is reached at the same place |
| MkdirP.Os.Mkdir | src/nica/files.c:64 | mkdir on a tree, below an existing directory: EEXIST if the path exists, otherwise the fault if there is one, otherwise one directory is added at the path; without a change on failure |
| MkdirP.Os.MkdirP | src/nica/files.c:48-65 | ends on every path; only the path and its ancestors may be added and nothing is removed; a failure never reports EEXIST, so the recursion's errno test never lets one pass; by the tree before the call: success only if, and without faults where nothing exists yet whenever, the path is not empty and no ancestor has a file in the way; after success the ancestors are directories, and the path exists and is a directory iff no file was in the way there |
| MkdirP.LeadReached | src/nica/files.c:60-64 | whatever can be reached after directories were made is where the path led in the tree before, missing entries counted as directories |
| MkdirP.AimExactly | src/nica/files.c:60-64 | a path leads somewhere in the tree before the call iff it is not empty and no ancestor has a file in the way |
| MkdirP.PassableIsSeen | src/nica/files.c:60-64 | without ".." that is: no ancestor exists and is no directory |
| MkdirP.InTheWayIsSeen | src/nica/files.c:64 | without ".." a file is in the way iff the path exists and is no directory |
| MkdirP.FileInTheWayExample | src/nica/files.c:64 | two calls that answer true and leave a file: on its own path, and on "a/../f", which did not exist before the call made "a" |

## Left out

- Hashmap.Hashmap.Resize: allocation is assumed to succeed, here and in `InsertBucket`, so the answer -1 is not part of the model; the failure label is, as far as circles reach it. A resize that never ends (`ResizeExactly`) has no contract.
- Hashmap.Hashmap.Put: keys are non-null and, while an address is stored, its text does not change (`Coherent`); a null key would match unoccupied nodes. A put that never ends (`PutEndsExactly`) has no contract.
- Hashmap.Hashmap.InsertBucket: has no contract for a new address in a circular chain, which never ends (`InsertEndsExactly`).
- Hashmap.Hashmap.FreeBucket: is for finite chains. On a circle the code reads a node that it freed (`ReleasedOnceExactly`), and what happens then is not defined.
- Hashmap.Hashmap.FreeBuckets: the same.
- Hashmap.Hashmap.FreeArray: the same.
- Hashmap.Hashmap.FreeMap: is for maps whose chains are finite, like `FreeBucket`. The log `released` records the entries on which the destructors are called, whether or not `key_free` and `value_free` are set, and not their order within an entry. That a replacing put with `key_free` set releases the address being stored is not modelled.
- Costs.BucketCountFitsInt: is the only statement about C integer overflow of size, bucket count and counters; elsewhere they are unbounded.
- Tables.NextSize: uses exact decimal arithmetic where the code multiplies a double by 0.7; `LimitInFloatingPoint` says why that does not matter for the bucket counts that occur.
- Iteration.Iter.Next: the map is not modified during iteration, and its chains are finite; on a circle see `LassoNeverLeft`.
- Keys.StringHashLoop: strings are sequences of characters without the NUL; a character stands for one byte.
- Dupes.Daemon.AvoidDupes: `strdup` gives an address not in use, as a parameter; the clock is a parameter.
- DupesThreads.StepKeeps: the mutex of `avoid_dupes` is taken as given; races on `urlcounter` and `deadtime`, and the lazy `curl_global_init`, are not modelled.
- Mirrors.Mirrors.ConfigureUrls: exits on allocation failure, and `free_urls`.
- Wire.ParseInPlace: a failed `read`, a message longer than the buffer or in several reads, and reading past an unterminated buffer; the string functions stop at the end of the buffer.
- Backoff.Client.TryToGet: the connection, the credentials check and `asprintf` are one outcome, `reached`; `select` and the clock are parameters.
- Planner.Plan: source paths that match no root end the script with an error and are excluded, as are paths with spaces and repeated destination names; times are exact numbers; `find`, `sort`, `sed` and `parallel` around the planner are not modelled.
- Naming.RequestReachesTarball: the four roots and their prefixes are the two mounts' (`src/fuse.c:633-667`); tar and the symlink branch of `process_one` are not modelled, only its two path rewrites.
- MkdirP.Os.MkdirP: a tree without symbolic links, no modes or umask; a slash after the name of a file is ignored when a path is looked up; `fault` stands for every reason mkdir can fail where the tree alone would let it succeed.
- Download, extraction, file times, temporary files, systemd activation, dropping of privileges, `select` and `accept` failures in the loop, and the "ok" reply.
- The FUSE callbacks, which pass one call each to the path behind a ".".
- The other file helpers of `src/nica/files.c`: copying, recursive removal, case correction of paths.
- Build files, service units and the repository's tests.
