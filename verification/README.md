# A verified model of the distributed cache

The repository is a distributed cache in Go: a byte-bounded LRU, a group that fills it through
single-flight loading, a consistent-hash ring that spreads keys over nodes, a cache with expiry, and a
snapshot format. These Dafny files state what each of those layers is for and prove it.
`dafny verify dfyconfig.toml` checks everything.

Code that updates objects is a class here, too, and each method is proved against a function on
values; the laws are lemmas about those functions, over all runs. Go strings and byte slices are
`seq<bv8>`, so that `len` counts bytes. The concurrent parts are state machines whose steps are the
critical sections of the code.

* **LRU** (`LruSpec`, `LinkedList`, `Store`, `Lru`, `LruLaws`). Linked elements in a ring through a
  sentinel, a map into them and a byte counter refine a most-recent-first sequence. Add leaves the
  longest prefix that fits. A larger budget never loses a hit. Nothing inserted is lost without a
  report, once per eviction, oldest first.
* **Sharded LRU** (`Rounding`, `ShardChoice`, `ShardedSpec`, `FastLru`). Exactly which counts the
  shift-or cascade rounds up to a power of two, masking as remainder, and the proof that the shards are
  independent LRU caches. The whole budget is kept over every run if and only if it is at least the number
  of shards.
* **Single flight** (`Singleflight`, `SingleflightCode`). The protocol for any number of goroutines,
  including the window between `wg.Done()` and the delete: exclusion, agreement and progress.
* **Group** (`Group`, `GroupConcurrent`, `GroupLoads`, `GroupLoadsExact`, `GroupProgress`). `Group.Get`
  alone and interleaved with others. That a key is loaded at most once, as one may hope of single
  flight, is false of the code. Over all runs a key that the budget can hold together with any others
  is loaded at most once for each goroutine, and in some run that often; for any other key there is no
  bound. Every finite set of Gets finishes.
* **Ring** (`Labels`, `SortedSeq`, `RingSpec`, `RingLaws`, `RingRemoval`, `ConsistentHash`). The sorted
  slice and the owner map for an arbitrary hash function, collisions included. Where `Remove` or the
  order of adding meets its purpose only under a condition, the exact condition is proved.
* **Routing** (`HttpPool`, `Routing`). `PickPeer`, and a Get that travels between nodes: exactly when one
  hop is enough, termination, right replies, and where keys end up cached when peers fail.
* **Expiry** (`TtlSpec`, `Ttl`, `TtlLaws`). Late deletions and cleanups with an old clock value are
  invisible to every interleaving of callers.
* **Snapshots** (`Crc32`, `RdbSpec`, `Rdb`). The exact language `Load` accepts, the CRC-32 of
  section 8 of RFC 1952 with the injectivity that makes it notice a changed byte, and exactly which
  changes of one byte go unnoticed.

Where the code and its comments differ, the code is followed. The test comments describe virtual-node
labels as the number followed by the name (cache/consistenthash/consistenthash_test.go:19-20); the code
puts a colon between them (cache/consistenthash/consistenthash.go:105), and that colon is what makes the
labels unambiguous.

## Model

| member | source | states |
|---|---|---|
| LruSpec.TrimLongestFittingPrefix | cache/lru/lru.go:76-79 | what the eviction loop leaves is a prefix of the recency order, within a non-negative budget, and every longer prefix exceeds the budget |
| LruSpec.TrimIsTheOnlyOne | cache/lru/lru.go:76-79 | those three facts determine the result |
| LruSpec.BytesMeaning | cache/lru/lru.go:69-74 | the bytes are 0 for nothing and grow by the lengths of key and value for each item |
| LruSpec.TrimInBytes | cache/lru/lru.go:76-79 | in bytes: a budget of 0, or one that is just met, keeps everything; otherwise what is left is within the budget and one item more exceeds it |
| LruSpec.EvictionLoopStopsIff | cache/lru/lru.go:76-79 | the loop ends exactly when some prefix fits; always for a budget of 0 or more, even if one entry exceeds it; never for a negative one, where it spins on the empty list |
| LruSpec.FindMeaning | cache/lru/lru.go:41-48 | a key is found exactly when an item has it, and with the value of such an item |
| LruSpec.PutBytes | cache/lru/lru.go:66-75 | the two increments of the counter, for an overwrite and for an insert, are what the update changes in the sum of key and value lengths |
| LruSpec.TouchKeepsBytes | cache/lru/lru.go:41-48 | a hit reorders the items: same items, unique keys, same bytes |
| LruSpec.AddKeepsInvariant | cache/lru/lru.go:65-80 | after Add keys are unique and the bytes fit the budget |
| LinkedList.List.PushFront | cache/lru/lru.go:72 | a fresh element stands before the old ones, and all links agree with that order |
| LinkedList.List.MoveToFront | cache/lru/lru.go:43-67 | the element comes first and the others keep their order; all links agree |
| LinkedList.List.Remove | cache/lru/lru.go:54 | exactly that element is gone; all links agree |
| LinkedList.List.Back | cache/lru/lru.go:52 | the last element, or null for the empty list |
| LinkedList.List.Init | cache/lru/fast_lru.go:162 | the list is empty, its old elements apart from it |
| Store.Store.Get | cache/lru/lru.go:41-48 | a hit returns the stored value and moves the item to the front; a miss changes nothing; list and map still agree, and nBytes is the sum of key and value lengths |
| Store.Store.Upsert | cache/lru/lru.go:66-75 | the key is first with the new value, all else as before; list, map and counter still agree, also for a value of another length |
| Store.Store.DropOldest | cache/lru/lru.go:51-57 | takes the last item from list, map and counter and returns it; on an empty list does nothing |
| Store.Store.Clear | cache/lru/fast_lru.go:158-165 | list, map and counter are empty together |
| Lru.Cache.constructor | cache/lru/lru.go:31-38 | an empty cache of any budget with nothing reported |
| Lru.Cache.Get | cache/lru/lru.go:41-48 | the value of the key in the recency order, which the hit moves to the front |
| Lru.Cache.RemoveOldest | cache/lru/lru.go:51-62 | the last item goes and is reported if there is a callback |
| Lru.Cache.Add | cache/lru/lru.go:65-80 | whenever the loop ends, leaves the longest prefix of the updated order whose bytes are within the budget, a full budget included, or all of it for a budget of 0; reports exactly the rest, oldest first |
| Lru.Cache.Len | cache/lru/lru.go:83-85 | the number of items |
| Lru.MainCache.Add | cache/cache.go:20-27 | creates the LRU on first use and adds to it, as if it had been there and empty |
| Lru.MainCache.Get | cache/cache.go:28-38 | looks up and touches; a miss before the first add |
| LruLaws.GetKeepsPrefix | cache/gocache.go:73-120 | one Get keeps the order of the smaller cache a prefix of that of the larger |
| LruLaws.Inclusion | cache/lru/lru.go:41-80 | after any trace of Gets the order for a budget is a prefix of the order for any larger or unlimited one |
| LruLaws.LargerBudgetHitsMore | cache/lru/lru.go:41-80 | every hit at the smaller budget is a hit with the same value at the larger, so there are no fewer (no Belady anomaly) |
| LruLaws.RepliesAreTheSources | cache/gocache.go:73-120 | after any trace, at any budget, a Get replies what the getter defines, cached or not |
| LruLaws.AddSplits | cache/lru/lru.go:65-80 | one Add: the updated order is what stays followed by what was reported, reversed |
| LruLaws.StepBalances | cache/lru/lru.go:41-80 | each operation moves entries of a key and bytes between insertions, cache and reports without loss |
| LruLaws.Conservation | cache/lru/lru.go:51-80 | over any run: insertions of a key = 1 if cached + its reports; bytes inserted and grown = bytes held + bytes reported |
| LruLaws.Perform | cache/lru/lru.go:41-80 | the class takes exactly the steps of the ledger's runs |
| Group.GetStaysRight | cache/gocache.go:73-128 | a Get with an honest peer keeps the cache right and within budget, caches at most its own key and that only from its own getter, and replies what the source says |
| Group.Group.Get | cache/gocache.go:73-83 | the empty key is refused; a hit replies from the cache; a miss asks the peer and then the getter, and stores only what the getter returned |
| Group.Group.Load | cache/gocache.go:85-104 | a peer's value is passed on uncached; a failing peer falls back to the getter |
| Group.Group.GetLocally | cache/gocache.go:107-120 | the getter's value is cached and returned; an error is returned and not cached |
| Rounding.NextPowerOfTwo | cache/lru/fast_lru.go:61-73 | 1 for counts of 0 or less; else the cascade, which is the rounded-up power of two exactly for the counts that RoundsUpIff names |
| Rounding.RoundsUpIff | cache/lru/fast_lru.go:61-73 | for every positive count: the result is a power of two, not negative, at least the count, with its half below, exactly if the count is at most 2^62 and count - 1 has no 32 zero bits in a row below a one |
| Rounding.IsLeastPower | cache/lru/fast_lru.go:61-73 | a power of two whose half is too small is the least that is large enough |
| Rounding.FillsIff | cache/lru/fast_lru.go:66-70 | the five shifts fill everything below the leading one exactly if there is no such gap |
| Rounding.FirstFailure | cache/lru/fast_lru.go:61-73 | so all counts up to 2^32 are rounded up as they should be, and 2^32 + 1 is the first that is not |
| ShardChoice.MaskIsRemainder | cache/lru/fast_lru.go:75-78 | masking with 2^k - 1 is the remainder by 2^k |
| ShardChoice.FastHash | cache/lru/fast_lru.go:80-87 | the loop computes 32-bit FNV-1a of the key's bytes: 2166136261 for no bytes, else the sum of the hash before and the last byte, multiplied |
| ShardChoice.FnvMeaning | cache/lru/fast_lru.go:80-87 | the hash starts at 2166136261, and each byte is first added by exclusive or and the sum then multiplied by 16777619, which has an inverse modulo 2^32 |
| ShardChoice.FnvValues | cache/lru/fast_lru.go:80-87 | two published values of the hash |
| ShardChoice.ShardIsMasked | cache/lru/fast_lru.go:75-78 | the index is the hash masked with the count minus 1, for every count |
| ShardChoice.ShardInRange | cache/lru/fast_lru.go:75-78 | the index is that of a shard for any positive count, also one that is not a power of two, with the mask cut off to 32 bits |
| ShardChoice.ShardIsHashModulo | cache/lru/fast_lru.go:75-78 | for a power of two the shard is the hash modulo the number of shards |
| ShardedSpec.ShardsAreIndependent | cache/lru/fast_lru.go:90-166 | after any run each shard holds what an LRU cache alone would hold after the operations on its own keys |
| ShardedSpec.EachKeyInItsShard | cache/lru/fast_lru.go:75-146 | in every run a key is only ever in the shard of its hash, and once |
| ShardedSpec.LenCountsKeys | cache/lru/fast_lru.go:148-156 | the sum of the list lengths is the number of distinct keys |
| ShardedSpec.ShareMeaning | cache/lru/fast_lru.go:41 | the shares together are within the budget, and one byte more for each exceeds it; division truncates towards zero |
| ShardedSpec.BudgetHoldsIff | cache/lru/fast_lru.go:38-59 | the total stays within a positive budget over every run exactly when the budget is at least the number of shards; below, each share is rounded to 0, which means unlimited |
| FastLru.LruShard.Add | cache/lru/fast_lru.go:111-146 | the same items as lru.Cache.Add, with the same bounds in bytes; the callback hears only of the last victim, and not if its key is empty |
| FastLru.FastLRU.constructor | cache/lru/fast_lru.go:34-59 | as many empty shards as the rounded count, 32 by default, a power of two exactly for the counts RoundsUpIff names; n shares of the budget are within it and n shares of one byte more are not; for any budget and any count that does not overflow the rounding |
| FastLru.FastLRU.Get | cache/lru/fast_lru.go:90-108 | touches the key in its own shard only, returns its value, and counts gets, hits and misses |
| FastLru.FastLRU.Add | cache/lru/fast_lru.go:111-146 | adds to the key's own shard only |
| FastLru.FastLRU.Len | cache/lru/fast_lru.go:148-156 | the number of distinct keys in the cache |
| FastLru.FastLRU.Clear | cache/lru/fast_lru.go:158-166 | every shard is empty |
| FastLru.FastLRU.GetShard | cache/lru/fast_lru.go:75-78 | the index is that of the key's shard and in range |
| Singleflight.StepKeepsInv | cache/singleflight/singleflight.go:19-44 | every step of every goroutine keeps the agreement of map, calls and program counters |
| Singleflight.Reachable | cache/singleflight/singleflight.go:19-44 | so it holds in every reachable state, for any number of goroutines |
| Singleflight.OneFlightPerKey | cache/singleflight/singleflight.go:24-44 | at most one goroutine per key is between installing its call and deleting it |
| Singleflight.DeletesItsOwnCall | cache/singleflight/singleflight.go:41-43 | the delete takes out the deleter's own call |
| Singleflight.EnterJoinsLiveCall | cache/singleflight/singleflight.go:20-33 | who joins a call joins one of the same key whose leader has not left Do; who does not leads a new call with no other in flight |
| Singleflight.EveryCallerGetsTheOneOutput | cache/singleflight/singleflight.go:24-39 | every caller returns the result of the one execution of fn of its call |
| Singleflight.OutputIsFinal | cache/singleflight/singleflight.go:38-44 | fn is executed at most once for a call and its result never changes |
| Singleflight.StepsShrinkWork | cache/singleflight/singleflight.go:19-44 | every step but a new call leaves less to do |
| Singleflight.BlockedOnlyByLiveLeader | cache/singleflight/singleflight.go:27-40 | a waiter can wake, or its leader still has to signal |
| Singleflight.SomeoneCanMove | cache/singleflight/singleflight.go:19-44 | while a call is under way some goroutine has a step to take |
| Singleflight.StepsAreBounded | cache/singleflight/singleflight.go:19-44 | a run without new calls is no longer than the work at its start |
| Singleflight.CallersFinish | cache/singleflight/singleflight.go:19-44 | it stops, and when nobody can move every caller has returned |
| SingleflightCode.Group.EnterDo | cache/singleflight/singleflight.go:20-33 | the code under the lock is the protocol's entering step: joins the call in the map and marks it, or installs a new one |
| SingleflightCode.Group.SetResult | cache/singleflight/singleflight.go:39 | is the step that stores the result in the call |
| SingleflightCode.Group.Done | cache/singleflight/singleflight.go:40 | is the step that releases the waiters |
| SingleflightCode.Group.Delete | cache/singleflight/singleflight.go:41-43 | is the step that takes the key out of the map |
| SingleflightCode.Group.DoCall | cache/singleflight/singleflight.go:38-44 | the three steps in a row: the call has the result, is released, and is out of the map |
| SingleflightCode.Group.Wake | cache/singleflight/singleflight.go:27-28 | a released waiter returns the result of its call |
| SingleflightCode.Group.Do | cache/singleflight/singleflight.go:19-37 | with a call in the map the caller marks it and waits for it; without one it gets what fn returns and leaves the map as it was |
| GroupConcurrent.ContainsAProtocolRun | cache/gocache.go:85-94 | whatever the Gets do, what happens inside the loader is a run of the single-flight protocol |
| GroupConcurrent.Reachable | cache/gocache.go:73-128 | cached values, values in transit and replies agree with the source in every reachable state |
| GroupConcurrent.EveryReplyIsTheSources | cache/gocache.go:73-104 | every Get, leader, follower or hit, replies what the getter defines; the branch for a nil value is never taken |
| GroupConcurrent.CacheIsCoherent | cache/gocache.go:107-120 | only the getter's values are cached, each under its key once; a failing key is never cached |
| GroupConcurrent.OneLoadInFlight | cache/gocache.go:85-94 | at most one goroutine per key is in the loading function |
| GroupConcurrent.CachedKeyIsNotLoaded | cache/gocache.go:77-80 | a Get that finds its key is answered there and calls no getter |
| GroupLoads.SurvivesTrimIff | cache/lru/lru.go:76-79 | a key survives the eviction loop exactly if the order down to it fits the budget |
| GroupLoads.CachedUntilEvictedIff | cache/cache.go:20-38 | a cached key stays over a step exactly unless the step fills the cache and evicts it |
| GroupLoads.UnlimitedSpares | cache/cache.go:20-38 | without a budget no run ever evicts a cached key |
| GroupLoads.LaterGetsHit | cache/gocache.go:73-83 | once a key is cached, every later Get that looks before its eviction is a hit and calls no getter |
| GroupLoads.LoadsNeedMisses | cache/gocache.go:73-111 | the getter is called for a key no more often than Gets missed it |
| GroupLoads.AtMostOnePerGoroutine | cache/gocache.go:73-120 | over every run of any length the getter is called at most n times for a key that the budget can keep, with n goroutines |
| GroupLoadsExact.EveryoneLoads | cache/gocache.go:73-120 | for any number of goroutines there is a run in which each of them calls the getter for the key |
| GroupLoadsExact.KeepableLoadedAtMostIff | cache/gocache.go:73-120 | such a key is never loaded more than k times exactly if there are no more than k goroutines |
| GroupLoadsExact.UnlimitedIsKeepable | cache/cache.go:14-27 | without a budget every key that has a value can be kept |
| GroupLoadsExact.UnkeepableCanBeDrivenOut | cache/gocache.go:73-120 | a key that has no value, or does not fit together with others, is not cached at the end of some trace of Gets, from whatever cache |
| GroupLoadsExact.LoadedAtMostIff | cache/gocache.go:73-120 | for every budget: over all runs a key is loaded at most k times exactly if there is no goroutine, or the key can be kept and there are at most k |
| GroupProgress.StepsShrinkGetWork | cache/gocache.go:73-128 | every step of a Get, in the cache, the loader, at a peer or in the getter, leaves less to do |
| GroupProgress.SomeGetCanMove | cache/gocache.go:73-128 | while a Get is under way some goroutine has a step to take |
| GroupProgress.GetsFinish | cache/gocache.go:73-128 | runs without new Gets are bounded, and when nobody can move every Get has been answered |
| Labels.LabelInjective | cache/consistenthash/consistenthash.go:105 | number, colon and name determine number and name |
| Labels.LabelMeaning | cache/consistenthash/consistenthash.go:105 | a label reads back: decimal digits without a leading zero that write the number, a colon, the name |
| SortedSeq.SortedUnique | cache/consistenthash/consistenthash.go:111 | there is one way to sort, so the slice depends only on how often each point occurs |
| SortedSeq.BinarySearch | cache/consistenthash/consistenthash.go:151-153 | bisection finds the first index at or above the hash |
| RingSpec.SuccessorIsNearest | cache/consistenthash/consistenthash.go:148-160 | search with wrap-around finds the point at the least clockwise distance |
| RingSpec.AddKeepsWellFormed | cache/consistenthash/consistenthash.go:89-112 | after Add the slice is sorted and has exactly the points of the map, even with collisions |
| RingLaws.PointsMeaning | cache/consistenthash/consistenthash.go:95-108 | the points of a node are the hashes of its labels numbered from 0, as many as replicas times its weight, which is 1 unless set higher |
| RingLaws.AddCount | cache/consistenthash/consistenthash.go:93-111 | Add grows the slice by all points of all nodes, shared ones included |
| RingLaws.AddOneCount | cache/consistenthash/consistenthash.go:95-108 | for one node by replicas times weight, or nothing if that is negative |
| RingSpec.AddMovesOnlyToNew | cache/consistenthash/consistenthash.go:89-112 | after adding nodes each place on the circle has its old owner or a new node, even with collisions |
| RingSpec.DropMeaning | cache/consistenthash/consistenthash.go:127-135 | Remove takes one copy per point of the node from the slice but the whole entry from the map |
| RingRemoval.RemoveDrops | cache/consistenthash/consistenthash.go:115-137 | removing a list of nodes drops all their points, node by node |
| RingRemoval.RemoveKeepsWellFormedIff | cache/consistenthash/consistenthash.go:115-137 | slice and map agree after Remove exactly when no point of the nodes has further copies on the ring |
| RingRemoval.SharedPointIsOrphaned | cache/consistenthash/consistenthash.go:127-160 | a point of the nodes with a further copy is owned by the empty name after Remove |
| RingRemoval.RemoveMovesOnlyItsOwnIff | cache/consistenthash/consistenthash.go:115-161 | removing nodes changes only what they owned exactly if each point that they share with an owner who stays leads to that owner again: the next point clockwise that stays is its, too |
| RingRemoval.RemoveMovesOnlyItsOwn | cache/consistenthash/consistenthash.go:115-161 | so it does whenever the nodes own all their points |
| RingRemoval.RemovalIgnoresOrder | cache/consistenthash/consistenthash.go:115-137 | the order of the nodes removed never matters, even with shared points |
| RingRemoval.RemoveUndoesAddIff | cache/consistenthash/consistenthash.go:89-137 | adding nodes and removing them in any order restores the slice always, and the map exactly when none of their points was on the ring |
| RingLaws.BatchesDoNotMatter | cache/consistenthash/consistenthash.go:89-112 | adding in two calls gives the same ring as adding in one |
| RingLaws.KeysIgnoreOrder | cache/consistenthash/consistenthash.go:89-112 | the slice does not depend on the order of the nodes |
| RingLaws.OrderDoesNotMatterIff | cache/consistenthash/consistenthash.go:89-112 | all orders give the same ring exactly when no two nodes share a point |
| RingLaws.PlaceIgnoresOrderIff | cache/consistenthash/consistenthash.go:89-161 | all orders of adding give a place the same owner exactly if one node at most has the point that the place leads to |
| RingLaws.OwnersIgnoreOrderIff | cache/consistenthash/consistenthash.go:89-161 | so for all places exactly if no two nodes share a point |
| RingLaws.InjectiveHashKeepsApart | cache/consistenthash/consistenthash.go:105-107 | a hash injective on the labels makes the nodes share no point |
| RingLaws.FirstsInOrder | cache/consistenthash/consistenthash.go:178-186 | nodes are listed in the order in which the walk first meets them |
| RingLaws.WalkIsClockwise | cache/consistenthash/consistenthash.go:178-180 | the walk goes on clockwise from the point that Get takes |
| RingLaws.WalkMeetsAll | cache/consistenthash/consistenthash.go:178-180 | the walk meets every node, and only nodes |
| RingLaws.SeveralMeaning | cache/consistenthash/consistenthash.go:164-191 | GetMultiple: min(count, nodes) different nodes, first the one of Get, a prefix of the result for count + 1, all nodes for a large count |
| ConsistentHash.Map.constructor | cache/consistenthash/consistenthash.go:55-81 | an empty ring with the given hash, replicas and weights |
| ConsistentHash.Map.Add | cache/consistenthash/consistenthash.go:84-112 | the loops and the sort give the ring with all points of the nodes, weights applied, later nodes winning shared points |
| ConsistentHash.Map.Remove | cache/consistenthash/consistenthash.go:115-137 | search, splice and delete in loops give the ring of the specification, still sorted |
| ConsistentHash.Map.Get | cache/consistenthash/consistenthash.go:140-161 | the owner of the point nearest clockwise to the hash of the key, or the empty name |
| ConsistentHash.Map.GetMultiple | cache/consistenthash/consistenthash.go:164-191 | the loop with the early stop gives the cut list of first meetings |
| ConsistentHash.Map.GetNodeCount | cache/consistenthash/consistenthash.go:243-253 | the number of different owners |
| HttpPool.OwnerIsAdded | cache/http.go:72-81 | a ring made from scratch names one of its nodes or nobody |
| HttpPool.IeeeMeaning | cache/consistenthash/consistenthash.go:66-69 | the pool's hash is CRC-32 of the key: 0 for nothing, and continued by Update |
| HttpPool.PoolCount | cache/http.go:20-23 | every peer of the pool has 50 points |
| HttpPool.HTTPPool.Set | cache/http.go:72-81 | a fresh ring of exactly these peers with 50 points each, and a client for each of them and no other |
| HttpPool.HTTPPool.PickPeer | cache/http.go:84-92 | the client of the key's owner, which is always there, unless the owner is this node or nobody |
| Routing.SameOwner | cache/http.go:72-92 | pools with the same peers in any order agree on the owner of a key, if one node at most has the point of the key |
| Routing.DisjointSettles | cache/http.go:72-81 | which holds of every key if no two nodes share a point |
| Routing.OneHop | cache/http.go:84-92 | whoever a key is forwarded to is a running node, its owner, and forwards it no further |
| Routing.OneHopIff | cache/http.go:72-92 | for any list of nodes: in every cluster of them, whatever the orders of the pools, a key is forwarded at most once exactly if one node at most has the point of the key |
| Routing.ContestedForwardsForever | cache/http.go:72-92 | otherwise there is a cluster of these nodes in which two of them forward the key to each other forever |
| Routing.OthersUntouched | cache/gocache.go:85-128 | a Get across nodes, which ends because of one hop, touches no cache but those of the node asked and of its peer |
| Routing.GetAtRepliesTheSources | cache/gocache.go:73-128 | whichever nodes are down, the reply is the source's and all caches stay right |
| Routing.OnlyAtOwnerIff | cache/gocache.go:85-128 | a Get keeps keys cached at their owners only, exactly unless a node stands in for an owner that is down with a value that fits |
| Routing.TheClusterIsOneCache | cache/gocache.go:85-128 | after any requests and failures the next reply is the source's; if no owner was down when asked, no key that has an owner is cached at two nodes |
| TtlSpec.DeletedIfExpiredMeaning | cache/ttl.go:67-76 | a deletion, however late, removes nothing but an entry expired by then |
| Ttl.TTLCache.Set | cache/ttl.go:36-44 | the entry replaces any other of its key and expires after its own time |
| Ttl.TTLCache.Look | cache/ttl.go:48-54 | what Get finds under the lock |
| Ttl.TTLCache.Judge | cache/ttl.go:52-63 | what Get makes of it at a later clock value: the answer, and whether a deletion is left behind |
| Ttl.TTLCache.Get | cache/ttl.go:47-64 | without interference a hit exactly for an unexpired entry; a deletion is left behind exactly for an expired one |
| Ttl.TTLCache.DeleteIfExpired | cache/ttl.go:67-76 | the key goes only if its present entry is expired |
| Ttl.TTLCache.Cleanup | cache/ttl.go:92-103 | deleting while iterating leaves exactly the entries not expired at the sampled time |
| Ttl.TTLCache.Delete | cache/ttl.go:106-110 | exactly that key goes |
| Ttl.TTLCache.Clear | cache/ttl.go:120-124 | nothing is left |
| Ttl.TTLCache.Len | cache/ttl.go:113-117 | counts all entries, never fewer than the unexpired ones |
| TtlLaws.StepKeepsRelated | cache/ttl.go:36-124 | every step keeps this cache and one that never purges apart only in expired entries |
| TtlLaws.PurgingIsInvisible | cache/ttl.go:36-124 | in every interleaving each Get answers as a cache that never purges would, and the unexpired entries are the same |
| TtlLaws.SetEntrySurvives | cache/ttl.go:36-103 | whatever deletions and cleanups are pending, a set entry is there until replaced or expired itself |
| TtlLaws.LateDeletionMeetsNewEntry | cache/ttl.go:56-76 | a run with a deletion pending for a key whose entry is alive again |
| TtlLaws.Perform | cache/ttl.go:36-124 | the class takes the steps of the interleaved system: the same entries, the same answers, the same deletions left behind |
| Crc32.UpdateConcat | cache/persistence/rdb.go:290-292 | updating a checksum of s with t gives the checksum of s followed by t |
| Crc32.StepIsDivision | cache/persistence/rdb.go:388-390 | the table step of CRC-32 is eight steps of the polynomial division of the state with the byte added in |
| Crc32.StepInjectiveInState | cache/persistence/rdb.go:388-390 | different states stay different over a byte |
| Crc32.StepInjectiveInByte | cache/persistence/rdb.go:388-390 | different bytes lead to different states |
| Crc32.OneByteChangesChecksum | cache/persistence/rdb.go:388-390 | changing one byte of a string changes its checksum |
| RdbSpec.AcceptedLanguage | cache/persistence/rdb.go:176-202 | decoding succeeds exactly on "REDIS", 4 bytes, 0xFE, 0x00, bytes without 0xFF, 0xFF, the little-endian checksum of all that, and anything |
| RdbSpec.UniqueSplit | cache/persistence/rdb.go:176-202 | a stream is of that form in one way only |
| RdbSpec.SealedOutcome | cache/persistence/rdb.go:94-117 | a sealed frame is accepted for database 0 and refused as unsupported for any other |
| RdbSpec.LittleEndianInverse | cache/persistence/rdb.go:277 | four bytes are written back as they were read |
| RdbSpec.OneByteIsNoticed | cache/persistence/rdb.go:303-390 | for every change of one byte of an accepted stream, exactly what decoding says of it: wrong magic, opcode, database or checksum, an early or late end of the frame, or nothing behind the seal |
| RdbSpec.UnnoticedIff | cache/persistence/rdb.go:303-390 | such a change goes unnoticed exactly behind the seal, or if it makes or removes a terminator and the four bytes behind the first one then are the checksum of what precedes them |
| RdbSpec.MovedTerminatorCanHide | cache/persistence/rdb.go:348-371 | both happen: two accepted streams that differ in one byte, a terminator in one of them |
| RdbSpec.KnownChecksum | cache/persistence/rdb.go:94-117 | the checksum that a saved snapshot carries |
| RdbSpec.HeaderText | cache/persistence/rdb.go:219-222 | magic and version spell "REDIS" and "0001" |
| Rdb.RDBEncoder.WriteHeader | cache/persistence/rdb.go:218-235 | appends magic and version and keeps the running checksum that of all bytes written |
| Rdb.RDBEncoder.WriteSelectDB | cache/persistence/rdb.go:238-253 | appends the opcode and the low eight bits of the number, likewise |
| Rdb.LowByteMeaning | cache/persistence/rdb.go:245 | the byte written for a number is the one that equals it modulo 256, also for negative numbers |
| Rdb.RDBEncoder.WriteCache | cache/persistence/rdb.go:256-269 | appends the terminator, likewise |
| Rdb.RDBEncoder.WriteFooter | cache/persistence/rdb.go:272-282 | appends the checksum of everything before |
| Rdb.Save | cache/persistence/rdb.go:94-117 | what is written is accepted exactly when the number is 0 modulo 256 |
| Rdb.RDBDecoder.ReadHeader | cache/persistence/rdb.go:303-322 | a short stream is reported before a wrong magic; on success the running checksum is that of the nine bytes read |
| Rdb.RDBDecoder.ReadSelectDB | cache/persistence/rdb.go:325-345 | the opcode is checked before the number is read; the number; the running checksum |
| Rdb.RDBDecoder.ReadCache | cache/persistence/rdb.go:348-371 | stops behind the first terminator with the running checksum that of all bytes read |
| Rdb.RDBDecoder.VerifyChecksum | cache/persistence/rdb.go:374-385 | succeeds exactly when the next four bytes are the checksum of all bytes read so far |
| Rdb.Load | cache/persistence/rdb.go:176-202 | the four stages give the outcome of the stream, so success exactly on the accepted language |

## Left out

- Serving and fetching over HTTP: a fetch is a call that returns the peer's reply or fails. The client's URL lacks the separators the server expects (cache/http.go:50, cache/http.go:104), so no URL round trip is claimed.
- SetWeight and removeKey: SetWeight calls AddWithWeight while it holds the lock that AddWithWeight takes (cache/consistenthash/consistenthash.go:194-206) and does not return; weights are therefore fixed by the constructor. That the weights map is shared with the caller of NewWithWeight is not modelled.
- WithReplicas and WithHashFunc: options with the effect of constructor arguments; WithWeight does nothing.
- GetKeys, GetReplicas and FnvHash of the ring: a copy, a field and an alternative hash; the hash is arbitrary here.
- Concurrent FastLRU.Get: it moves list elements under a read lock (cache/lru/fast_lru.go:94-97), so FastLru models one caller at a time.
- FastLru.FastLRU.constructor: counts for which the rounding overflows are excluded, because making the shards panics there; memory is not bounded.
- FastLRU.Stats, TTLCache.Stats, Close and the ticker: sums, counts and plumbing. TTLGroup and GetWithTTL: a composition of the two caches whose entries never meet.
- Lru.Cache.Add, FastLru.FastLRU.Add: where the eviction loop does not end (LruSpec.EvictionLoopStopsIff: a negative budget, or negative share of it) the code hangs, and the calls are excluded. Group takes only budgets of 0 or more.
- Overflow of the byte counters, of replicas times weight and of expiry times: these are unbounded integers here.
- Values whose Len changes while cached, callbacks that use the cache they are called from, and loading functions that panic: assumed away, as the code has no defence against them.
- LinkedList: the test of container/list that an element belongs to the list, and its lazy initialisation, are preconditions and a constructor here.
- Routing: one request at a time; the concurrency of Gets within one node is in GroupConcurrent. All nodes share one getter function.
- HttpPool.HTTPPool.PickPeer: asking before any Set dereferences a nil ring in the code and is excluded.
- NewGroup's registry of groups, RegisterPeers and logging: a global map, one assignment and output.
- RDBManager's files, gzip, buffering and errors of the writer: streams are byte sequences and writing succeeds. WriteCache writes no entries, so there is no round trip of data.
- cache/persistence/aof.go, cache/persistence/manager.go, cache/metrics.go, cache/pool.go, cache/byteview.go, cache/peers.go: stubs, timers, counters, copies and interfaces would only add easy members.
