# groupcache primitives: the LRU cache and the consistent-hash ring

This project models two sequential data structures from groupcache in Dafny
and proves what their code promises.

- `lru.dfy` (module `Lru`) models `lru/lru.go`: a bounded cache with
  least-recently-used eviction and an optional eviction callback.
  - The class `Cache` keeps the recency list as a sequence of `Entry`
    objects, front first, and the key-to-entry map as a `map`.
    `initialized` is false where the Go list and map are nil.
  - The ghost log `evicted` records the arguments of every call to the
    eviction callback.
  - Each method is proved against a function on the abstract recency list,
    a sequence of (key, value) pairs: `AddTo`, `Touched`, `RemoveKey` and
    `RemoveBack`. Lemmas then state the cache's promises about those
    functions.
- `consistenthash.dfy` (module `ConsistentHash`) models
  `consistenthash/consistenthash.go`: a ring of hash points.
  - Every node name is hashed `replicas` times, as the decimal replica
    number followed by the name.
  - A key is served by the node of the first point at or after the key's
    hash, wrapping around to the smallest point.
  - The hash function is a parameter.
  - `sort.Ints` is specified by an insertion sort (`Sort`). `sort.Search`
    is a binary search (`Search`), proved to find the left-to-right lower
    bound (`LowerBound`).
- `wrappers.dfy` holds the `Option` type. `Option` models Go's
  `(value, ok)` results and a nil hash function.

## Model

| member | source | states |
|---|---|---|
| `Lru.Cache.constructor` | lru/lru.go:44-50 | `New(maxEntries)` gives a valid, initialized, empty cache with no callback and an empty eviction log. The cache is within its bound (`Bounded`) |
| `Lru.Cache.Literal` | lru/lru.go:22-32 | A cache built as a literal is valid and empty, and its list and map are nil until the first `Add`. The cache is within its bound |
| `Lru.Cache.CacheLookup` | lru/lru.go:60 | The map lookup `c.cache[key]` hits exactly the keys of the recency list. It finds the list's entry for that key, which holds the key's value, and the list's keys are distinct |
| `Lru.Cache.Add` | lru/lru.go:53-73 | Re-creates a nil list and map, and keeps the map/list invariant. The new list is `AddTo(old list)`, and the callback log grows by exactly the entries `AddTo` evicts, when a callback is set. A cache within its positive bound stays within it. Every entry in the new list is an old entry or a new object |
| `Lru.Cache.AddNew` | lru/lru.go:66-72 | For a key not in the map: pushes a new entry, then calls `RemoveOldest` when a non-zero bound is exceeded. The new list is `AddTo(old list)`, the bound is kept, and every entry is an old one or the new one |
| `Lru.Cache.UpdateEntry` | lru/lru.go:60-64 | On a present key, the entry moves to the front with the new value, and the rest of the list is the old list without that key. The entries are the old ones, and the length is unchanged |
| `Lru.Cache.PushEntry` | lru/lru.go:67-68 | `PushFront` of a new entry plus the map write: the list gains `(key, value)` at the front and the invariant holds |
| `Lru.Cache.MoveEntryToFront` | lru/lru.go:61 | `MoveToFront` puts the entry first; behind it is the old list without its key; the map and the invariant are kept. The entries are the old ones, and the length is unchanged |
| `Lru.Cache.Get` | lru/lru.go:76-86 | Returns the key's value or `None`, including on a nil cache. The new list is `Touched(old list)`: a hit moves to the front. Nothing is evicted, the bound is kept, and the entries are the old ones |
| `Lru.Cache.Remove` | lru/lru.go:89-96 | A no-op on a nil cache. Otherwise the new list is `RemoveKey(old list)`, and the removed pair is logged when a callback is set. The bound is kept, and the entries are old ones |
| `Lru.Cache.RemoveOldest` | lru/lru.go:99-108 | A no-op on a nil cache. Otherwise the new list is `RemoveBack(old list)`, and the back pair is logged when a callback is set. The bound is kept, and the entries are old ones |
| `Lru.Cache.RemoveElement` | lru/lru.go:111-118 | Unlinks the entry, deletes its key from the map, and logs `(key, value)` once when a callback is set. The list loses exactly that entry, so it is one shorter, and the remaining entries are old ones |
| `Lru.Cache.Len` | lru/lru.go:121-126 | Returns the number of entries in the recency list, which is 0 for a nil cache |
| `Lru.Cache.CallbackArguments` | lru/lru.go:130-135 | The loop over the map passes every (key, value) pair of the cache exactly once, as a multiset |
| `Lru.Cache.Clear` | lru/lru.go:129-138 | Afterwards the cache is valid, empty and within its bound, with a nil list and map. The log grows by exactly the old entries, as a multiset, when a callback is set, and by nothing otherwise |
| `Lru.AddThenGet` | lru/lru.go:53-86 | After `Add(k, v)`, `k` is at the front with value `v`, `Get(k)` returns `v`, and that `Get` changes nothing. This holds for every bound except a negative one on an empty cache |
| `Lru.NegativeBoundDropsNewEntry` | lru/lru.go:69-72 | With a negative `MaxEntries`, the guard `!= 0` still fires, so an entry added to an empty cache is evicted at once |
| `Lru.OperationsKeepDistinct` | lru/lru.go:30-31 | `Add`, `Get`, `Remove` and `RemoveOldest` all keep the list's keys distinct |
| `Lru.AddBounded` | lru/lru.go:69-72 | With a positive bound the list respects, `Add` keeps it within the bound and evicts at most one entry. That entry is the back one, and only when the list was full |
| `Lru.AddNewKey` | lru/lru.go:66-72 | For a new key, the new list followed by the evicted entries is the old list with `(k, v)` in front. Nothing is evicted exactly when the bound is 0 or not exceeded |
| `Lru.AddExistingKey` | lru/lru.go:60-64 | For a present key: nothing is evicted, the length and key set stay, `(k, v)` is at the front, and every other key keeps its value |
| `Lru.GetHit` | lru/lru.go:80-84 | On a hit, the entry moves to the front; the length, the key set and every key's value stay |
| `Lru.GetMiss` | lru/lru.go:76-86 | On a miss, `Get` returns `None` and the list is unchanged |
| `Lru.RemovePresent` | lru/lru.go:89-96 | Removing a present key reports exactly `(k, v)` and shortens the list by one. Nothing else is lost or duplicated, and every other key keeps its value |
| `Lru.RemoveAbsent` | lru/lru.go:93-95 | Removing an absent key changes nothing and reports nothing |
| `Lru.RemoveOldestTakesBack` | lru/lru.go:99-108 | Removes exactly the back entry, which is the least recently used, and keeps the others in order. A no-op on an empty list |
| `Lru.FindHitsKeys` | lru/lru.go:60 | A lookup hits exactly the keys in the list |
| `Lru.WithoutKeyMultiset` | lru/lru.go:112-114 | Taking out a key's entry removes exactly its pair from the list |
| `Lru.DrainStep` | lru/lru.go:131-134 | One pass of the `Clear` loop reports the cache's pair for the visited key, and leaves the other keys still to be reported |
| `Lru.PairsUnlink` | lru/lru.go:112 | The list's `Remove(e)` takes `e`'s key out of the list's pairs and keeps the rest in order |
| `Lru.UnlinkLength` | lru/lru.go:112 | The list's `Remove(e)` of a member shortens the list by exactly one |
| `Lru.IndexedUnlink` | lru/lru.go:112-114 | Unlinking an entry and deleting its key keeps the map/list invariant |
| `Lru.IndexedPush` | lru/lru.go:67-68 | Pushing a new key's entry and mapping the key to it keeps the map/list invariant |
| `Lru.IndexedMoveToFront` | lru/lru.go:61 | `MoveToFront` keeps the map/list invariant |
| `Lru.EvictionSteps` | lru/lru.go:53-86 | With a bound of 2, adding 1 and 2, getting 1 and adding 3 evicts `(2, 20)` and leaves `[(3, 30), (1, 10)]` |
| `Lru.FillAndTouch` | lru/lru.go:44-86 | A client of the class: `New(2)`, `Add(1)`, `Add(2)` and `Get(1)` leave the list `[(1, 10), (2, 20)]` of new entries |
| `Lru.EvictionOrder` | lru/lru.go:53-86 | A client of the class: after `FillAndTouch`, `Add(3)` evicts 2, the least recently used key, and keeps 1. `Len` is then 2 |
| `ConsistentHash.Map.constructor` | consistenthash/consistenthash.go:37-48 | `New` gives a valid, empty ring. Its hash is `fn`, or the library checksum when `fn` is nil |
| `ConsistentHash.Map.IsEmpty` | consistenthash/consistenthash.go:51-53 | True exactly when there are no points |
| `ConsistentHash.Map.EmptyMeansNoNodes` | consistenthash/consistenthash.go:51-53 | On a valid ring, `IsEmpty` (no points) holds exactly when no point is mapped |
| `ConsistentHash.Map.Add` | consistenthash/consistenthash.go:56-67 | The points become exactly `Sort(old points ++ new points)`: the old points plus the new ones, as a multiset, in ascending order. The map receives the writes in loop order. The ring stays valid: every point is mapped, and every mapped node was added |
| `ConsistentHash.Map.Get` | consistenthash/consistenthash.go:70-83 | Returns "" on an empty ring. Otherwise it returns the node at the wrapped lower bound of the key's hash, which is always an added node. It modifies nothing |
| `ConsistentHash.AddReplicas` | consistenthash/consistenthash.go:58-63 | The inner loop appends the points of replicas 0 .. replicas-1 in order, and makes their map writes in order |
| `ConsistentHash.AddNodes` | consistenthash/consistenthash.go:57-64 | The outer loop appends and maps the replica points of each node in turn |
| `ConsistentHash.AddPreservesRing` | consistenthash/consistenthash.go:56-67 | `Add` keeps the ring valid: the sorted points are exactly the mapped points, and every mapped node is an old one or one of the new nodes |
| `ConsistentHash.AddedPointsCount` | consistenthash/consistenthash.go:57-64 | One `Add` creates `replicas * len(nodes)` points, and none for a negative replica count |
| `ConsistentHash.ReplicaPointsAt` | consistenthash/consistenthash.go:58-61 | Replica `i` of a node is the point `hash(Itoa(i) + node)` |
| `ConsistentHash.AddedPointsAppend` | consistenthash/consistenthash.go:57-64 | The points of `Add(a ++ b)` are those of `a` followed by those of `b` |
| `ConsistentHash.AddedPointsOne` | consistenthash/consistenthash.go:58-63 | The points of one node are its replicas' points in order |
| `ConsistentHash.AssignReplicasKeys` | consistenthash/consistenthash.go:58-63 | After one node's writes, the map's points are the old ones plus that node's points |
| `ConsistentHash.AssignKeys` | consistenthash/consistenthash.go:57-64 | After `Add`, the map's points are the old ones plus the new ones |
| `ConsistentHash.AssignOther` | consistenthash/consistenthash.go:62 | A point that `Add` does not create keeps its mapping, or stays unmapped |
| `ConsistentHash.AssignNew` | consistenthash/consistenthash.go:62 | Every point `Add` creates is mapped to one of the nodes passed to it |
| `ConsistentHash.LastWriteWins` | consistenthash/consistenthash.go:58-62 | Within one node's writes, each of its points maps to that node |
| `ConsistentHash.LaterNodeWins` | consistenthash/consistenthash.go:57-62 | On a collision, the later node overwrites the mapping. A node's point stays its own unless a later node in the same call creates it |
| `ConsistentHash.CollidingNodes` | consistenthash/consistenthash.go:61-62 | An example with the constant hash 7, one replica and the nodes `[97]` and `[98]`: both points are kept, so the list holds 7 twice, and `[98]` owns 7. The general facts are `LaterNodeWins` and the multiset clause of `Map.Add` |
| `ConsistentHash.ItoaRoundTrip` | consistenthash/consistenthash.go:60 | `strconv.Itoa` writes decimal digits with no leading zero, and they read back as the number |
| `ConsistentHash.ItoaInjective` | consistenthash/consistenthash.go:60 | Different replica numbers give different prefixes |
| `ConsistentHash.Insert` | consistenthash/consistenthash.go:66 | Insertion adds exactly one copy of the value, as a multiset |
| `ConsistentHash.InsertSorted` | consistenthash/consistenthash.go:66 | Insertion into a sorted list keeps it sorted |
| `ConsistentHash.Sort` | consistenthash/consistenthash.go:66 | `sort.Ints` keeps the same integers, duplicates included |
| `ConsistentHash.SortSorted` | consistenthash/consistenthash.go:66 | The result of `sort.Ints` is sorted ascending |
| `ConsistentHash.SortedUnique` | consistenthash/consistenthash.go:66 | Two sorted lists with the same integers, duplicates included, are equal |
| `ConsistentHash.SortIsTheSortedOrder` | consistenthash/consistenthash.go:66 | Every sorted rearrangement of a list is `Sort` of it, so `Sort` determines the result of `sort.Ints` whatever algorithm that uses |
| `ConsistentHash.Search` | consistenthash/consistenthash.go:77 | On a sorted list, the binary search `sort.Search` returns the first index whose point is at least the hash, or the length if there is none |
| `ConsistentHash.LowerBoundLeast` | consistenthash/consistenthash.go:77 | Every point before the lower bound is smaller than the hash, and the point at the bound, if any, is not |
| `ConsistentHash.LowerBoundFrom` | consistenthash/consistenthash.go:77 | Any index with that property is the lower bound |
| `ConsistentHash.WrappedLowerBoundIsSuccessor` | consistenthash/consistenthash.go:76-80 | On a sorted, non-empty ring, the index `Get` picks holds the first point clockwise from the hash. That is the least point at or after the hash, or else the least point overall |
| `ConsistentHash.AddMovesKeysOnlyToNewNodes` | consistenthash/consistenthash.go:56-83 | After `Add(nodes...)`, every key is served either by the node that served it before or by one of the new nodes |

## Left out

- Concurrency: `lru.Cache` is not safe for concurrent use, as lru/lru.go:21
  says. The ring has no locking. Both are modelled as sequential objects.
  `singleflight` is not part of this model, because it only coordinates
  goroutines.
- The CRC-32 computation (`crc32.ChecksumIEEE`) is a library function. It is
  the `checksumIEEE` parameter of the ring's constructor.
- The internals of `container/list`:
  - The list is a sequence of entry objects. `MoveToFront`, `PushFront`,
    `Remove` and `Back` act on that sequence.
  - Element pointers and their `prev`/`next` links are not modelled.
- The algorithms inside `sort.Ints` and `sort.Search`. They are replaced by
  an insertion sort and a binary search with the same contracts. A sorted
  permutation of integers is unique (`SortedUnique`), so `Sort` gives the
  same list as `sort.Ints` (`SortIsTheSortedOrder`).
- The callback's own side effects and any re-entrant call into the cache.
  Only its arguments are recorded, in `evicted`. `onEvicted` records only
  whether a callback is set.
- `MaxEntries` and `OnEvicted` are exported fields of the Go struct, so a
  client could reassign them between calls. They are constants of a `Cache`
  here, because no method of lru/lru.go writes them.
- `interface{}` keys and values are generic type parameters. Keys must
  support equality, as Go requires of map keys.
- Go's `(value, ok)` results are `Option` values, and a nil `fn` is `None`.
- Integer width:
  - A Go `int` on a 64-bit platform holds every `uint32` hash, so hashes are
    unbounded integers here.
  - A 32-bit `int` could turn a hash negative. That case is not modelled.
- Lru.Cache.Clear: the callback arguments are stated as a multiset, not
  in order, because Go's map iteration order is unspecified.
- Lru.AddThenGet: excludes a negative bound on an empty cache. There, the
  source evicts the new entry at once, as `Lru.NegativeBoundDropsNewEntry`
  states.
