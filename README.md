# LRU cache, modelled and verified in Dafny

This project models the core of a small Java library: a generic,
fixed-capacity cache that evicts the least recently used entry. The cache
(`LRUCache`) keeps a hash map from keys to entries, for constant-time
lookup. It also keeps a doubly linked recency list of the same entries
(`DoublyLinkedList` of `CacheEntry` nodes), for constant-time reordering
and eviction. A factory (`CacheFactory.createCache`) builds a cache from an
eviction policy; only LRU is implemented.

Layout, one Dafny module per file:

- `wrappers.dfy` (`Wrappers`): `Option` (Java's `Optional`, or a `null` reference) and `Result` (a value, or a thrown exception).
- `cache_errors.dfy` (`CacheErrors`): the exceptions, as values: `NullPointer`, `IllegalArgument` and `CacheException`, each with its message.
- `cache_entry.dfy` (`CacheEntries`): the node class. `key` is a `const`; `value`, `prev` and `next` are mutable fields.
- `doubly_linked_list.dfy` (`DoublyLinkedLists`): the recency list as a class that rewires `head`, `tail`, `size` and the nodes' links in place. A ghost sequence `Nodes` is the chain from head to tail. `Valid()` says the links form exactly that chain.
- `lru_spec.dfy` (`LruSpec`): the abstract cache, a sequence of (key, value) pairs from the most to the least recently used. It defines `Find`, `Drop`, `Evict`, `Put` and `Touch` on that sequence, and the lemmas stating what the cache promises.
- `lru_cache.dfy` (`LRUCaches`): the cache class, holding a `map` from keys to entries and the list. A ghost sequence `Contents` holds its pairs. `Valid()` ties the map, the list and `Contents` together. Every method is proved to change `Contents` exactly as the matching `LruSpec` function does. The main branches of `put`, `get` and `remove` are separate methods (`Update` and `Insert` for `put`, `Promote` for `get`, `Delete` for `remove`). They run the source's steps in the source's order.
- `cache_factory.dfy` (`CacheFactory`): the eviction-policy datatype and `CreateCache`.
- `cache_scenarios.dfy` (`CacheScenarios`): the unit tests' scenarios, run on the cache class and proved. The two longest are split into steps, each stating the contents it leaves behind.

Java `null` keys and policies are modelled as `None`. A thrown exception is
modelled as a `Failure` result carrying the Java message. The source's
integers are unbounded `int`s here.

## Model

| member | source | states |
|---|---|---|
| CacheEntries.CacheEntry.constructor | src/main/java/com/LRUCACHE/CacheEntry.java:12-15 | the new entry holds exactly the given key and value and is unlinked (`prev` and `next` null); `key` is a constant, so it never changes afterwards |
| DoublyLinkedLists.DoublyLinkedList.constructor | src/main/java/com/LRUCACHE/DoublyLinkedList.java:4-7 | a new list is a valid, empty chain |
| DoublyLinkedLists.DoublyLinkedList.Size | src/main/java/com/LRUCACHE/DoublyLinkedList.java:9-11 | the size field equals the number of linked entries |
| DoublyLinkedLists.DoublyLinkedList.AddFirst | src/main/java/com/LRUCACHE/DoublyLinkedList.java:21-28 | an unlinked entry becomes the head with a null `prev`, ahead of all previous entries in their old order; the old head's `prev` is the new entry; an empty list also gets it as tail; size grows by one; the chain stays valid |
| DoublyLinkedLists.DoublyLinkedList.Remove | src/main/java/com/LRUCACHE/DoublyLinkedList.java:39-54 | a null entry changes nothing; a linked entry leaves the chain, and the others stay in order; the entry's own links are cleared; size drops by one; the chain stays valid |
| DoublyLinkedLists.DoublyLinkedList.MoveToHead | src/main/java/com/LRUCACHE/DoublyLinkedList.java:14-18 | the entry becomes the head; every other entry keeps its relative order; size is unchanged; the chain stays valid |
| DoublyLinkedLists.EraseHead | src/main/java/com/LRUCACHE/DoublyLinkedList.java:15 | moving the current head to the head gives back the same order, so the early return changes nothing |
| DoublyLinkedLists.DoublyLinkedList.RemoveTail | src/main/java/com/LRUCACHE/DoublyLinkedList.java:31-36 | an empty list returns null and changes nothing; otherwise the former tail is returned unlinked, the rest of the chain is kept in order, and size drops by one |
| DoublyLinkedLists.DoublyLinkedList.Clear | src/main/java/com/LRUCACHE/DoublyLinkedList.java:57-61 | head and tail become null, size 0, and the chain is empty |
| DoublyLinkedLists.UnlinkKeepsChain | src/main/java/com/LRUCACHE/DoublyLinkedList.java:41-52 | splicing an entry's neighbours together, moving `head`/`tail` when it was at an end, leaves a valid chain of the remaining entries |
| DoublyLinkedLists.EraseAt | src/main/java/com/LRUCACHE/DoublyLinkedList.java:44-51 | in a chain without repeats, taking one entry out removes exactly its position and keeps the rest in order |
| DoublyLinkedLists.BackLinksDistinct | src/main/java/com/LRUCACHE/DoublyLinkedList.java:22-24 | when the head has no `prev` and every other entry's `prev` is the one before it, no entry is linked twice |
| LRUCaches.LRUCache.constructor | src/main/java/com/LRUCACHE/LRUCache.java:29-36 | given a positive capacity, the new cache is valid, empty and has that capacity |
| LRUCaches.NewLRUCache | src/main/java/com/LRUCACHE/LRUCache.java:29-36 | a capacity of 0 or less fails with `IllegalArgument("capacity must be > 0")`; otherwise a new, valid, empty cache of that capacity |
| LRUCaches.LRUCache.Put | src/main/java/com/LRUCACHE/LRUCache.java:38-60 | a null key fails with `NullPointer("key is null")` and leaves the contents alone; otherwise the contents become `LruSpec.Put` of the old ones; the cache stays valid; every entry afterwards was already there or is new |
| LRUCaches.LRUCache.Update | src/main/java/com/LRUCACHE/LRUCache.java:43-48 | for a key already held, the existing entry takes the new value and moves to the front; the other pairs keep their order; no entry is added |
| LRUCaches.LRUCache.Insert | src/main/java/com/LRUCACHE/LRUCache.java:54-56 | for a new key with room to spare, a new entry with the pair is linked in front of all the old pairs |
| LRUCaches.LRUCache.Evict | src/main/java/com/LRUCACHE/LRUCache.java:117-122 | the least recently used pair, if any, leaves both the list and the map; everything else stays in order; an empty cache is unchanged |
| LRUCaches.LRUCache.Get | src/main/java/com/LRUCACHE/LRUCache.java:62-75 | a null key fails with `NullPointer("key is null")`; otherwise the result is the value stored under the key, or `None`, and the contents become `Touch` of the old ones: a hit moves to the front, a miss changes nothing |
| LRUCaches.LRUCache.Promote | src/main/java/com/LRUCACHE/LRUCache.java:67-71 | for a key held, returns its value and moves its entry to the front without adding or dropping an entry |
| LRUCaches.LRUCache.Remove | src/main/java/com/LRUCACHE/LRUCache.java:77-89 | a null key fails with `NullPointer("key is null")`; otherwise the result is the value the key had, or `None`, and the contents become `Drop` of the old ones |
| LRUCaches.LRUCache.Delete | src/main/java/com/LRUCACHE/LRUCache.java:82-85 | for a key held, its key leaves the map, its entry leaves the list, and its value is returned; the other pairs keep their order |
| LRUCaches.LRUCache.Size | src/main/java/com/LRUCACHE/LRUCache.java:91-99 | the map's size is the number of pairs held, between 0 and the capacity |
| LRUCaches.CountKeys | src/main/java/com/LRUCACHE/LRUCache.java:95 | in a valid cache the map holds exactly one key per pair |
| LRUCaches.LRUCache.Capacity | src/main/java/com/LRUCACHE/LRUCache.java:101-104 | returns the capacity given at construction, which is positive |
| LRUCaches.LRUCache.Clear | src/main/java/com/LRUCACHE/LRUCache.java:106-115 | the map and the list are emptied, the contents become empty, the capacity stays, and the cache stays valid |
| LRUCaches.KeyAt | src/main/java/com/LRUCACHE/LRUCache.java:25-26 | in a valid cache each position's key is held at no other position, and the map sends it to that position's entry |
| LRUCaches.IndexesDistinctKeys | src/main/java/com/LRUCACHE/LRUCache.java:25-26 | a map onto distinct list entries holds no key twice |
| LruSpec.Find | src/main/java/com/LRUCACHE/LRUCache.java:67-71 | the lookup finds nothing exactly when the key is not held, and a value it finds is paired with the key |
| LruSpec.Drop | src/main/java/com/LRUCACHE/LRUCache.java:82 | removing a key leaves exactly the other keys |
| LruSpec.FindAt | src/main/java/com/LRUCACHE/LRUCache.java:67-71 | with distinct keys, a lookup returns the value paired with the key wherever it is |
| LruSpec.DropAt | src/main/java/com/LRUCACHE/LRUCache.java:82-84 | with distinct keys, removing a present key takes out exactly its position |
| LruSpec.FindDrop | src/main/java/com/LRUCACHE/LRUCache.java:82-84 | removing one key does not change any other key's lookup |
| LruSpec.KeysCount | src/main/java/com/LRUCACHE/LRUCache.java:95 | with distinct keys, the number of pairs is the number of keys |
| LruSpec.PutKeepsInvariant | src/main/java/com/LRUCACHE/LRUCache.java:43-56 | `put` keeps the keys distinct and the size between 1 and the capacity, with the pair just put in front |
| LruSpec.PutThenGet | src/main/java/com/LRUCACHE/LRUCache.java:43-56 | right after `put(k, v)`, `get(k)` returns `v` and leaves the order unchanged, so `k` stays the most recently used |
| LruSpec.PutExisting | src/main/java/com/LRUCACHE/LRUCache.java:43-48 | `put` of a key already held evicts nothing: size and key set stay, the other pairs keep their values and their relative order |
| LruSpec.PutNewWhenFull | src/main/java/com/LRUCACHE/LRUCache.java:51-56 | `put` of a new key into a full cache drops exactly the last (least recently used) pair and puts the new pair in front of the rest |
| LruSpec.PutNewWithRoom | src/main/java/com/LRUCACHE/LRUCache.java:51-56 | `put` of a new key with room to spare evicts nothing and adds the key in front |
| LruSpec.EvictsOnlyWhenFull | src/main/java/com/LRUCACHE/LRUCache.java:51-53 | every key held survives `put` if and only if the key was already held or the cache had room |
| LruSpec.GetPresent | src/main/java/com/LRUCACHE/LRUCache.java:67-71 | `get` of a held key moves it to the front; size, key set, every value and the order of the others are unchanged |
| LruSpec.GetAbsent | src/main/java/com/LRUCACHE/LRUCache.java:67-68 | `get` of an absent key returns nothing and changes nothing |
| LruSpec.RemoveKeepsOrder | src/main/java/com/LRUCACHE/LRUCache.java:82-85 | `remove` of a held key drops exactly its pair and keeps the others in order and with their values; of an absent key it changes nothing |
| LruSpec.GetProtectsFromEviction | src/test/java/com/LRUCACHE/LRUCacheTest.java:23-35 | with capacity at least 2, a key just read survives the `put` of any other key |
| LruSpec.CapacityOne | src/test/java/com/LRUCACHE/LRUCacheTest.java:54-61 | with capacity 1, `put` leaves the key just put alone in the cache |
| CacheFactory.CreateCache | src/main/java/com/LRUCACHE/CacheFactory.java:10-20 | a null policy fails with `IllegalArgument("policy is null")`; FIFO fails with `CacheException("Unsupported eviction policy: FIFO")`; LRU gives a new, valid, empty cache of the requested capacity, or the constructor's capacity error; it succeeds exactly for LRU with a positive capacity |
| CacheScenarios.PutAndGet | src/test/java/com/LRUCACHE/LRUCacheTest.java:13-20 | on the cache class: after `put("a", 1)`, `get("a")` returns 1 and the size is 1 |
| CacheScenarios.NullKey | src/test/java/com/LRUCACHE/LRUCacheTest.java:76-80 | on the cache class: `put` and `get` with a null key fail with a null-pointer error |
| CacheScenarios.CapacityIsKept | src/test/java/com/LRUCACHE/LRUCacheTest.java:83-86 | on the cache class: a cache built with capacity 2 reports 2 |
| CacheScenarios.EvictLeastRecentlyUsed | src/test/java/com/LRUCACHE/LRUCacheTest.java:23-36 | on the cache class: a and b put into a cache of capacity 2, a read, then c put: reading back finds a and c, not b, and the size is 2 |
| CacheScenarios.UpdateExistingKey | src/test/java/com/LRUCACHE/LRUCacheTest.java:39-51 | on the cache class: x updated in a full cache of capacity 2 reads back its new value, and the next new key evicts y |
| CacheScenarios.CapacityOne | src/test/java/com/LRUCACHE/LRUCacheTest.java:54-61 | on the cache class: with capacity 1, 1 is found after it is put; after 2 is put, 1 is gone and 2 is found |
| CacheScenarios.RemoveAndClear | src/test/java/com/LRUCACHE/LRUCacheTest.java:64-73 | on the cache class: removing a from a cache holding a and b returns 1, a is then absent, and after `clear()` the size is 0 |

## Left out

- Concurrency: the fair `ReentrantLock` and its `lock`/`unlock` wrappers are not modelled. Each operation is one atomic step.
- `CacheManager`, the `Cache` interface and the `CacheException` class are not part of this model. The interface's methods are the class's methods, and the exception is the `CacheException` error value.
- `toString` is debug formatting and is not modelled. The `HashMap` initial-size hint (`Math.max(16, capacity * 2)`) only affects performance and is not modelled either.
- The `EvictionPolicy` enum is not part of this model. It is a datatype with the two constants the factory names, `LRU` and `FIFO`.
- CacheFactory.CreateCache: returns the concrete `LRUCache` class rather than the `Cache` interface.
- DoublyLinkedLists.DoublyLinkedList.Remove: requires the entry to be null or linked in this list. The source's floor `if (size < 0) size = 0` only matters for an unlinked entry, so it is not reproduced; the cache never passes such an entry.
- DoublyLinkedLists.DoublyLinkedList.MoveToHead: for the head entry, the contract states that the order is unchanged (with `EraseHead`), not that no field is written.
- Stored `null` values are not modelled: `Optional.ofNullable` on a stored null makes a present key look absent, and here every stored value counts as present.
- Key equality is Dafny equality; Java's `equals`/`hashCode` contracts are not modelled.
- Java `int` overflow is not modelled. Sizes never exceed the capacity, so only the `HashMap` size hint could overflow, and that hint is left out.

`put` evicts when `map.size() >= capacity`
(src/main/java/com/LRUCACHE/LRUCache.java:51). A valid cache never holds more
than `capacity` pairs (`LruSpec.PutKeepsInvariant`), so this is the same as
testing for equality.
