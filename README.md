# LRU cache and Bloom filter, modelled in Dafny

This project models two small in-memory data structures and proves their
behaviour.

**The LRU cache** (`lru-cache/lru_cache.cpp`) is a fixed-capacity
`int -> int` store.
- An index maps each key to its node.
- A doubly-linked recency list runs from a dummy head (most recently used)
  to a dummy tail (least recently used).
- `get` answers `-1` on a miss. On a hit it returns the stored value and
  moves the node to the front.
- `put` updates and promotes a cached key. For a new key it first pops the
  node before the tail when the cache is full, then links the new node in
  front.

The model is split into five modules:
- `LruSpec` (`lru_spec.dfy`) states what the cache does on plain values:
  capacity, the keys from most to least recently used, and their values.
  `Get`, `Put`, `Evict` and `Listing` are the functions the class is proved
  against.
- `LruHistory` (`lru_history.dfy`) follows a whole run of calls on a new
  cache. The recency list is always the cached keys sorted by when each was
  last touched, so `put` evicts the key touched longest ago.
- `LruArena` (`lru_arena.dfy`) states on sequences of slots what a
  well-linked arena of nodes is.
  - Slot 0 is the dummy head, slot 1 the dummy tail, and a pointer is a
    slot number (`Nil` stands for `nullptr`).
  - The predicate `Linked` says that following `next` from the head meets
    the live slots in order, then the tail, and that `prev` mirrors this.
  - The pointer writes of `removeNode` and `addToFront` are proved to keep
    the list well linked.
- `LruLayout` (`lru_layout.dfy`) is the representation invariant `Represents`.
  It ties the arena, the list of live slots, the view and the index
  together, with one lemma per step of `get` and `put`.
- `Lru` (`lru_cache.dfy`) is the class `LruCache`.
  - It has the array of nodes and the `index` map, plus ghost fields: the
    view `Order` and `Contents`, and the live slots in list order `Slots`.
  - Each private helper of the source is a method that rewrites the
    array's pointers.
  - `Get` and `Put` are proved to change the view exactly as `LruSpec.Get`
    and `LruSpec.Put` do, and to keep `Valid()`.
  - `Snapshot` is the `debugPrint` walk, returning the (key, value) pairs
    it would print.
- `LruDemo` (`lru_demo.dfy`) replays the demonstration in `main` and
  proves every listing and every `get` answer it prints.

**The Bloom filter** (`bloom-filter/bloom_filter.cpp`) is a bit array of
`size` bits.
- `insert` sets the `k` positions `hash(item, i) % size`.
- `possiblyContains` answers false as soon as one of those bits is clear.
- Module `Bloom` (`bloom_filter.dfy`) takes `std::hash` of the salted item
  as a parameter `h(item, seed)` and reduces it modulo `size`, as the
  private `hash` does.
- Pure functions give the bits after an insertion (`Inserted`) and the
  query's answer (`MayContain`). The class `BloomFilter` is proved to follow
  them, and lemmas prove:
  - the exact effect of an insertion;
  - monotonicity, idempotence and commutativity of insertion;
  - the absence of false negatives.

Where the recency list has to be reasoned about, the cache's state is kept
in ghost fields alongside the concrete array and map. A stored value of
`-1` cannot be told apart from a miss (`LruSpec.MissIsAmbiguous`).

## Model

| member | source | states |
|---|---|---|
| LruSpec.Empty | lru-cache/lru_cache.cpp:54-59 | a new cache has the given capacity and an empty recency list, and satisfies the cache invariant for any capacity of at least 0 |
| LruSpec.Get | lru-cache/lru_cache.cpp:72-79 | `get` never changes the capacity or any stored value; its answer and new order are pinned by GetMiss, GetHit, GetTwice, MissIsAmbiguous and GetPreservesInv |
| LruSpec.Put | lru-cache/lru_cache.cpp:82-101 | `put` keeps the capacity, and afterwards the key is first in the list and holds the new value; the rest is pinned by PutExisting, PutFresh, PutEvicts and PutPreservesInv |
| LruSpec.Evict | lru-cache/lru_cache.cpp:90-96 | popping the tail and erasing its key keeps the capacity, leaves a prefix of the old list (one shorter when it was not empty) and only removes keys; pinned by EvictInv and PutEvicts |
| LruSpec.Promote | lru-cache/lru_cache.cpp:40-43 | no contract of its own: `moveToFront` on the recency order, specified by PromoteInv and EraseAt |
| LruSpec.Listing | lru-cache/lru_cache.cpp:104-113 | the listing has one pair per list entry, in recency order; pair i is the i-th most recent key with its stored value |
| LruSpec.EraseAt | lru-cache/lru_cache.cpp:26-29 | unlinking the entry at position p of a duplicate-free list leaves exactly the entries before and after it, in order |
| LruSpec.PromoteInv | lru-cache/lru_cache.cpp:40-43 | moving a listed key to the front keeps the list duplicate-free, keeps its length and keeps its set of keys |
| LruSpec.GetPreservesInv | lru-cache/lru_cache.cpp:72-79 | `get` keeps the list and the index in bijection, keeps count <= capacity and never changes the count |
| LruSpec.PutPreservesInv | lru-cache/lru_cache.cpp:82-101 | for a capacity of at least 1, `put` keeps the list and the index in bijection and keeps count <= capacity |
| LruSpec.EvictInv | lru-cache/lru_cache.cpp:90-96 | popping the tail of a non-empty list and erasing its key leaves a duplicate-free list whose keys are exactly the index's, one shorter |
| LruSpec.GetMiss | lru-cache/lru_cache.cpp:74-75 | `get` of an absent key answers -1 and changes neither the order nor the contents |
| LruSpec.GetHit | lru-cache/lru_cache.cpp:76-78 | `get` of a cached key answers its value, puts it first, keeps the relative order of the other keys, keeps every value, the count and the capacity |
| LruSpec.MissIsAmbiguous | lru-cache/lru_cache.cpp:71-79 | `get` answers -1 exactly when the key is absent or its stored value is -1 |
| LruSpec.GetTwice | lru-cache/lru_cache.cpp:72-79 | a second `get` of the same key answers the same and leaves the cache as the first left it |
| LruSpec.PutExisting | lru-cache/lru_cache.cpp:85-88 | `put` of a cached key replaces only that key's value, puts the key first, keeps the relative order of the others and the count |
| LruSpec.PutFresh | lru-cache/lru_cache.cpp:89-100 | `put` of a new key below capacity puts it in front of the unchanged list, adds exactly that value and grows the count by one |
| LruSpec.PutEvicts | lru-cache/lru_cache.cpp:90-99 | `put` of a new key on a full cache removes exactly the last key of the list from both list and index, puts the new key in front, and keeps the count |
| LruSpec.ZeroCapacityGrows | lru-cache/lru_cache.cpp:54-59 | with capacity 0 the fullness test pops nothing and inserts anyway, so two puts leave two keys cached |
| LruHistory.Apply | lru-cache/lru_cache.cpp:72-101 | one `get` or `put` call keeps the capacity; its effect on the order is ApplyKeepsOrder |
| LruHistory.Run | lru-cache/lru_cache.cpp:72-101 | a run of calls keeps the capacity; RunOrdered and EvictsLeastRecentlyUsed state what it does to the list |
| LruHistory.LastTouch | lru-cache/lru_cache.cpp:77-99 | the time a key was last named by `get` or `put` is -1 (never) or a position in the run; ByRecency and EvictsLeastRecentlyUsed order keys by it |
| LruHistory.ApplyKeepsOrder | lru-cache/lru_cache.cpp:72-101 | one more `get` or `put` keeps the list sorted by strictly decreasing time of last touch |
| LruHistory.RunOrdered | lru-cache/lru_cache.cpp:20-22 | every run of calls from a new cache of capacity at least 1 keeps the invariant, the capacity, and the list sorted newest-touched first |
| LruHistory.EvictsLeastRecentlyUsed | lru-cache/lru_cache.cpp:90-96 | after any run that fills the cache, `put` of a new key evicts the cached key whose last touch is older than every other cached key's, and the cached keys become the old ones minus it plus the new key |
| LruArena.Linked | lru-cache/lru_cache.cpp:21-22 | no contract of its own: the well-linked-list property (head.next chain meets the live nodes in order then the tail, prev mirrors it); set up by Lru.LruCache.constructor and kept by UnlinkLinked, LinkFrontLinked and WriteOutsideLinked |
| LruArena.Unlink | lru-cache/lru_cache.cpp:26-29 | no contract of its own: the value-level form of RemoveNode's two writes, specified by UnlinkLinked |
| LruArena.LinkFront | lru-cache/lru_cache.cpp:32-37 | no contract of its own: the value-level form of AddToFront's four writes, specified by LinkFrontLinked |
| LruArena.UnlinkLinked | lru-cache/lru_cache.cpp:26-29 | `removeNode` on a listed node leaves a well-linked list without it, touches no key or value and leaves the node's own links as they were |
| LruArena.LinkFrontLinked | lru-cache/lru_cache.cpp:32-37 | `addToFront` of an unlisted node leaves a well-linked list with it first, touching no key or value |
| LruArena.WriteOutsideLinked | lru-cache/lru_cache.cpp:97 | writing a new node into a slot that is not listed leaves the list well linked |
| LruArena.TailPrev | lru-cache/lru_cache.cpp:46-48 | the node before the dummy tail is the dummy head exactly when the list is empty, and otherwise is the last listed node |
| LruLayout.RepresentsCount | lru-cache/lru_cache.cpp:90 | under the invariant the list, the view and the index all have the same size, at most the capacity, so `cache.size()` is the count |
| LruLayout.KeyPosition | lru-cache/lru_cache.cpp:74-76 | a key the index finds sits at some position p of the list, and the node the index gives holds that key |
| LruLayout.PromoteStep | lru-cache/lru_cache.cpp:76-78 | moving the node at position p to the front keeps the invariant, gives the state `LruSpec.Get` promises, and that node holds the key's value |
| LruLayout.SetValueStep | lru-cache/lru_cache.cpp:87 | overwriting a listed node's value keeps the invariant, with the view's value for that key replaced |
| LruLayout.UpdateStep | lru-cache/lru_cache.cpp:85-88 | overwriting the value and moving the node to the front keeps the invariant and gives the state `LruSpec.Put` promises |
| LruLayout.EvictStep | lru-cache/lru_cache.cpp:90-96 | popping the last node of a full cache and erasing its key from the index keeps the list and index consistent, and frees that node's slot; the result is `LruSpec.Evict` |
| LruLayout.FreshStep | lru-cache/lru_cache.cpp:97 | below capacity, the first slot not yet used is free for the new node |
| LruLayout.InsertStep | lru-cache/lru_cache.cpp:97-99 | storing the new node in the free slot, indexing it and linking it in front restores the invariant with the key first |
| Lru.LruCache.constructor | lru-cache/lru_cache.cpp:54-59 | a new cache is valid, empty (`LruSpec.Empty`), and has head.next == tail and tail.prev == head |
| Lru.LruCache.SetValue | lru-cache/lru_cache.cpp:87 | writing `node->value` changes that node's value and nothing else, and the list stays well linked |
| Lru.LruCache.RemoveNode | lru-cache/lru_cache.cpp:26-29 | the node at position p is unlinked, the list stays well linked, no key or value changes, the node itself is untouched |
| Lru.LruCache.AddToFront | lru-cache/lru_cache.cpp:32-37 | the unlisted node becomes first in a well-linked list, with no key or value changed |
| Lru.LruCache.MoveToFront | lru-cache/lru_cache.cpp:40-43 | the node at position p moves to the front of a well-linked list, with no key or value changed |
| Lru.LruCache.PopTail | lru-cache/lru_cache.cpp:46-51 | an empty list returns Nil and changes nothing; otherwise returns the last listed node and leaves the rest well linked |
| Lru.LruCache.Get | lru-cache/lru_cache.cpp:72-79 | keeps the invariant; the answer and the new view are exactly `LruSpec.Get` of the old view |
| Lru.LruCache.Put | lru-cache/lru_cache.cpp:82-101 | keeps the invariant; the new view is exactly `LruSpec.Put` of the old view |
| Lru.LruCache.Update | lru-cache/lru_cache.cpp:85-88 | on a cached key, keeps the invariant and gives the new view `LruSpec.Put` promises |
| Lru.LruCache.EvictLru | lru-cache/lru_cache.cpp:90-96 | on a full cache, pops the least recently used node, erases its key, returns its slot free for reuse; the view becomes `LruSpec.Evict` of the old |
| Lru.LruCache.LinkNew | lru-cache/lru_cache.cpp:97-99 | the new key with its value is indexed and linked first; the invariant is restored |
| Lru.LruCache.Snapshot | lru-cache/lru_cache.cpp:104-113 | the walk from head.next to the tail returns exactly `LruSpec.Listing` of the view, most recent first |
| LruDemo.FirstTwoPuts | lru-cache/lru_cache.cpp:118-122 | after put(1,10), put(2,20) on capacity 2 the listing is [2:20] [1:10] |
| LruDemo.GetOnePromotes | lru-cache/lru_cache.cpp:124-125 | get(1) then answers 10 and the listing becomes [1:10] [2:20] |
| LruDemo.PutThreeEvictsTwo | lru-cache/lru_cache.cpp:127-130 | put(3,30) evicts key 2, the listing is [3:30] [1:10], and get(2) answers -1 without change |
| LruDemo.PutFourEvictsOne | lru-cache/lru_cache.cpp:132-133 | put(4,40) evicts key 1 and the listing is [4:40] [3:30] |
| LruDemo.LastGets | lru-cache/lru_cache.cpp:135-137 | get(1) answers -1, get(3) answers 30 and get(4) answers 40 |
| LruDemo.FillAndTouch | lru-cache/lru_cache.cpp:118-125 | the class run of the first half of the demonstration prints the listings and answer above |
| LruDemo.EvictTwice | lru-cache/lru_cache.cpp:127-133 | the class run of the middle of the demonstration prints the listings and answer above |
| LruDemo.Demo | lru-cache/lru_cache.cpp:117-140 | the whole demonstration on the class yields the listings [2:20][1:10], [1:10][2:20], [3:30][1:10], [4:40][3:30] and the answers 10, -1, -1, 30, 40 |
| Bloom.Probe | bloom-filter/bloom_filter.cpp:14-17 | every probe position lies in [0, size) |
| Bloom.Cleared | bloom-filter/bloom_filter.cpp:21 | exactly m bits, all false |
| Bloom.SetProbes | bloom-filter/bloom_filter.cpp:26-29 | the loop never changes the number of bits; which bits it sets is SetProbesBits |
| Bloom.MayContain | bloom-filter/bloom_filter.cpp:33-39 | no contract of its own: every probed bit is set; Bloom.BloomFilter.PossiblyContains is proved equal to it, and InsertThenContains, NoFalseNegatives and DefinitelyAbsent state its guarantees |
| Bloom.InsertAll | bloom-filter/bloom_filter.cpp:47-49 | a run of insertions keeps the number of bits; InsertAllGrows and InsertedAreContained state its effect |
| Bloom.Inserted | bloom-filter/bloom_filter.cpp:25-30 | insertion never changes the number of bits |
| Bloom.SetProbesBits | bloom-filter/bloom_filter.cpp:26-29 | after n rounds of the insert loop, bit j is set iff it was set before or j is one of the first n probes |
| Bloom.InsertedBits | bloom-filter/bloom_filter.cpp:25-30 | `insert(x)` sets every position hash(x, i) for 0 <= i < k and leaves every other bit as it was |
| Bloom.InsertMonotone | bloom-filter/bloom_filter.cpp:28 | `insert` never clears a bit |
| Bloom.InsertIdempotent | bloom-filter/bloom_filter.cpp:25-30 | inserting the same item twice gives the same bits as inserting it once |
| Bloom.InsertCommutes | bloom-filter/bloom_filter.cpp:25-30 | the order of two insertions does not change the bits |
| Bloom.MayContainCovered | bloom-filter/bloom_filter.cpp:33-39 | a positive answer stays positive when more bits are set |
| Bloom.InsertThenContains | bloom-filter/bloom_filter.cpp:25-39 | right after `insert(x)`, `possiblyContains(x)` answers true |
| Bloom.InsertAllGrows | bloom-filter/bloom_filter.cpp:25-30 | any sequence of insertions only sets bits |
| Bloom.NoFalseNegatives | bloom-filter/bloom_filter.cpp:36 | after `insert(x)`, `possiblyContains(x)` answers true whatever is inserted later |
| Bloom.InsertedAreContained | bloom-filter/bloom_filter.cpp:25-39 | after a run of insertions every inserted item is reported possibly present |
| Bloom.DefinitelyAbsent | bloom-filter/bloom_filter.cpp:36 | a false answer from a filter that started empty means the item was never inserted |
| Bloom.BloomFilter.constructor | bloom-filter/bloom_filter.cpp:20-22 | a new filter has exactly m bits, all false, and keeps m and k |
| Bloom.BloomFilter.Insert | bloom-filter/bloom_filter.cpp:25-30 | the loop leaves exactly the bits of `Inserted` of the old bits |
| Bloom.BloomFilter.PossiblyContains | bloom-filter/bloom_filter.cpp:33-39 | answers false iff some probed bit hash(x, i), i < k, is clear, changing nothing |
| Bloom.Demo | bloom-filter/bloom_filter.cpp:42-57 | with 20 bits, 3 probes and apple, banana, cherry inserted, apple and banana are reported present; mango's answer is the query on those bits |

## Left out

- Locking: `std::mutex` and `std::lock_guard` are not modelled; each public method is one atomic step.
- Console output: `debugPrint` returns the pairs it would print (`Snapshot`), and both `main` functions return what they would print instead of writing it.
- Memory management: `new`/`delete` of nodes and the destructor's loop are not modelled. Nodes live in an arena of capacity + 2 slots. A new node takes the next unused slot, or the slot of the node just evicted, which `delete lru` would have freed.
- Pointers are slot numbers, so the model does not cover the aliasing of arbitrary heap nodes.
- `std::hash<string>` and the `to_string` salting are foreign library code. They are an arbitrary function `h(item, seed)` passed in as a parameter.
- Integer widths: keys, values, capacity and probe positions are mathematical integers. The `size_t` to `int` conversions are not modelled.
- Lru.LruCache.constructor: requires a capacity of at least 1, which the source does not. For capacity 0 the source lets the count grow past the capacity; this is shown on the abstract model by `LruSpec.ZeroCapacityGrows`, not on the class. Negative capacities are not modelled on the class; `LruSpec.Put` accepts any capacity and, like the source, never evicts when it is negative.
- Bloom.BloomFilter.constructor: requires m >= 0. A negative m makes `vector::resize` fail in the source.
- Bloom.BloomFilter.Insert: requires size > 0 whenever k > 0, because `% size` with size 0 has no defined result in the source.
- Bloom.BloomFilter.PossiblyContains: requires size > 0 whenever k > 0, for the same reason.
- Bloom.Demo: mango's answer depends on the hash. It is stated as the query on the resulting bits, not as a fixed value.
