# Mini-mySTL containers in Dafny

A verified model of the Mini-mySTL container library. The library is a
small C++ collection of class templates:

- `MyHashMap`: a chained hash table keyed through the djb2 string hash;
- `MyHashSet`: a set layered on `MyHashMap<T, bool>`;
- `MyMap`: an unbalanced binary search tree;
- `MySet`: an ordered set layered on `MyMap`;
- `MyVector`: a growable array with an in-place heap sort;
- `MyPQueue`: a priority queue kept as a 1-based binary min-heap.

Each container is a Dafny `class` whose fields the methods update in
place. Each method is proved against the abstract state the container
stands for:

| container | abstract state |
|---|---|
| hash map | the bucket layout (`Layout()`), and the key-to-value lookup it defines |
| hash set, tree set | the set of elements |
| tree map | the map of pairs |
| vector | the sequence of elements |
| priority queue | the multiset of (value, priority) cells |

The pure parts of the library are functions with lemmas about them:

- the hash, as a fold equal to its loop;
- the table layout operations `Insert`, `Put`/`Rehash`, `Remove` and `Vivify`;
- the search-tree operations `Find`, `Insert`, `RemoveKey` and the traversals.

Files:

| file | module | what it holds |
|---|---|---|
| `wrappers.dfy` | `Wrappers` | `Option`, `Result`, `Outcome` and the `OutOfRange` error, for what the C++ code throws as `std::out_of_range` |
| `seqfacts.dfy` | `SeqFacts` | small facts about slices, used by the array algorithms |
| `hashcode.dfy` | `HashCode` | `myhashCode` (djb2) on bytes |
| `hashtable.dfy` | `HashTable` | the chained table as a sequence of chains, and what `put`, `rehashing`, `remove`, `operator[]`, `keys` and `values` do to it |
| `hashmap.dfy` | `HashMap` | class `MyHashMap` over an `array` of chains |
| `hashset.dfy` | `HashSet` | class `MyHashSet` |
| `treemap.dfy` | `TreeMap` | the search tree as a datatype, and class `MyMap` holding one |
| `treeset.dfy` | `TreeSet` | class `MySet` |
| `vector.dfy` | `Vector` | class `MyVector` over an `array<int>`, with `heapSort` and `down` in place |
| `pqueue.dfy` | `PQueue` | class `MyPQueue` over an `array` of cells, with `up` and `down` in place |

Rendering a key to the string that `hashCode` hashes is a parameter:
`render: K -> seq<byte>`, given when a map or hash set is built. The
`ValueType()` default, which the maps return for a missing key, is the
`defaultValue` parameter.

## Model

| member | source | states |
|---|---|---|
| HashCode.CharValue | hashmap/myhashcode.cpp:27 | A `char` adds its signed value: -128..127, equal to the byte modulo 256, and negative exactly for bytes from 128 up. |
| HashCode.HashLoop | hashmap/myhashcode.cpp:23-31 | The loop returns `MyHashCode(str)`. That is the fold seeded with 5381 that multiplies by 33, adds each char modulo 2^32, and ends with `% 0x7FFFFFFF`. The result lies in `0..0x7FFFFFFE`. |
| HashCode.EmptyHashesToSeed | hashmap/myhashcode.cpp:17-31 | The empty string hashes to the seed 5381, and the mask `unsigned(-1) >> 1` is 0x7FFFFFFF. |
| HashCode.AccSnoc | hashmap/myhashcode.cpp:24-28 | Appending one char takes exactly one step of the fold: `acc(s + [c]) = (33 * acc(s) + c) mod 2^32`. |
| HashCode.SingleLetterCodes | hashmap/myhashcode.cpp:23-31 | "a", "b" and "c" hash to 177670, 177671 and 177672. |
| HashTable.Bucket | hashmap/myhashmap.h:293 | `hashCode(key) % nBuckets` is a valid bucket index. |
| HashTable.Find | hashmap/myhashmap.h:482-489 | `findCell` yields the first position in the chain holding the key, or nothing when no cell holds it. |
| HashTable.EmptyWellFormed | hashmap/myhashmap.h:260-267 | A table of empty chains keeps the table invariant, maps no key and holds no cell. |
| HashTable.TraversalFindsLookup | hashmap/myhashmap.h:316-324 | In a well-formed table the bucket-by-bucket traversal lists every key once. Searching it finds what `get` finds. |
| HashTable.InsertLookup | hashmap/myhashmap.h:336-346 | After the insertion half of `put`, the key maps to the new value and every other key keeps its lookup. |
| HashTable.InsertCount | hashmap/myhashmap.h:336-346 | The insertion half of `put` adds one cell exactly when the key was absent. |
| HashTable.InsertWellFormed | hashmap/myhashmap.h:336-346 | The insertion keeps every cell in its hash bucket and every key unique. |
| HashTable.InsertAtHead | hashmap/myhashmap.h:339-344 | A new key is pushed at the head of its bucket's chain, and no other bucket changes. |
| HashTable.InsertOrderMatters | hashmap/myhashmap.h:419-435 | Two keys of one bucket inserted in opposite orders give the same lookups but different layouts. So `equals` is layout-sensitive, not a comparison of mappings. |
| HashTable.PutSpec | hashmap/myhashmap.h:336-351 | A top-level `put` keeps the invariant and maps the key to the value. Other keys keep their lookups. The size grows by one exactly for a new key. Afterwards the load factor is at most 0.7, the bucket count is the old one doubled zero or more times, and the key set gains the key. |
| HashTable.PutKeepsMapping | hashmap/myhashmap.h:336-351 | `put` under any nesting of rehashes keeps the invariant and changes only the key's lookup. |
| HashTable.PutCount | hashmap/myhashmap.h:336-351 | `put` under any nesting of rehashes adds a cell exactly for a new key. |
| HashTable.PutLoadBound | hashmap/myhashmap.h:348-350 | After `put` the table is never above the 0.7 load factor. |
| HashTable.RehashKeepsMapping | hashmap/myhashmap.h:503-525 | `rehashing` keeps the invariant and every key's lookup. |
| HashTable.RehashCount | hashmap/myhashmap.h:503-525 | `rehashing` keeps the number of entries. |
| HashTable.RehashLoadBound | hashmap/myhashmap.h:503-525 | After `rehashing` the table is not above the load factor. |
| HashTable.RehashBuckets | hashmap/myhashmap.h:507-508 | `rehashing` leaves at least twice the buckets: the old count doubled one or more times. |
| HashTable.RehashDoublesOnce | hashmap/myhashmap.h:507-508 | When the entries are at most 1.4 times the buckets, `rehashing` doubles the bucket count exactly once. A table filled only by `put` meets that bound. The mutable `operator[]` does not, since it never checks the load (see `VivifyCanOverload`), so a later `put` can double several times. |
| HashTable.PutAllKeepsMapping | hashmap/myhashmap.h:515-523 | Re-putting cells with distinct keys keeps the invariant and maps each re-put key to its cell's value. |
| HashTable.PutAllCount | hashmap/myhashmap.h:515-523 | Re-putting distinct absent keys adds one cell each. |
| HashTable.PutAllWithinLoad | hashmap/myhashmap.h:515-523 | Re-putting cells that stay within the load factor never triggers a nested rehash, so the bucket count stays put. |
| HashTable.RemoveSpec | hashmap/myhashmap.h:363-380 | `remove` keeps the invariant and removes exactly the key. A size drop happens only when the key was present, and an absent key leaves the table untouched. |
| HashTable.VivifySpec | hashmap/myhashmap.h:586-600 | The mutable `operator[]` gives a missing key the default value at the head of its chain. It keeps a present key's value and every other lookup, and grows the size only for a new key. |
| HashTable.VivifyCanOverload | hashmap/myhashmap.h:586-600 | The mutable `operator[]` does not check the load factor, so it can leave the table above 0.7. |
| HashTable.KeysSnapshot | hashmap/myhashmap.h:304-313 | The traversal's keys are exactly the keys with a mapping, without repeats, and there are as many as there are cells. |
| HashTable.TraversalPairs | hashmap/myhashmap.h:460-469 | Each pair of the traversal is a mapping of the table. |
| HashMap.EmptyBuckets | hashmap/myhashmap.h:263-266 | A fresh bucket array whose chains are all empty. |
| HashMap.CopyChains | hashmap/myhashmap.h:550-575 | `deepCopy` builds a fresh array with the same chains in the same order. It appends through a tail pointer, not by re-putting. |
| HashMap.MyHashMap.constructor | hashmap/myhashmap.h:260-267 | An empty, well-formed table of 10 buckets in which no key is present. |
| HashMap.MyHashMap.Copy | hashmap/myhashmap.h:528-530 | The copy constructor: the same layout and size in a fresh bucket array. |
| HashMap.MyHashMap.BucketOf | hashmap/myhashmap.h:293 | The bucket of a key in the current table. |
| HashMap.MyHashMap.FindCell | hashmap/myhashmap.h:482-489 | The chain walk returns the position `Find` names. |
| HashMap.MyHashMap.Get | hashmap/myhashmap.h:292-296 | `get` returns the key's value when present and the default otherwise. It does not modify the table. The const `operator[]` at lines 609-621 behaves the same. |
| HashMap.MyHashMap.ContainsKey | hashmap/myhashmap.h:412-416 | True exactly when the key is in the table. |
| HashMap.MyHashMap.Size | hashmap/myhashmap.h:384-386 | The number of distinct keys. |
| HashMap.MyHashMap.IsEmpty | hashmap/myhashmap.h:299-301 | True exactly when no key is present. |
| HashMap.MyHashMap.Put | hashmap/myhashmap.h:336-351 | The new layout is `HashTable.Put` of the old one. The key maps to the value, and other keys keep their values. The size grows by one exactly for a new key. The load factor ends at most 0.7, the bucket count is doubled zero or more times, and the key set gains the key. |
| HashMap.MyHashMap.PutWithin | hashmap/myhashmap.h:336-351 | `put` as re-entered from `rehashing`, proved against `HashTable.Put` for a given bound on the cells. |
| HashMap.MyHashMap.Rehashing | hashmap/myhashmap.h:503-525 | A fresh array of twice the buckets into which every old cell is put again. The result is `HashTable.Rehash` of the old layout. |
| HashMap.MyHashMap.PutChain | hashmap/myhashmap.h:512-524 | The inner loop of `rehashing` re-puts the cells of one old chain head to tail. |
| HashMap.MyHashMap.PutCell | hashmap/myhashmap.h:517-522 | One pass of that loop puts one more cell of the chain. |
| HashMap.MyHashMap.Remove | hashmap/myhashmap.h:363-380 | The new layout is `HashTable.Remove` of the old one. The key is absent, and the other keys and the bucket array are unchanged. The size drops by one only when the key was present, and the key set loses the key. |
| HashMap.MyHashMap.Clear | hashmap/myhashmap.h:397-409 | Every chain is empty and the size is 0. The bucket array and its length are kept. |
| HashMap.MyHashMap.Equals | hashmap/myhashmap.h:419-435 | True exactly when the two layouts are equal: the same bucket count and, bucket by bucket, the same cells in the same order. `operator==` at lines 624-626 is the same test. |
| HashMap.MyHashMap.SequentialTraversal | hashmap/myhashmap.h:316-324 | Every cell, bucket by bucket and head to tail. Searching the result finds each key's value. |
| HashMap.MyHashMap.Keys | hashmap/myhashmap.h:304-313 | The traversal's keys: each present key exactly once, `size()` of them. |
| HashMap.MyHashMap.Values | hashmap/myhashmap.h:460-469 | The traversal's values. Position by position, each is the value of the key `keys()` puts there. |
| HashMap.MyHashMap.Index | hashmap/myhashmap.h:586-600 | The mutable `operator[]` returns the key's value, inserting the default for a missing key. Other keys keep their values, the size grows only for a new key, and the bucket array is kept without any rehash. |
| HashMap.MyHashMap.IndexAssign | hashmap/myhashmap.h:586-600 | `map[key] = value`: the key maps to the value, other keys keep theirs, and no rehash happens. |
| HashMap.MyHashMap.Assign | hashmap/myhashmap.h:533-544 | `operator=`: this map takes the source's layout and size. A distinct source gets a fresh bucket array, and a self-assignment is a no-op. |
| HashSet.MyHashSet.constructor | hashset/myhashset.h:297-299 | An empty set whose map is the empty layout of 10 buckets. |
| HashSet.MyHashSet.Copy | hashset/myhashset.h:432-437 | The implicit copy of a set deep-copies its map: the same layout, so the same elements in the same traversal order. |
| HashSet.MyHashSet.Size | hashset/myhashset.h:313-315 | The number of elements. |
| HashSet.MyHashSet.IsEmpty | hashset/myhashset.h:318-320 | True exactly when there are no elements. |
| HashSet.MyHashSet.Add | hashset/myhashset.h:323-325 | The map's layout becomes `HashTable.Put` of the old one with the value as key, so the elements gain the value. |
| HashSet.MyHashSet.Remove | hashset/myhashset.h:328-330 | The map's layout becomes `HashTable.Remove` of the old one, so the elements lose the value. The bucket array is kept. |
| HashSet.MyHashSet.Contains | hashset/myhashset.h:333-335 | True exactly when the value is an element. |
| HashSet.MyHashSet.Clear | hashset/myhashset.h:360-362 | Every bucket is emptied and the bucket count is kept, so no elements remain. |
| HashSet.MyHashSet.IsSubsetOf | hashset/myhashset.h:371-379 | True exactly when every element is in `set2`. |
| HashSet.MyHashSet.IsSupersetOf | hashset/myhashset.h:382-384 | True exactly when every element of `set2` is in this set. |
| HashSet.MyHashSet.Equals | hashset/myhashset.h:402-404 | `==` and `equals` (the latter at lines 343-345) mean mutual subset, so they hold exactly for equal contents whatever the two maps' layouts. |
| HashSet.MyHashSet.First | hashset/myhashset.h:348-352 | `OutOfRange` on an empty set. Otherwise the first key of the map's bucket-order traversal, which is an element. This is not the sorted order the header's comment promises; see `BucketOrderSample`. |
| HashSet.MyHashSet.Last | hashset/myhashset.h:387-391 | `OutOfRange` on an empty set. Otherwise the last key of that traversal. |
| HashSet.BucketOrderSample | hashset/myhashset.h:348-352 | With keys rendered in decimal, a fresh set after `add(1)` and `add(9)` has `first()` 9 and `last()` 1 (lines 387-391): "9" hashes to bucket 0 and "1" to bucket 2 of ten. So `first`/`last` follow the buckets, not the sorted order the header's comments at lines 115 and 159 describe. |
| HashSet.MyHashSet.Minus | hashset/myhashset.h:465-476 | A fresh set holding the elements of this set that `set2` lacks. Neither operand changes. |
| HashSet.MyHashSet.Times | hashset/myhashset.h:446-456 | A fresh set holding the elements common to both sets. Neither operand changes. |
| HashSet.MyHashSet.Plus | hashset/myhashset.h:418-428 | A fresh set holding the elements of either set, built as a copy of this set plus `set2 - this`. |
| HashSet.MyHashSet.AddEach | hashset/myhashset.h:423-425 | The loop of `+` adds every listed value. |
| HashSet.MyHashSet.PlusValue | hashset/myhashset.h:432-437 | A fresh copy with the value put into its map: the layout is `HashTable.Put` of this set's layout, and the elements gain the value. |
| HashSet.MyHashSet.MinusValue | hashset/myhashset.h:479-483 | A fresh copy with the value removed: the layout is `HashTable.Remove` of this set's layout, and the elements lose the value. |
| HashSet.MyHashSet.UnionWith | hashset/myhashset.h:492-495 | `+=` (and `unionWith`, at lines 531-533) replaces the elements by the union with `set2`'s. |
| HashSet.MyHashSet.AddValue | hashset/myhashset.h:499-502 | `+= value` adds the value and leaves the layout `HashTable.Put` makes. |
| HashSet.MyHashSet.Intersect | hashset/myhashset.h:505-508 | `*=` (and `intersect`, at lines 355-357) keeps the common elements. |
| HashSet.MyHashSet.Difference | hashset/myhashset.h:511-515 | `-=` (and `difference`, at lines 338-340) drops `set2`'s elements. |
| HashSet.MyHashSet.RemoveValue | hashset/myhashset.h:518-521 | `-= value` removes the value and leaves the layout `HashTable.Remove` makes. |
| TreeMap.CountItems | map/mymap.h:337-347 | A search tree holds a distinct key in every node: its pair count is its node count. |
| TreeMap.Find | map/mymap.h:571-586 | `isExist` (like `findTreeNode`, at lines 552-568) finds exactly the keys of a search tree, with their values. |
| TreeMap.Insert | map/mymap.h:338-347 | `put` keeps the search-tree order and maps the key to the value, adding a node only for a new key. |
| TreeMap.RightMost | map/mymap.h:524-531 | The largest key of a non-empty search tree, with its value. |
| TreeMap.LeftMost | map/mymap.h:534-541 | The smallest key of a non-empty search tree, with its value. |
| TreeMap.RemoveKey | map/mymap.h:363-392 | `remove` keeps the search-tree order and drops exactly the key, removing a node only when the key was present. A node with a left child takes its in-order predecessor, and one with only a right child takes its successor. |
| TreeMap.RemoveRightMost | map/mymap.h:374-380 | Promoting the predecessor keeps the order and drops only the removed key. |
| TreeMap.RemoveLeftMost | map/mymap.h:383-389 | Promoting the successor keeps the order and drops only the removed key. |
| TreeMap.InOrder | map/mymap.h:496-505 | The in-order traversal lists one pair per node. |
| TreeMap.InOrderSorted | map/mymap.h:496-505 | The in-order traversal of a search tree lists exactly its pairs, with strictly ascending keys. |
| TreeMap.AscendingListingUnique | map/mymap.h:496-505 | Two ascending listings of the same pairs are the same sequence. |
| TreeMap.InOrderDetermines | map/mymap.h:293-306 | Two search trees have equal in-order traversals exactly when they hold the same pairs, whatever their shapes. |
| TreeMap.PreOrder | map/mymap.h:485-491 | `deepCopyRec` visits the node, then the left subtree, then the right one, one pair per node. |
| TreeMap.CopyReproduces | map/mymap.h:485-491 | Putting a search tree's pairs in pre-order into an empty tree rebuilds exactly that tree. |
| TreeMap.MyMap.constructor | map/mymap.h:264-267 | An empty tree and size 0. |
| TreeMap.MyMap.Copy | map/mymap.h:462-466 | The copy constructor rebuilds the same tree and size. |
| TreeMap.MyMap.Clear | map/mymap.h:280-283 | An empty tree and size 0. |
| TreeMap.MyMap.DeleteTree | map/mymap.h:510-520 | The post-order walk subtracts one from the size for each node of the subtree. |
| TreeMap.MyMap.ContainsKey | map/mymap.h:286-289 | True exactly when the key is present. |
| TreeMap.MyMap.Get | map/mymap.h:309-312 | `get` returns the stored value, or the default for a missing key, without modifying the map. The const `operator[]` at lines 451-458 behaves the same. |
| TreeMap.MyMap.IsEmpty | map/mymap.h:315-317 | True exactly when there are no pairs. |
| TreeMap.MyMap.Size | map/mymap.h:395-397 | The number of pairs. |
| TreeMap.MyMap.Put | map/mymap.h:338-347 | The tree becomes `Insert` of the old one. The pairs gain `key := value`, and the size grows only for a new key. |
| TreeMap.MyMap.Remove | map/mymap.h:363-392 | The tree becomes `RemoveKey` of the old one. The pairs lose the key, and the size drops only when it was present. |
| TreeMap.MyMap.Index | map/mymap.h:438-448 | The mutable `operator[]` returns the stored value. A missing key is first put with the default value, growing the size by one. |
| TreeMap.MyMap.IndexAssign | map/mymap.h:438-448 | `map[key] = value`: the pairs gain `key := value`. |
| TreeMap.MyMap.Keys | map/mymap.h:320-329 | The keys of the in-order traversal: strictly ascending, one per pair, exactly the present keys. |
| TreeMap.MyMap.Values | map/mymap.h:415-424 | The values of the in-order traversal, each the value of the key at the same position of `keys()`. |
| TreeMap.MyMap.Equals | map/mymap.h:293-306 | True exactly when the in-order traversals agree, which is exactly when the maps hold the same pairs. |
| TreeMap.MyMap.DeepCopyRec | map/mymap.h:485-491 | The tree becomes the old one with the pairs of `t` put in pre-order. |
| TreeMap.MyMap.Assign | map/mymap.h:469-475 | `operator=`: unless it is a self-assignment, clear and re-put the source. The result is the source's tree and size. |
| TreeSet.MySet.constructor | set/myset.h:297-299 | An empty set. |
| TreeSet.MySet.Copy | set/myset.h:432-437 | The implicit copy of a set deep-copies its map and holds the same elements. |
| TreeSet.MySet.Size | set/myset.h:313-315 | The number of elements. |
| TreeSet.MySet.IsEmpty | set/myset.h:318-320 | True exactly when there are no elements. |
| TreeSet.MySet.Add | set/myset.h:323-325 | The elements gain the value. |
| TreeSet.MySet.Remove | set/myset.h:328-330 | The elements lose the value. |
| TreeSet.MySet.Contains | set/myset.h:333-335 | True exactly when the value is an element. |
| TreeSet.MySet.Clear | set/myset.h:360-362 | No elements remain. |
| TreeSet.MySet.IsSubsetOf | set/myset.h:371-379 | True exactly when every element is in `set2`. |
| TreeSet.MySet.IsSupersetOf | set/myset.h:382-384 | True exactly when every element of `set2` is in this set. |
| TreeSet.MySet.Equals | set/myset.h:402-404 | `==` and `equals` (the latter at lines 343-345) mean mutual subset: equal contents. |
| TreeSet.MySet.First | set/myset.h:348-352 | `OutOfRange` on an empty set. Otherwise the smallest element, since `keys()` ascends. |
| TreeSet.MySet.Last | set/myset.h:387-391 | `OutOfRange` on an empty set. Otherwise the largest element. |
| TreeSet.MySet.Minus | set/myset.h:465-476 | A fresh set holding the elements of this set that `set2` lacks. Neither operand changes. |
| TreeSet.MySet.Times | set/myset.h:446-456 | A fresh set holding the common elements. Neither operand changes. |
| TreeSet.MySet.Plus | set/myset.h:418-428 | A fresh set holding the elements of either set. |
| TreeSet.MySet.PlusValue | set/myset.h:432-437 | A fresh copy with the value added. |
| TreeSet.MySet.MinusValue | set/myset.h:479-483 | A fresh copy with the value removed. |
| TreeSet.MySet.UnionWith | set/myset.h:492-495 | `+=` (and `unionWith`, at lines 531-533) replaces the elements by the union. |
| TreeSet.MySet.AddValue | set/myset.h:499-502 | `+= value` adds the value. |
| TreeSet.MySet.Intersect | set/myset.h:505-508 | `*=` (and `intersect`, at lines 355-357) keeps the common elements. |
| TreeSet.MySet.Difference | set/myset.h:511-515 | `-=` (and `difference`, at lines 338-340) drops `set2`'s elements. |
| TreeSet.MySet.RemoveValue | set/myset.h:518-521 | `-= value` removes the value. |
| Vector.DoubledCapacity | vector/myvector.h:435 | Doubling grows every positive capacity but leaves 0 at 0. |
| Vector.ZeroCapacityInsertHasNoSlot | vector/myvector.h:345-351 | `MyVector(0, v)` (lines 218-225) followed by `add`: `insert` finds the vector full and expands it as written, to capacity 0, and the slot it then writes is outside the array. |
| Vector.GrownCapacity | vector/myvector.h:432-441 | The corrected growth: always larger than the old capacity, and equal to doubling for a positive one. |
| Vector.CopyOf | vector/myvector.h:417-424 | The copy loop of `deepCopy` and `expandCapacity`: a fresh array of the new capacity that starts with the first `count` elements. |
| Vector.ShiftUp | vector/myvector.h:348-350 | The loop of `insert` moves slots `index..count-1` up by one and leaves the slots before `index` alone. |
| Vector.ShiftDown | vector/myvector.h:359-361 | The loop of `remove` moves slots `index+1..count-1` down by one and leaves the slots before `index` alone. |
| Vector.RootIsMax | vector/myvector.h:257-269 | The first node of a max-heap holds its largest element. |
| Vector.Down | vector/myvector.h:272-282 | `down` restores the max-heap order below `u`. It permutes the array and leaves the slots outside `u..size` alone. |
| Vector.HeapSort | vector/myvector.h:257-269 | `heapSort` sorts the 1-based slots `1..n` ascending as a permutation of the array, touching no other slot. |
| Vector.ExtractStep | vector/myvector.h:262-268 | One round of the extraction loop moves the heap's maximum to the front of the sorted tail and keeps a heap of one less. |
| Vector.MyVector.constructor | vector/myvector.h:211-215 | An empty vector of capacity 10. |
| Vector.MyVector.Filled | vector/myvector.h:218-225 | `n` copies of `value`, with capacity exactly `n`. |
| Vector.MyVector.Copy | vector/myvector.h:395-397 | The copy constructor: the same elements and capacity in a fresh array. |
| Vector.MyVector.Size | vector/myvector.h:239-241 | The number of elements. |
| Vector.MyVector.IsEmpty | vector/myvector.h:300-302 | True exactly when there are no elements. |
| Vector.MyVector.Clear | vector/myvector.h:305-307 | No elements remain, and the storage is kept. |
| Vector.MyVector.Equals | vector/myvector.h:310-316 | True exactly when the element sequences are equal. |
| Vector.MyVector.Get | vector/myvector.h:326-329 | `OutOfRange` unless `0 <= index < count`. Otherwise the element at `index`. Reading through either `operator[]` (lines 378-387) behaves the same. |
| Vector.MyVector.Set | vector/myvector.h:332-336 | `OutOfRange`, with nothing changed, unless `0 <= index < count`. Otherwise only that element becomes `value`. |
| Vector.MyVector.DoubleCapacity | vector/myvector.h:432-441 | `expandCapacity` as written: a fresh array of exactly twice the capacity, holding the same elements. |
| Vector.MyVector.ExpandCapacity | vector/myvector.h:432-441 | The corrected `expandCapacity`: a fresh array of `GrownCapacity` slots, twice the old capacity when positive and 1 for 0, holding the same elements. |
| Vector.MyVector.Insert | vector/myvector.h:345-353 | `OutOfRange`, with nothing changed, unless `0 <= index <= count`. Otherwise the elements become `old[..index] + [value] + old[index..]`. |
| Vector.MyVector.Remove | vector/myvector.h:357-363 | `OutOfRange`, with nothing changed, unless `0 <= index < count`. Otherwise the elements become `old[..index] + old[index+1..]`. |
| Vector.MyVector.Add | vector/myvector.h:366-368 | The value is appended. |
| Vector.MyVector.DeepCopy | vector/myvector.h:417-424 | The source's capacity and elements in a fresh array. |
| Vector.MyVector.Assign | vector/myvector.h:400-406 | `operator=`: the source's elements, deep-copied unless it is a self-assignment. |
| Vector.MyVector.SortAfterSentinel | vector/myvector.h:257-269 | `heapSort` sorts every element after slot 0 as a permutation and keeps slot 0. |
| Vector.MyVector.Sort | vector/myvector.h:249-254 | The elements end ascending, as a permutation of the old ones. An empty vector is left untouched. |
| PQueue.RootIsMin | mypqueue/mypqueue.h:169-176 | The first node of a min-heap has the least priority. |
| PQueue.RootIsMinOfContents | mypqueue/mypqueue.h:169-176 | The first node has the least priority of all the queue's cells. |
| PQueue.MyPQueue.constructor | mypqueue/mypqueue.h:125-129 | An empty queue of capacity 10. |
| PQueue.MyPQueue.Copy | mypqueue/mypqueue.h:180-182 | The copy constructor: the same capacity, size and cells in a fresh array. |
| PQueue.MyPQueue.Clear | mypqueue/mypqueue.h:138-140 | No cells remain, and the storage is kept. |
| PQueue.MyPQueue.IsEmpty | mypqueue/mypqueue.h:156-158 | True exactly when the queue holds no cell. |
| PQueue.MyPQueue.ExpandCapacity | mypqueue/mypqueue.h:243-252 | A fresh array of twice the capacity with slots `1..entries` copied over. |
| PQueue.MyPQueue.Enqueue | mypqueue/mypqueue.h:149-153 | The cells gain exactly `(value, priority)`. The heap order and `entries < capacity` hold after it, because a full array is expanded first. |
| PQueue.MyPQueue.Append | mypqueue/mypqueue.h:151-152 | The new cell goes into slot `entries + 1` and is sifted up, adding exactly that cell. |
| PQueue.MyPQueue.Dequeue | mypqueue/mypqueue.h:169-176 | `OutOfRange`, with nothing changed, on an empty queue. Otherwise it returns the value of the first cell, which has the least priority. Exactly that cell is removed and the heap order is restored. |
| PQueue.MyPQueue.Down | mypqueue/mypqueue.h:211-222 | `down` restores the min-heap order when only node `u` may be above its children. It permutes the array and leaves the slots outside `u..entries` alone. |
| PQueue.MyPQueue.Up | mypqueue/mypqueue.h:231-240 | `up` restores the min-heap order when only node `u` may be below its parent. It permutes the array and leaves the slots outside `1..u` alone. |
| PQueue.MyPQueue.Assign | mypqueue/mypqueue.h:185-191 | `operator=`: the source's size and cells, deep-copied unless it is a self-assignment. |
| PQueue.CopyCells | mypqueue/mypqueue.h:194-201 | The copy loop of `deepCopy` and `expandCapacity`: slots `1..n` into a fresh array. |
| PQueue.SampleOrder | mypqueue/main.cpp:9-18 | Enqueueing A 1604, B 2708, C 1861, D 3169 and E 2193, then dequeueing until empty, yields A, C, E, B, D. |
| PQueue.Drain | mypqueue/main.cpp:16-18 | Dequeueing until empty yields the values in priority order when the priorities are distinct. |
| PQueue.LeastIsNext | mypqueue/mypqueue.h:169-176 | With distinct priorities, the least cell left is the next one of the sorted listing. |

## Left out

- The `hashCode<T>` template renders a key through `std::ostringstream`. It is the `render` parameter here. The byte-level hash is modelled as on an x86-64 target, where `char` is signed.
- The 0.7 `double` load factor is the integer test `10 * entries > 7 * nBuckets`, which is the same comparison without floating point.
- `get` returning the literal `""` and `operator[]` returning `ValueType()` are both the map's `defaultValue`, fixed at construction.
- Every `toString`, `operator<<`, `operator>>`, `mapAll` and `operator!=` is left out: stream formatting, a raw function-pointer callback, and a plain negation of `==`.
- `new`/`delete`, destructors and the old bucket array that `rehashing` leaks are left out, because freeing memory is not observable here.
- Hash chains are sequences of cells in an array of buckets, not linked `Cell`s. Pointer relinking in `put`, `remove`, `clear` and `deepCopy` becomes sequence updates, and the tail pointer of `deepCopy` becomes appending to a chain.
- The search tree of `MyMap` is a datatype value that `MyMap` replaces; the `TreeNode*&` references of `findTreeNode` become rebuilding the search path. Node identity and aliasing are not modelled.
- `MyMap` and `MySet` have `int` keys. The model needs the key order, and these are the keys the drivers use.
- `MyVector` holds `int`. `sort` needs `<` and its `-1` sentinel.
- `MyPQueue` requires its value type to have a default value (`V(0)`), as `new Cell[capacity]` default-constructs every slot.
- Vector.MyVector.ExpandCapacity: grows by `GrownCapacity`, not by the plain `capacity *= 2` of vector/myvector.h:435. For a positive capacity the two agree. For a `MyVector(0, v)`, `Insert` and `Add` then succeed, where the C++ code keeps capacity 0 and writes past the array. `DoubleCapacity` and `ZeroCapacityInsertHasNoSlot` model the code as written (see Findings).
- Vector.MyVector.Filled: requires `n >= 0`. A negative `n` makes `new ValueType[n]` throw in C++, and that path is not modelled.
- The thrown `std::out_of_range` of `get`, `set`, `insert`, `remove`, both `operator[]`, `first`, `last` and `dequeue` is an `Err(OutOfRange)` or `Fail(OutOfRange)` result. Nothing changes on that path.
- The drivers (`main.cpp`) and their console I/O are not part of this model, apart from the priority-queue sample that `SampleOrder` replays.

## Findings

| source | as written | input that shows it | evidently intended | confidence | as-written member | corrected member |
|---|---|---|---|---|---|---|
| vector/myvector.h:218-225, 432-441 | `MyVector(n, value)` sets the capacity to `n`, and `expandCapacity` doubles it. | `MyVector(0, v)` then `add(x)`: `count == capacity == 0`, so `insert` expands to `2 * 0 == 0` and writes `array[0]` out of bounds. | Growing always yields at least one free slot. | not executed | Vector.ZeroCapacityInsertHasNoSlot | Vector.GrownCapacity |
