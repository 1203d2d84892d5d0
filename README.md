# SimpleHashMap in Dafny

This project models `SimpleHashMap<K, V>`, a separate-chaining hash table with these parts:

- **Table.** An array of buckets whose length is a power of two, starting at 16.
- **Chains.** Each bucket holds a singly linked chain of nodes.
- **Nodes.** Each node caches its key's hash.
- **Counters.** The table keeps a `size` count and a resize `threshold`, which is 3/4 of the capacity.

The operations are:

- `put` and `addNode`: update a present key in place, or prepend a node for a new key. When the count passes the threshold, they double the table.
- `get` and `containsNullValue`: scan the key's chain.
- `containsKey`: answers true for a key stored with a null value too.
- `remove`: unlinks a node, either from the head of its bucket or from behind its predecessor.
- `resize`: relinks every node into a table twice as large.
- `size` and `isEmpty`.

The files are:

- `nullable.dfy` (module `Nullables`): Java's `null` as the `Null` case of `Nullable<T>`. Keys and values are both nullable, so "stored with a null value" and "absent" are different states.
- `hashing.dfy` (module `Hashing`):
  - A Java `int` is a 32-bit pattern, the type `Word`.
  - The bit operators `&`, `^` and `>>>` are written out on numbers.
  - `hash` and `indexFor` are defined on top of them.
  - Proved: mixing is its own inverse, the mask equals the remainder for power-of-two lengths, and doubling the length sends each index either to itself or to itself plus the old length.
- `buckets.dfy` (module `Buckets`):
  - The bucket array as a value: a sequence of chains, each chain a sequence of nodes, head first.
  - Reference definitions of what each operation does to the buckets: `Lookup`, `PutIn`, `RemoveFrom` and `Rehash`.
  - The invariant `Represents`, which says the buckets store exactly an abstract map.
  - Lemmas that every operation keeps that invariant and changes the map as a map update, lookup or deletion would.
- `simple_hash_map.dfy` (module `SimpleHashMaps`):
  - The class `SimpleHashMap`. Its fields `table: array<Chain>`, `size` and `threshold` are updated in place, as in the source.
  - A ghost `contents` holds the abstract map, and `Valid()` is the object invariant.
  - Each operation is a method proved against the reference definitions.
  - The chain walk shared by `get`, `put`, `remove` and `containsNullValue` is the method `Scan`.
  - The nested relinking loops of `resize` are the method `Transfer`.
- `scenarios.dfy` (module `Scenarios`): small uses of the map with integer keys. They cover a null value, a null key, an overwrite followed by a remove, and the thirteenth key that triggers the first resize.

The key's `hashCode` is a parameter of the constructor, a function `K -> Word`. Key equality is Dafny's `==`.

## Model

| member | source | states |
|---|---|---|
| Hashing.Hash | src/main/java/org/module1/SimpleHashMap.java:38-42 | a null key hashes to 0; otherwise the hash keeps the upper 16 bits of `hashCode`, and mixing it again gives `hashCode` back, so the mixing loses nothing |
| Hashing.MixInvolution | src/main/java/org/module1/SimpleHashMap.java:41 | `h ^ (h >>> 16)` applied twice is the identity on 32-bit patterns |
| Hashing.Mix | src/main/java/org/module1/SimpleHashMap.java:40-41 | `h ^ (h >>> 16)` on the 32-bit pattern leaves its upper 16 bits unchanged; `MixInvolution` proves it is its own inverse |
| Hashing.Threshold | src/main/java/org/module1/SimpleHashMap.java:32 | `(int) (capacity * 0.75f)`: the result is 3/4 of the capacity rounded down, the integer part of the product |
| Hashing.IndexFor | src/main/java/org/module1/SimpleHashMap.java:47-49 | `hash & (length - 1)` is always a valid bucket index, below `length` |
| Hashing.IndexForIsMod | src/main/java/org/module1/SimpleHashMap.java:47-49 | on a power-of-two length the mask is exactly `hash mod length` |
| Hashing.IndexForDoubling | src/main/java/org/module1/SimpleHashMap.java:137-147 | after the length doubles, a node's bucket index is its old index or its old index plus the old length |
| Hashing.DoubleIsPow2 | src/main/java/org/module1/SimpleHashMap.java:137 | doubling keeps the capacity a power of two |
| Hashing.RoomToDouble | src/main/java/org/module1/SimpleHashMap.java:137 | a power-of-two capacity below 2^30 can double without passing 2^30, so `length * 2` does not overflow |
| Buckets.Find | src/main/java/org/module1/SimpleHashMap.java:59-61 | the scan stops at the first node with equal cached hash and equal key, or at the end of the chain when none matches |
| Buckets.RemoveAt | src/main/java/org/module1/SimpleHashMap.java:116-120 | unlinking position p keeps the nodes before p and shifts the nodes after p down by one |
| Buckets.Lookup | src/main/java/org/module1/SimpleHashMap.java:90-101 | what `get` returns: a non-null answer means the key's bucket has a node for the key; `LookupAgrees` proves it is the map's value, or null for an absent key |
| Buckets.HasKey | src/main/java/org/module1/SimpleHashMap.java:171-181 | what `containsNullValue` answers: true exactly when some node of the key's bucket has the key's hash and the key; `LookupAgrees` proves that is exactly when the key is in the map |
| Buckets.PutIn | src/main/java/org/module1/SimpleHashMap.java:55-79 | the buckets after `put`, before any resize: the key now has a node and `get` gives the new value; every other bucket is unchanged; `PutPreserves` proves it represents the updated map |
| Buckets.RemoveFrom | src/main/java/org/module1/SimpleHashMap.java:107-129 | the buckets after `remove`: unchanged exactly when the key has no node; otherwise the key's bucket is one node shorter; every other bucket is unchanged; `RemovePreserves` proves it represents the map without the key |
| Buckets.FindAgrees | src/main/java/org/module1/SimpleHashMap.java:94-97 | in a table that represents map m, the scan finds a node exactly when the key is in m, and that node holds the key's value |
| Buckets.LookupAgrees | src/main/java/org/module1/SimpleHashMap.java:90-101 | `get` gives m's value for a present key and null for an absent one; `containsNullValue` is true exactly for present keys |
| Buckets.PutPreserves | src/main/java/org/module1/SimpleHashMap.java:55-79 | `put` before any resize leaves a table that represents `m[key := value]`; the node count grows by one exactly for a new key |
| Buckets.PutThenLookup | src/main/java/org/module1/SimpleHashMap.java:55-101 | after `put(k, v)`, `get(k)` is v and `get` of every other key is unchanged |
| Buckets.PutPresentInPlace | src/main/java/org/module1/SimpleHashMap.java:59-66 | `put` on a present key keeps every bucket's length and every node's hash, key and position, and changes only that key's value |
| Buckets.PutAbsentPrepends | src/main/java/org/module1/SimpleHashMap.java:69-79 | `put` on an absent key puts the new node at the head of the key's bucket and changes no other bucket |
| Buckets.RemovePreserves | src/main/java/org/module1/SimpleHashMap.java:107-129 | `remove` leaves a table that represents `m - {key}`, with one node fewer exactly when the key was present; an absent key changes nothing |
| Buckets.RemoveThenLookup | src/main/java/org/module1/SimpleHashMap.java:107-129 | after `remove(k)`, k is absent and `get` of every other key is unchanged |
| Buckets.RemovePresentUnlinks | src/main/java/org/module1/SimpleHashMap.java:114-123 | removing a present key takes exactly its node out of its bucket, keeps every other node of that bucket, and changes no other bucket |
| Buckets.Scatter | src/main/java/org/module1/SimpleHashMap.java:142-153 | the relinking of `resize` keeps the number of buckets; `ScatterSnoc`, `ScatterPlaced` and `RehashPermutes` give the order, the placement and the node multiset |
| Buckets.Rehash | src/main/java/org/module1/SimpleHashMap.java:135-154 | the buckets after `resize` to n buckets, n of them; `RehashPreserves` proves they represent the same map and `RehashPermutes` that they hold the same nodes |
| Buckets.ScatterSnoc | src/main/java/org/module1/SimpleHashMap.java:147-149 | relinking one more node prepends it to the bucket its cached hash selects in the new table |
| Buckets.ScatterPlaced | src/main/java/org/module1/SimpleHashMap.java:147-149 | after relinking, every node sits in bucket `indexFor(node.hash, newCapacity)` |
| Buckets.RehashPermutes | src/main/java/org/module1/SimpleHashMap.java:142-153 | `resize` keeps the multiset of (hash, key, value) nodes |
| Buckets.RehashPreserves | src/main/java/org/module1/SimpleHashMap.java:135-154 | `resize` into any valid length keeps the invariant and the map, and keeps the node count |
| Buckets.RehashThenLookup | src/main/java/org/module1/SimpleHashMap.java:135-154 | `get` and `containsNullValue` give the same answer for every key after `resize` as before |
| SimpleHashMaps.SimpleHashMap.constructor | src/main/java/org/module1/SimpleHashMap.java:25-33 | a new map is valid and empty, with 16 buckets and threshold 12 |
| SimpleHashMaps.SimpleHashMap.Size | src/main/java/org/module1/SimpleHashMap.java:156-159 | `size()` is the number of keys stored; the invariant also makes it the number of nodes |
| SimpleHashMaps.SimpleHashMap.IsEmpty | src/main/java/org/module1/SimpleHashMap.java:161-164 | `isEmpty()` holds exactly when no key is stored |
| SimpleHashMaps.SimpleHashMap.Get | src/main/java/org/module1/SimpleHashMap.java:89-101 | returns the stored value of a present key and null for an absent key, as the reference `Lookup` does |
| SimpleHashMaps.SimpleHashMap.ContainsNullValue | src/main/java/org/module1/SimpleHashMap.java:171-181 | true exactly when the key is stored, as the reference `HasKey` says |
| SimpleHashMaps.SimpleHashMap.ContainsKey | src/main/java/org/module1/SimpleHashMap.java:166-169 | true exactly when the key is stored, including when its value is null |
| SimpleHashMaps.SimpleHashMap.Put | src/main/java/org/module1/SimpleHashMap.java:54-72 | the map becomes `contents[key := value]`; returns the previous value, or null for a new key; `size` grows by one exactly for a new key; the table is `PutIn` of the old one, passed through `Rehash` to twice the length exactly when a new key makes `size` exceed `threshold`; the invariant is kept |
| SimpleHashMaps.SimpleHashMap.AddNode | src/main/java/org/module1/SimpleHashMap.java:77-84 | prepends the new node to bucket `index`, counts it, and resizes exactly when the new count exceeds the threshold |
| SimpleHashMaps.SimpleHashMap.Remove | src/main/java/org/module1/SimpleHashMap.java:106-129 | the map becomes `contents - {key}`; returns the removed value, or null for an absent key; `size` drops by one exactly for a present key; the same array now holds `RemoveFrom` of the old buckets |
| SimpleHashMaps.SimpleHashMap.Resize | src/main/java/org/module1/SimpleHashMap.java:135-154 | a fresh array of twice the length holding `Rehash` of the old buckets; `threshold` is 3/4 of the new length; map and size unchanged; the invariant is kept |
| SimpleHashMaps.Scan | src/main/java/org/module1/SimpleHashMap.java:94-99 | the chain walk stops at the position `Find` specifies |
| SimpleHashMaps.Transfer | src/main/java/org/module1/SimpleHashMap.java:142-153 | the nested loop fills the new array with exactly `Rehash` of the old buckets |
| Scenarios.NullValueIsStored | src/main/java/org/module1/SimpleHashMap.java:167-181 | a key put with a null value gives null from `get`, yet `containsKey` is true; a key never put gives false |
| Scenarios.NullKey | src/main/java/org/module1/SimpleHashMap.java:38-49 | the null key is stored and retrieved like any key; afterwards bucket 0 holds exactly one node, with hash 0, key null and the stored value |
| Scenarios.OverwriteThenRemove | src/main/java/org/module1/SimpleHashMap.java:55-129 | a second `put` of a key returns the first value and leaves `size` at 1; `remove` returns the second value and leaves the map empty |
| Scenarios.PutTwelve | src/main/java/org/module1/SimpleHashMap.java:55-84 | putting keys 0 to 11 into a new map keeps it valid with 16 buckets, threshold 12 and size 12, and it then holds exactly keys 0 to 11 with their values |
| Scenarios.PutPastThreshold | src/main/java/org/module1/SimpleHashMap.java:77-84 | a new key put into a map whose size equals its threshold doubles the bucket array and keeps the map valid |
| Scenarios.ThirteenthKeyResizes | src/main/java/org/module1/SimpleHashMap.java:30-32 | twelve keys stay in 16 buckets; the thirteenth doubles the table to 32 buckets with threshold 24; `get` of each of the thirteen keys then returns its value |

## Left out

- Floating point: `(int) (capacity * 0.75f)` is modelled as `capacity * 3 / 4` (`Hashing.Threshold`). The two agree on every power of two from 4 upward, and the capacity is always at least 16.
- SimpleHashMaps.SimpleHashMap.Put: requires that the key is present or that fewer than `MaxEntries` (3 * 2^28) keys are stored. This bounds the capacity at 2^30, so `oldTable.length * 2` never overflows a Java `int`. Growth past that point, which would overflow in the source, is not modelled.
- SimpleHashMaps.SimpleHashMap.AddNode: carries the same bound as `Put`, for the same reason.
- The keys' `hashCode` and `equals` are calls into code outside this class. `hashCode` is a function passed to the constructor. `equals` is Dafny equality, which is consistent with `hashCode` by construction.
- Node objects and their `next` links are not modelled one by one. A chain is a sequence, head first. Assigning `node.value`, `node.next` or `prev.next` in place is modelled as replacing the chain in its bucket. Nodes are private to the class, so no outside reference can observe the difference.
- SimpleHashMaps.SimpleHashMap.ContainsKey: calls `get` once rather than twice. The source's second `get(key)` in `containsKey` repeats the first lookup on an unchanged table, so the result is the same.
- The `SimpleMap` interface, the generic array casts and `@SuppressWarnings` are Java typing artefacts with no behaviour.
- Thread safety: the class is unsynchronised and is modelled as single-threaded.
