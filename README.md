# LongMapImpl in Dafny

This project models `LongMapImpl`, a hash map from Java `long` keys to values, and proves properties of the model.
The map uses separate chaining:

- The bucket array starts as null. The first `put` allocates it at the initial capacity (16 by default).
- Each bucket holds a singly linked chain of `Entry` nodes.
- The bucket index is the key's `Long.hashCode` modulo the array length.
- A `put` that finds `size > length * loadFactor` first doubles the array and is meant to re-put every mapping (the code as written re-puts only the first node of each bucket; see Findings). The default load factor is 0.75.

The model has these modules:

- `Hashing`:
  - `Long.hashCode`, computed arithmetically as the XOR of the two 32-bit halves followed by the `(int)` cast.
  - The bucket index.
- `Chains`: a chain is the sequence of its nodes, head first.
  - The pure functions `Find`, `ChainGet`, `ChainPut` and `ChainRemove`.
  - The chain walks of `getNode`, `put` and `remove`, as loops proved against those functions.
- `Tables`: the bucket array as a sequence of chains.
  - The representation invariant `TableValid`: every node sits in its key's bucket, and no chain repeats a key.
  - The abstraction `Abstract`, which gives the map the array stands for.
  - The listing `Flatten`, which gives the nodes in the order `keys()` and `values()` visit them.
  - The growth step `Rehash`, with the lemmas connecting them.
- `LongMaps`: the class `LongMapImpl` holds the `buckets` array, which is null until the first put, and the `size` field.
  - Every public operation, plus `getNode` and `resizeOrCreate`, is a method.
  - Each method is proved against the map `Contents()` that the array stands for, and keeps `Valid()`.
- `AsWritten`: put, remove, the growth step and the bucket index as the Java text computes them. Like `Grow`, its growth step builds one new array (see Left out).
  - Each comes with an input where it departs from the documented behaviour (see Findings).
- `Scenarios`: the unit tests of `LongMapImplTest`. Each is a method that drives a fresh map through the test's calls and states the test's assertions as postconditions.

The documentation and the tests promise ordinary map behaviour.
The class methods model that intended behaviour: put replaces or adds one mapping, remove drops exactly one, and growth keeps every mapping.
Where the code does something else, the code's behaviour is modelled in `AsWritten` and listed under Findings.

## Model

Source paths are abbreviated: `LongMapImpl.java` is `src/main/java/de/comparus/opensource/longmap/LongMapImpl.java`, and the test file is `src/test/java/de/comparus/opensource/longmap/LongMapImplTest.java`.

| member | source | states |
|---|---|---|
| Hashing.HashCode | src/main/java/de/comparus/opensource/longmap/LongMapImpl.java:62 | `Long.hashCode` is a 32-bit int; a key in [0, 2^31) is its own hash code |
| Hashing.ToInt32 | src/main/java/de/comparus/opensource/longmap/LongMapImpl.java:62 | the `(int)` cast yields an int congruent to its argument modulo 2^32 |
| Hashing.BitXorAllOnes | src/main/java/de/comparus/opensource/longmap/LongMapImpl.java:62 | XOR with n one-bits flips each of the n low bits (the high half of a negative key is all ones) |
| Hashing.BitXorBound | src/main/java/de/comparus/opensource/longmap/LongMapImpl.java:62 | the XOR of two n-bit numbers is an n-bit number |
| Hashing.HashCodeReadsXorAsSigned | src/main/java/de/comparus/opensource/longmap/LongMapImpl.java:62 | the XOR of the key's two halves is a 32-bit value, so the `(int)` cast only reads its top bit as the sign |
| Hashing.BitXorCommutes | src/main/java/de/comparus/opensource/longmap/LongMapImpl.java:62 | XOR does not depend on operand order |
| Hashing.ComplementSharesHashCode | src/main/java/de/comparus/opensource/longmap/LongMapImpl.java:62 | a key k in [0, 2^31) and its complement -k-1 have the same hash code, so they share a bucket |
| Hashing.BucketIndex | src/main/java/de/comparus/opensource/longmap/LongMapImpl.java:66 | the bucket index is always a valid index in [0, length); a small non-negative key goes to the bucket numbered by the key |
| Chains.FindFrom | src/main/java/de/comparus/opensource/longmap/LongMapImpl.java:299-309 | the walk from a position finds the first node holding the key; no result means no node from there on holds it |
| Chains.ChainGet | src/main/java/de/comparus/opensource/longmap/LongMapImpl.java:289-310 | the lookup fails iff no node of the chain holds the key; a result is the value of a node holding the key |
| Chains.ChainPut | src/main/java/de/comparus/opensource/longmap/LongMapImpl.java:58-104 | after put the chain holds the new node and otherwise only old nodes; it grows by one iff the key was absent; distinct keys stay distinct |
| Chains.ChainRemove | src/main/java/de/comparus/opensource/longmap/LongMapImpl.java:121-154 | after remove the chain keeps every node of another key, no node holds the key, and it shrinks by one iff the key was present |
| Chains.ChainGetMember | src/main/java/de/comparus/opensource/longmap/LongMapImpl.java:304-305 | in a chain without repeated keys, a lookup gives v iff the node (key, v) is in the chain |
| Chains.ChainPutGet | src/main/java/de/comparus/opensource/longmap/LongMapImpl.java:58-104 | after put the key reads back the new value and every other key reads as before |
| Chains.ChainRemoveGet | src/main/java/de/comparus/opensource/longmap/LongMapImpl.java:121-154 | after remove the key is absent and every other key reads as before |
| Chains.FindNode | src/main/java/de/comparus/opensource/longmap/LongMapImpl.java:297-309 | getNode's loop returns a node iff the chain holds the key, and that node holds the key's value |
| Chains.PutInChain | src/main/java/de/comparus/opensource/longmap/LongMapImpl.java:70-98 | put's loop turns the chain into ChainPut of it and returns the key's previous value |
| Chains.RemoveFromChain | src/main/java/de/comparus/opensource/longmap/LongMapImpl.java:130-153 | remove's loop turns the chain into ChainRemove of it and returns the removed value, or none for an absent key |
| Tables.EmptyTable | src/main/java/de/comparus/opensource/longmap/LongMapImpl.java:315 | a freshly allocated array has the requested length and only empty buckets |
| Tables.TableGet | src/main/java/de/comparus/opensource/longmap/LongMapImpl.java:297-309 | getNode looks only in the key's bucket: nothing is found iff no node there holds the key, and a found value is that of a node holding the key (AbstractGet proves this is the whole map's lookup on a valid table) |
| Tables.TablePut | src/main/java/de/comparus/opensource/longmap/LongMapImpl.java:61-103 | put on an allocated array keeps its length and leaves the node (key, value) in the key's bucket (AbstractPut proves the map becomes the old map updated at the key) |
| Tables.TableRemove | src/main/java/de/comparus/opensource/longmap/LongMapImpl.java:122-153 | remove keeps the array length and every other bucket, and leaves no node of the key in its bucket when that chain repeats no key (AbstractRemove proves the map loses exactly the key) |
| Tables.FlattenMember | src/main/java/de/comparus/opensource/longmap/LongMapImpl.java:215-228 | the bucket-by-bucket traversal of keys() and values() lists a node iff it is in some bucket |
| Tables.InsertAll | src/main/java/de/comparus/opensource/longmap/LongMapImpl.java:324-326 | re-putting a sequence of nodes one by one keeps the array length (InsertAllValid and InsertAllAbstract prove it keeps the table valid and overrides the map) |
| Tables.Rehash | src/main/java/de/comparus/opensource/longmap/LongMapImpl.java:319-327 | the intended growth step builds an array of the requested length from every listed node (RehashAbstract proves it stands for the same map) |
| Tables.FlattenOrdered | src/main/java/de/comparus/opensource/longmap/LongMapImpl.java:215-228 | the listing visits buckets in index order: listed keys have non-decreasing bucket indexes |
| Tables.FlattenDistinct | src/main/java/de/comparus/opensource/longmap/LongMapImpl.java:207-231 | in a valid table no key is listed twice |
| Tables.AbstractGet | src/main/java/de/comparus/opensource/longmap/LongMapImpl.java:289-310 | looking in the key's bucket only finds exactly what the whole map holds for the key |
| Tables.AbstractPut | src/main/java/de/comparus/opensource/longmap/LongMapImpl.java:58-104 | put keeps the table valid and its map becomes the old map updated at the key |
| Tables.AbstractRemove | src/main/java/de/comparus/opensource/longmap/LongMapImpl.java:121-154 | remove keeps the table valid and its map becomes the old map without the key |
| Tables.RemoveFromTable | src/main/java/de/comparus/opensource/longmap/LongMapImpl.java:121-154 | remove's new map, its size (one less iff the key was present), its result, and an unchanged table for an absent key |
| Tables.EmptyChainsAbstract | src/main/java/de/comparus/opensource/longmap/LongMapImpl.java:314-316 | an array of empty buckets is a valid table of the empty map |
| Tables.InsertAllValid | src/main/java/de/comparus/opensource/longmap/LongMapImpl.java:324-326 | putting any sequence of nodes keeps the table valid |
| Tables.InsertAllAbstract | src/main/java/de/comparus/opensource/longmap/LongMapImpl.java:324-326 | putting a sequence of nodes in order gives the old map overridden by those nodes, the later ones winning |
| Tables.RehashAbstract | src/main/java/de/comparus/opensource/longmap/LongMapImpl.java:319-327 | re-putting every node into a new array of any positive length keeps exactly the same map |
| Tables.ListingSize | src/main/java/de/comparus/opensource/longmap/LongMapImpl.java:208 | a valid table lists exactly as many nodes as its map has mappings |
| Tables.ListingIsContents | src/main/java/de/comparus/opensource/longmap/LongMapImpl.java:207-262 | the listing is exactly the map's mappings, each once |
| Tables.KeysListing | src/main/java/de/comparus/opensource/longmap/LongMapImpl.java:207-231 | the listed keys are distinct, as many as the mappings, and are exactly the map's keys |
| Tables.ValuesListing | src/main/java/de/comparus/opensource/longmap/LongMapImpl.java:237-262 | each listed value is the map's value for the key listed with it; the listed values are exactly the map's values |
| Tables.NoMappingsNoNodes | src/main/java/de/comparus/opensource/longmap/LongMapImpl.java:277-282 | a valid table has no mappings iff every bucket is empty |
| LongMaps.LongMapImpl.constructor | src/main/java/de/comparus/opensource/longmap/LongMapImpl.java:21-23 | a new map is empty and unallocated, with capacity 16 and load factor 3/4 |
| LongMaps.LongMapImpl.WithCapacity | src/main/java/de/comparus/opensource/longmap/LongMapImpl.java:48-50 | a new map is empty and unallocated, with the given capacity and load factor 3/4 |
| LongMaps.LongMapImpl.WithCapacityAndLoadFactor | src/main/java/de/comparus/opensource/longmap/LongMapImpl.java:31-42 | a new map is empty and unallocated, with the given capacity and load factor |
| LongMaps.LongMapImpl.Put | src/main/java/de/comparus/opensource/longmap/LongMapImpl.java:58-104 | the map becomes the old map updated at the key; put returns the old value; size grows iff the key was new; the first put allocates the array, and a put past the threshold doubles it |
| LongMaps.LongMapImpl.PutIntoBuckets | src/main/java/de/comparus/opensource/longmap/LongMapImpl.java:61-103 | the insertion step updates only the key's bucket, as TablePut, with the same map and size effect |
| LongMaps.LongMapImpl.Get | src/main/java/de/comparus/opensource/longmap/LongMapImpl.java:111-114 | get returns a value iff the key is mapped, and that value is the key's |
| LongMaps.LongMapImpl.Remove | src/main/java/de/comparus/opensource/longmap/LongMapImpl.java:121-154 | the map loses the key; remove returns the key's old value or none; size shrinks iff the key was present; the array stays the same object |
| LongMaps.LongMapImpl.RemoveFromBuckets | src/main/java/de/comparus/opensource/longmap/LongMapImpl.java:122-153 | the deletion step updates only the key's bucket, as TableRemove, with the same map and size effect |
| LongMaps.LongMapImpl.IsEmpty | src/main/java/de/comparus/opensource/longmap/LongMapImpl.java:160-162 | the result is true iff there are no mappings |
| LongMaps.LongMapImpl.ContainsKey | src/main/java/de/comparus/opensource/longmap/LongMapImpl.java:169-171 | the result is true iff the key is mapped |
| LongMaps.LongMapImpl.ContainsValue | src/main/java/de/comparus/opensource/longmap/LongMapImpl.java:178-201 | the nested walk returns true iff some key maps to the value |
| LongMaps.LongMapImpl.Keys | src/main/java/de/comparus/opensource/longmap/LongMapImpl.java:207-231 | keys() is a new array of length size holding the keys in listing order, bucket by bucket and head first |
| LongMaps.CollectKeys | src/main/java/de/comparus/opensource/longmap/LongMapImpl.java:214-228 | the walk over all buckets fills the array with the listing's keys |
| LongMaps.CopyChainKeys | src/main/java/de/comparus/opensource/longmap/LongMapImpl.java:220-227 | the walk of one chain copies its keys at the running index and leaves the earlier entries alone |
| LongMaps.LongMapImpl.Values | src/main/java/de/comparus/opensource/longmap/LongMapImpl.java:237-262 | values() has one element per mapping: the values in listing order |
| LongMaps.LongMapImpl.Size | src/main/java/de/comparus/opensource/longmap/LongMapImpl.java:268-270 | size() is the number of mappings |
| LongMaps.LongMapImpl.Clear | src/main/java/de/comparus/opensource/longmap/LongMapImpl.java:277-282 | after clear there are no mappings, size is 0, every bucket is empty, and the array keeps its length |
| LongMaps.LongMapImpl.GetNode | src/main/java/de/comparus/opensource/longmap/LongMapImpl.java:289-310 | getNode finds a node iff the key is mapped, and the node holds the key and its value |
| LongMaps.LongMapImpl.ResizeOrCreate | src/main/java/de/comparus/opensource/longmap/LongMapImpl.java:313-328 | the map and size are unchanged: a null array is allocated at the initial capacity, an array past the threshold is doubled and rehashed, and any other array is kept |
| LongMaps.LongMapImpl.NeedsResize | src/main/java/de/comparus/opensource/longmap/LongMapImpl.java:319 | the growth test `size > length * loadFactor` fires exactly when size exceeds length times the load factor rounded down |
| LongMaps.LongMapImpl.TableBeforeInsert | src/main/java/de/comparus/opensource/longmap/LongMapImpl.java:313-328 | the array put inserts into after resizeOrCreate is valid and stands for the same map; it is the initial capacity long on the first put, twice the old length when the growth test fires, and the old array otherwise |
| LongMaps.LongMapImpl.Grow | src/main/java/de/comparus/opensource/longmap/LongMapImpl.java:319-327 | growth builds a fresh array of twice the length, holding Rehash of the old one, with the same map and size |
| LongMaps.LongMapImpl.RePutAll | src/main/java/de/comparus/opensource/longmap/LongMapImpl.java:324-326 | re-putting every old bucket into the empty new array gives Rehash of the old array, with size counting its mappings |
| LongMaps.LongMapImpl.RePutChain | src/main/java/de/comparus/opensource/longmap/LongMapImpl.java:324-326 | re-putting one old chain puts its nodes head first, as InsertAll |
| AsWritten.JavaRemainder | src/main/java/de/comparus/opensource/longmap/LongMapImpl.java:66 | Java's `%` lies strictly between -n and n, never positive for a negative dividend, and is the Euclidean remainder or that remainder minus n |
| AsWritten.PlaceInBucketAsWritten | src/main/java/de/comparus/opensource/longmap/LongMapImpl.java:66 | the index as written (also at lines 125 and 297) is the intended index or the intended index minus the length, and is negative only for a negative hash code |
| AsWritten.PlaceInBucketAgrees | src/main/java/de/comparus/opensource/longmap/LongMapImpl.java:66 | for a non-negative hash code the index as written is the intended one |
| AsWritten.NegativePlaceInBucket | src/main/java/de/comparus/opensource/longmap/LongMapImpl.java:66 | key 2^31 + 1 has hash code -(2^31 - 1), and at length 16 the index as written is -15 |
| AsWritten.PutAsWritten | src/main/java/de/comparus/opensource/longmap/LongMapImpl.java:58-104 | put as written returns a value iff the head holds the key, and then the bucket becomes one node; otherwise it returns null, counts one more, and only ever appends |
| AsWritten.PutAsWrittenDropsChain | src/main/java/de/comparus/opensource/longmap/LongMapImpl.java:72-96 | when the head holds the key, put as written loses the second node's key, which the intended put keeps |
| AsWritten.PutAsWrittenDuplicatesKey | src/main/java/de/comparus/opensource/longmap/LongMapImpl.java:76-101 | a key further down the chain gets a second node and size grows, while the intended put keeps the chain length |
| AsWritten.PutAsWrittenExample | src/main/java/de/comparus/opensource/longmap/LongMapImpl.java:58-104 | keys 4 and 100 share bucket 4; put(4, "C") leaves only (4, "C"); put(100, "C") appends a second node for 100 and returns null |
| AsWritten.RemoveAsWritten | src/main/java/de/comparus/opensource/longmap/LongMapImpl.java:121-154 | remove as written counts a removal iff the key is present and then returns its value; for an absent key in a non-empty chain it keeps the chain and returns the tail's value |
| AsWritten.RemoveAsWrittenDropsHead | src/main/java/de/comparus/opensource/longmap/LongMapImpl.java:134-136 | removing a key two or more nodes down loses the head's key, which the intended remove keeps |
| AsWritten.RemoveAsWrittenExample | src/main/java/de/comparus/opensource/longmap/LongMapImpl.java:133-153 | keys 1, 17 and 33 share bucket 1; remove(33) leaves only key 17; remove(17) from the one-node chain of 1 returns "ONE" |
| AsWritten.Heads | src/main/java/de/comparus/opensource/longmap/LongMapImpl.java:324-325 | the nodes the re-put stream sees are exactly the heads of the non-empty buckets, no more of them than buckets, and none for an array of empty buckets |
| AsWritten.RehashAsWritten | src/main/java/de/comparus/opensource/longmap/LongMapImpl.java:319-327 | the growth as written builds an array of the new length from the bucket heads only |
| AsWritten.RehashAsWrittenExample | src/main/java/de/comparus/opensource/longmap/LongMapImpl.java:324-326 | growing one bucket holding keys 0 and 1 to two buckets keeps only key 0 as written, and both keys as intended |
| Scenarios.FillWithDecimals | src/test/java/de/comparus/opensource/longmap/LongMapImplTest.java:18-20 | putting i -> String.valueOf(i) for every i below n gives exactly those n mappings |
| Scenarios.PutValue | src/test/java/de/comparus/opensource/longmap/LongMapImplTest.java:13-24 | after 25 puts, through a growth, get(16) is "16" |
| Scenarios.PutSameKeyWithDifferentValue | src/test/java/de/comparus/opensource/longmap/LongMapImplTest.java:26-34 | the first put returns null, the second returns "ONE", and get(1) is "TWO" |
| Scenarios.PutWithCollisions | src/test/java/de/comparus/opensource/longmap/LongMapImplTest.java:36-45 | colliding keys 4 and 100 each keep their own value |
| Scenarios.OneTwoThree | src/test/java/de/comparus/opensource/longmap/LongMapImplTest.java:51-53 | three puts give the map {1: ONE, 2: TWO, 3: THREE} of size 3 |
| Scenarios.RemovePresentKey | src/test/java/de/comparus/opensource/longmap/LongMapImplTest.java:47-59 | remove(2) returns "TWO" and leaves size 2 |
| Scenarios.RemoveAbsentKey | src/test/java/de/comparus/opensource/longmap/LongMapImplTest.java:61-73 | remove(12) returns null and leaves size 3 |
| Scenarios.ContainsKeyPositiveAndNegative | src/test/java/de/comparus/opensource/longmap/LongMapImplTest.java:75-99 | containsKey(2) holds and containsKey(21) does not |
| Scenarios.ContainsKeyWithCollisions | src/test/java/de/comparus/opensource/longmap/LongMapImplTest.java:101-118 | both colliding keys 4 and 100 are found |
| Scenarios.ContainsValueWithCollisions | src/test/java/de/comparus/opensource/longmap/LongMapImplTest.java:120-137 | both values of the colliding keys are found |
| Scenarios.ContainsValueNegative | src/test/java/de/comparus/opensource/longmap/LongMapImplTest.java:139-149 | no key maps to "FIVE" |
| Scenarios.OneTwoFour | src/test/java/de/comparus/opensource/longmap/LongMapImplTest.java:155-157 | three puts give the map {1: ONE, 2: TWO, 4: FOUR} |
| Scenarios.ContainsValueAfterRemove | src/test/java/de/comparus/opensource/longmap/LongMapImplTest.java:151-164 | after remove(100), "HUNDRED" is no longer a value |
| Scenarios.SizeAfterFifteenPuts | src/test/java/de/comparus/opensource/longmap/LongMapImplTest.java:166-175 | fifteen distinct puts give size 15 |
| Scenarios.ClearAll | src/test/java/de/comparus/opensource/longmap/LongMapImplTest.java:177-192 | after clear, size is 0 and none of the 25 keys is found |
| Scenarios.KeysAfterFifteenPuts | src/test/java/de/comparus/opensource/longmap/LongMapImplTest.java:194-204 | fifteen mappings give fifteen keys |
| Scenarios.NotOrderedMap | src/test/java/de/comparus/opensource/longmap/LongMapImplTest.java:208-214 | after the five puts, the listing is that of the table built by the five puts |
| Scenarios.NotOrderedBuckets | src/main/java/de/comparus/opensource/longmap/LongMapImpl.java:66-68 | keys 1, 12, 100, 41 and 101 land alone in buckets 1, 12, 4, 9 and 5 of 16 |
| Scenarios.NotOrderedListing | src/main/java/de/comparus/opensource/longmap/LongMapImpl.java:215-228 | those buckets list as 1, 100, 101, 41, 12 |
| Scenarios.NotOrderedKeysAndValues | src/test/java/de/comparus/opensource/longmap/LongMapImplTest.java:218 | the listing's keys are [1, 100, 101, 41, 12], and its values are in the matching order |
| Scenarios.KeysNotOrdered | src/test/java/de/comparus/opensource/longmap/LongMapImplTest.java:206-219 | keys() returns exactly [1, 100, 101, 41, 12] |
| Scenarios.ValuesNotOrdered | src/test/java/de/comparus/opensource/longmap/LongMapImplTest.java:221-240 | values() holds the five values: bucket by bucket, and as a multiset equal to the expected list |

Some helpers have no row because they state arithmetic or map facts rather than source behaviour:
- `Hashing.Pow2Double` keeps `Grow`'s length invariant.
- `LongMaps.AboveThreshold` gives `NeedsResize` its threshold form.
- `AsWritten.NegatedRemainder` relates Java's `%` to the Euclidean one.
- `Scenarios.PutThenRemove` is the map fact behind `ContainsValueAfterRemove`.
- `Scenarios.PutWithoutGrowth` is a put below the threshold, used by `NotOrderedMap`.

## Left out

- Chains are values (sequences of nodes), not linked `Entry` objects.
  - Relinking `next` fields becomes sequence surgery on the bucket's chain.
  - Nothing outside the map can hold a node, so node aliasing is not modelled.
- `Entry.equals`, `Entry.hashCode` and the unused `hash` field (lines 330-354) are left out: the map never calls them.
- The `LongMap` interface (`LongMap.java`) only declares the operations modelled here.
- Values are compared with Dafny's `==`, which stands for `equals`. Null values are not modelled: `containsValue` would throw on a null value at line 190.
- `Arrays.copyOf` at line 321 is modelled by keeping the old array object. Nothing writes to it after the new array is allocated.
- LongMaps.LongMapImpl.WithCapacity requires a positive capacity.
  - A negative capacity throws `IllegalArgumentException` (lines 32-34).
  - A capacity of 0 is accepted by Java, but the first put then divides by zero at line 66.
- LongMaps.LongMapImpl.WithCapacityAndLoadFactor takes the load factor as a positive fraction `loadNumerator / loadDenominator` instead of a `float`.
  - The growth test `size > length * loadFactor` becomes `size * den > length * num`, so float rounding is not modelled.
  - The check at line 36 (`loadFactor <= 0 && isNaN`) can never fire. The model requires a positive fraction instead.
- LongMaps.LongMapImpl.Remove on a map whose array was never allocated returns none, where the Java code throws `NullPointerException` at line 123.
- LongMaps.LongMapImpl.Size returns an unbounded `nat`. The model does not capture 32-bit overflow of `size` or of `buckets.length * 2`.
- LongMaps.LongMapImpl.Grow re-puts through the insertion step (`PutIntoBuckets`). It does not repeat `put`'s own growth test, which the Java re-put reaches through the recursive `put` call at line 326.
  - So the model doubles the array exactly once per growing put, and `Put` ensures the new length is twice the old one.
  - The Java code can grow again in the middle of a re-put when initialCapacity × loadFactor < 1. Example: capacity 16 and load factor 0.01, then put(0), put(1), put(2). The third put grows to 64, and the second re-put sees 1 > 64 × 0.01 and grows again, to 128.
  - The map is the same either way, but the bucket layout, and so the order of `keys()` and `values()`, is not modelled for such load factors. With initialCapacity × loadFactor ≥ 1, including the defaults, the test cannot fire inside a re-put.
- AsWritten.RehashAsWritten re-puts the heads into one new array of the given length. The repeated growth above is not part of it either.
- LongMaps.LongMapImpl.Values returns a sequence for the `ArrayList`. Its counter `i` (line 244) is never read and is left out.
- LongMaps.LongMapImpl.Put, Remove and Grow model the documented behaviour. The code as written is modelled separately in `AsWritten` (see Findings).
- `Hashing.HashCode` computes `Long.hashCode` on integers, with XOR spelled out bit by bit. Bit-vector types are not used.
- Scenarios.PutValue: the test (lines 13-24) asserts nothing and prints a line. The model states the value its `get(16)` returns and leaves the printing out.
- Scenarios.ValuesNotOrdered: Java's `Collections.sort` of the result is stated as multiset equality with the expected list.

## Findings

| source | as written | input that shows it | evidently intended | confidence | as-written member | corrected member |
|---|---|---|---|---|---|---|
| src/main/java/de/comparus/opensource/longmap/LongMapImpl.java:66 | `hash % size` keeps the sign of a negative hash code (also at lines 125 and 297) | key 2^31 + 1 has hash code -2147483647; at 16 buckets its index is -15, which is out of bounds | a bucket index in [0, length) | high, not executed | AsWritten.NegativePlaceInBucket | Hashing.BucketIndex |
| src/main/java/de/comparus/opensource/longmap/LongMapImpl.java:72-96 | a head holding the key makes the whole bucket one fresh node | chain 4 -> "A", 100 -> "B" in bucket 4; put(4, "C") loses key 100 | only the key's value changes | high, not executed | AsWritten.PutAsWrittenDropsChain | Chains.ChainPutGet |
| src/main/java/de/comparus/opensource/longmap/LongMapImpl.java:76-101 | a key past the head is not found, so a second node is appended, size grows and null is returned; line 81 compares a key with the value | same chain; put(100, "C") gives three nodes, counts one more and returns null instead of "B" | replace the value in place and return "B" | high, not executed | AsWritten.PutAsWrittenExample | Tables.AbstractPut |
| src/main/java/de/comparus/opensource/longmap/LongMapImpl.java:134-136 | the bucket is set to the predecessor of the removed node | keys 1, 17, 33 in bucket 1; remove(33) loses key 1 | only the key's node is unlinked | high, not executed | AsWritten.RemoveAsWrittenDropsHead | Chains.ChainRemoveGet |
| src/main/java/de/comparus/opensource/longmap/LongMapImpl.java:145-153 | an absent key returns the tail node's value | chain 1 -> "ONE"; remove(17) returns "ONE" | null for an absent key | high, not executed | AsWritten.RemoveAsWrittenExample | Chains.RemoveFromChain |
| src/main/java/de/comparus/opensource/longmap/LongMapImpl.java:324-326 | only the head of each old bucket is re-put | one bucket holding keys 0 and 1, grown to two buckets, loses key 1 | every node is re-put | high, not executed | AsWritten.RehashAsWrittenExample | Tables.RehashAbstract |
