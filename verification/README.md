# itis::HashTable in Dafny

A model of `itis::HashTable`: a separate-chaining hash table from `int` keys
to string values. The table keeps an array of buckets, each a chain of
key/value pairs, a key counter and a load-factor threshold. A key lives in the
bucket `hash(key, bucket count)`. After each insertion the table grows by
`kGrowthCoefficient` once keys / buckets reaches the load factor.

The model is functional. A table is an immutable `Table(buckets, numKeys,
loadFactor)` value, and every operation is a pure function returning the new
table. `Valid` is the table invariant:

- there is at least one bucket;
- every entry sits in the bucket its key hashes to under the current bucket count;
- no key occurs twice in a bucket, and therefore none occurs twice in the table;
- the load factor lies in (0, 1];
- `numKeys` equals the number of stored entries.

`View` is the abstraction function. It maps the entries of all buckets, taken
bucket after bucket, to a `map<int, string>`. Every operation is proved to
refine the matching map operation, and to preserve `Valid`.

Modules, following the structure of the source:

- `Wrappers`: `Option` (for `std::optional`) and `Result` (for a constructor that throws).
- `Maps`: optional lookup in a map, and map extensionality.
- `Hashing`: the bucket index and the growth coefficient.
- `Buckets`: one chain. Front-to-back lookup, overwrite-or-append, unlink, and the map a chain stands for.
- `BucketArray`: the bucket array. The placement invariant, the abstraction to a map, store, erase and rehash.
- `HashTable`: the table. Construction, `Search`, `Put` with growth, `Remove`, `ContainsKey` and the accessors.
- `HashTableProperties`: laws over several calls. Any sequence of puts and removes is simulated by map updates. A stored value survives calls on other keys and growth. Size counts distinct keys. Worked examples: growth from four buckets at load factor 3/4, an overwrite, and an empty table.
- `AsWritten`: `Put` and `Remove` exactly as the code writes them, with concrete tables on which they break the contract (see Findings).

The operations in `HashTable` follow the table's intended contract, not the
code:

- a re-put overwrites;
- a key is counted exactly when it is new;
- growth rehashes every entry from the logical bucket count;
- removal scans the whole bucket and decrements the counter.

The code differs on each point. `AsWritten` models the code as written, and
the Findings table records each difference.

## Model

| member | source | states |
|---|---|---|
| HashTable.New | src/hash_table.cpp:11-23 | construction fails with a capacity error when capacity <= 0 (checked first), and with a load-factor error when the load factor is outside (0, 1]; otherwise it succeeds with a valid table of exactly `capacity` empty buckets, size 0 and an empty map |
| HashTable.Index | src/hash_table.cpp:6-9 | the bucket index of a key lies in [0, bucket count) and is taken against the current bucket count |
| BucketArray.ContentsLookup | src/hash_table.cpp:6-9 | for a table whose keys sit in their home buckets, the abstract map holds for a key exactly what that key's home bucket holds, so every operation looks in the one bucket that can hold the key |
| Buckets.Lookup | src/hash_table.cpp:30-37 | scanning a chain from its front yields the value the chain's map holds for the key, and yields a value exactly when the key occurs in the chain |
| HashTable.Search | src/hash_table.cpp:25-38 | on a valid table, Search returns the value the abstract map holds for the key, or None when the key is absent |
| HashTable.ContainsKey | src/hash_table.cpp:87-90 | on a valid table, true exactly when the key is in the abstract map, which is when Search has a value |
| Buckets.Upsert | src/hash_table.cpp:44-59 | writing into a chain overwrites the key's entry or appends one: the chain's map becomes the old map updated at the key, no duplicate key appears, and the length grows by one only when the key was absent |
| BucketArray.Store | src/hash_table.cpp:42-59 | storing into the key's home bucket keeps the array well formed and updates the abstract map at that key only |
| HashTable.Put | src/hash_table.cpp:40-66 | Put keeps the invariant; the map becomes the old map with the key bound to the new value; size grows by one exactly when the key was absent; the bucket count is multiplied by the growth coefficient exactly when the new size over the old bucket count reaches the load factor |
| BucketArray.Rehash | src/hash_table.cpp:61-65 | rehashing a sequence of entries into `n` fresh buckets gives a well-formed array of `n` buckets whose map is the map of those entries |
| HashTable.Grow | src/hash_table.cpp:61-65 | growth multiplies the bucket count by the growth coefficient and keeps the invariant (every entry in its home bucket under the new count), the abstract map, the size and the load factor |
| Buckets.Delete | src/hash_table.cpp:74-84 | unlinking a key from a duplicate-free chain removes exactly that key from the chain's map and shortens the chain by one exactly when the key was there; a chain without the key is returned unchanged |
| BucketArray.Erase | src/hash_table.cpp:71-84 | erasing from the key's home bucket keeps the array well formed and removes exactly that key from the abstract map; an absent key leaves the array unchanged |
| HashTable.Remove | src/hash_table.cpp:69-85 | Remove keeps the invariant and returns the value the map held for the key; the map loses that key only; size drops by one exactly when the key was present; an absent key returns None and leaves the table identical |
| HashTable.Empty | src/hash_table.cpp:92-95 | on a valid table, true exactly when the abstract map is empty, which is when size is 0 |
| HashTable.Size | src/hash_table.cpp:97-100 | on a valid table, the key counter equals the number of keys in the abstract map |
| BucketArray.ContentsSize | src/hash_table.cpp:97-100 | a well-formed bucket array holds exactly one entry per key of its map, which is why the key counter can stand for the map's size |
| HashTable.Capacity | src/hash_table.cpp:102-105 | the capacity is the number of buckets, at least one on a valid table |
| HashTable.LoadFactorOf | src/hash_table.cpp:107-110 | the configured load factor, which lies in (0, 1] on a valid table |
| HashTable.Keys | src/hash_table.cpp:112-123 | the set of keys gathered from all buckets is exactly the key set of the abstract map |
| HashTable.Values | src/hash_table.cpp:125-136 | on a valid table there is one value per stored entry, so the count equals size, and a string occurs among them exactly when the map stores it under some key |
| HashTableProperties.Run | src/hash_table.cpp:40-85 | any sequence of puts and removes keeps the invariant, and takes the abstract map to the result of the same sequence of map updates and deletions |
| HashTableProperties.PutThenSearch | src/hash_table.cpp:25-66 | after Put(k, v), Search(k) returns v and every other key's lookup is unchanged |
| HashTableProperties.PutSurvivesOtherCalls | src/hash_table.cpp:40-85 | after Put(k, v), Search(k) still returns v after any sequence of puts and removes of other keys, growth included |
| HashTableProperties.PutTwice | src/hash_table.cpp:40-59 | a second Put of the same key leaves size as after the first and the second value wins |
| HashTableProperties.RemoveAfterPut | src/hash_table.cpp:40-85 | Remove(k) right after Put(k, v) returns v, makes Search(k) absent and restores every other binding |
| HashTableProperties.GrowthPreservesLookups | src/hash_table.cpp:61-65 | growth leaves the key set, the value found for each key and the size as they were |
| HashTableProperties.SizeCountsDistinctKeys | src/hash_table.cpp:40-66 | after putting any sequence of pairs into an empty table, size is the number of distinct keys among them |
| HashTableProperties.GrowthExample | src/hash_table.cpp:61-65 | four buckets at load factor 3/4: after putting keys 1, 2, 3 the size is 3, the capacity is 8 and all three values are still found |
| HashTableProperties.OverwriteExample | src/hash_table.cpp:40-59 | Put(5, "x") then Put(5, "y") gives size 1 and Search(5) = "y" |
| HashTableProperties.EmptyTableExample | src/hash_table.cpp:112-136 | a new table has an empty key set and an empty value sequence |
| AsWritten.PutAsWritten | src/hash_table.cpp:40-66 | the code's Put always appends the pair to the key's bucket and leaves every other bucket as it was; it counts the key only when that bucket was empty; once keys / buckets reaches the load factor the array becomes twice the reserved storage long, with every old bucket at its old index and only empty buckets added, so no entry moves; the load factor is kept |
| AsWritten.RemoveAsWritten | src/hash_table.cpp:69-85 | the code's Remove has no result on an empty bucket; otherwise it reports a value exactly when the bucket's first entry holds the key, and that value is the first entry's; when it reports None the table is unchanged; when it reports a value only the key's bucket changes, becoming `Without(old bucket, first pair)`: every copy of that first pair goes, and every other entry stays in its order; the key counter, the bucket count and the load factor never change |
| AsWritten.Without | src/hash_table.cpp:80 | `std::list::remove` drops every element equal to the given pair and keeps every other element with its multiplicity: the result's multiset is the input's with that pair's count set to zero, and a one-element list is kept or emptied according to whether it is that pair |
| AsWritten.WithoutConcat | src/hash_table.cpp:80 | `std::list::remove` is stable: removal from a concatenation is the concatenation of the removals, which with the one-element case fixes the result as the input minus the pair, the rest in their original order |
| AsWritten.RemoveKeepsChainOrder | src/hash_table.cpp:74-84 | after three re-puts of key 5 ("x", "y", "z") in the code as written, the code's Remove(5) returns "x" and leaves [(5, "y"), (5, "z")] in that order, so Search(5) then returns "y" |

## Left out

- The body of `utils::hash` is not part of this model. `Hash` is the Euclidean remainder `key % buckets`. The only property the table uses is that the index lies in [0, buckets). No claim is made about how evenly keys spread.
- `HashTable::kGrowthCoefficient` is declared in a header that is not part of this model. `Hashing.GrowthCoefficient` is 2.
- `HashTable.New`: a NaN load factor fails both comparisons at src/hash_table.cpp:18, so the source constructor accepts it, and the growth test at line 61 is then never true. The rational `LoadFactor` cannot be NaN, so the model refuses every load factor outside (0, 1] and does not model that acceptance.
- Integers are unbounded. The 32-bit range of keys, of `num_keys_` and of the bucket count is not modelled, nor is overflow of `capacity * kGrowthCoefficient`.
- The `double` load factor is an exact rational `num / den` with a positive denominator. The growth test compares `numKeys * den >= buckets * num`. Rounding in the floating-point division is not modelled.
- The constructor's `std::logic_error`s become `Result.Failure` values. The exception mechanism itself is not modelled.
- `std::vector` storage reservation (`buckets_.capacity()`) is not logical state of the table. It appears only as the `reserved` parameter of `AsWritten.PutAsWritten`.
- `std::list` node management, and the hashing inside the `std::unordered_set` returned by `keys()`, are not modelled. Buckets are sequences, and `keys()` returns a Dafny `set<int>`.
- String contents are opaque.
- `HashTable.Values`: the contract states the count of values and which strings occur among them. It does not state how often each string occurs per key. The order is bucket after bucket, as in the source, but the contract does not promise that order.
- `BucketArray.Rehash` inserts the entries into the new array in a different order from a front-to-back sweep. That changes only the order of entries within a bucket. Within-bucket order carries no meaning, and the map is the same.
- Growth happens at most once per Put, as in the source. A single growth can leave keys / buckets at or above the load factor, and the next Put grows again.

## Findings

| source | as written | input that shows it | evidently intended | confidence | as-written member | corrected member |
|---|---|---|---|---|---|---|
| src/hash_table.cpp:44-59 | Put appends a new pair even when the key is already in the bucket | 4 buckets, load factor 1: Put(5, "x"), Put(5, "y") leaves [(5, "x"), (5, "y")] in bucket 1, and Search(5) returns "x" | a re-put overwrites the value in place, and Search(5) returns "y" | high; not executed | AsWritten.PutAsWritten, shown by AsWritten.RePutShadowsNewValue | HashTable.Put (Buckets.Upsert) |
| src/hash_table.cpp:44-46 | `num_keys_` grows only when the key's bucket was empty | 4 buckets, load factor 1: Put(1, "a"), Put(5, "b") stores both keys in bucket 1, but size is 1 | every new key is counted, so size is 2 | high; not executed | AsWritten.PutAsWritten, shown by AsWritten.CollisionNotCounted | HashTable.Put |
| src/hash_table.cpp:61-65 | growth resizes the vector and does not rehash, so entries keep their old indices | 1 bucket, load factor 1: Put(1, "a") grows to 2 buckets; key 1 now hashes to bucket 1, but the entry stays in bucket 0, so Search(1) returns None | every entry is rehashed into the new array, so Search(1) returns "a" | high; not executed | AsWritten.PutAsWritten, shown by AsWritten.GrowthLosesEntry | HashTable.Grow (BucketArray.Rehash) |
| src/hash_table.cpp:64 | the new size is `buckets_.capacity() * 2`, taken from the reserved storage, not the bucket count | 1 bucket with storage reserved for 3: Put(1, "a") gives 6 buckets. The divergence is latent: this class only calls `resize(n)` on an empty vector and `resize(2 * capacity())`, after which mainstream standard libraries keep `capacity() == size()`, so it shows only where an implementation reserves more than it is asked for | the bucket count is doubled, giving 2 buckets | medium (latent; depends on the allocator's reservation); not executed | AsWritten.PutAsWritten, shown by AsWritten.GrowthFollowsReservation | HashTable.Grow |
| src/hash_table.cpp:74-84 | the loop returns None after the first entry when that entry's key does not match | keys 1 and 5 chained in bucket 1 of 4: Remove(5) returns None and removes nothing | the whole bucket is scanned, so Remove(5) returns "b" | high; not executed | AsWritten.RemoveAsWritten, shown by AsWritten.RemoveStopsAtFirstEntry | HashTable.Remove (Buckets.Delete) |
| src/hash_table.cpp:74-85 | on an empty bucket, control runs off the end of a function that returns a value | same table: Remove(0) looks at the empty bucket 0 | return None and leave the table unchanged | high; not executed | AsWritten.RemoveAsWritten, shown by AsWritten.RemoveFallsOffEmptyBucket | HashTable.Remove |
| src/hash_table.cpp:77-81 | a successful removal never decrements `num_keys_` | same table: Remove(1) unlinks key 1, leaving one key, but size stays 2 | size drops to 1 | high; not executed | AsWritten.RemoveAsWritten, shown by AsWritten.RemoveKeepsCount | HashTable.Remove |
