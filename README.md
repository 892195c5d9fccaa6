# itis::HashTable in Dafny

A model of `itis::HashTable` (`src/hash_table.cpp`), a separate-chaining hash
table from 32-bit integer keys to strings. The bucket array `buckets_` is a
vector of chains. A key lives in chain `hash(key, capacity)`, and a key appears
at most once. `num_keys_` counts the entries. After an insertion, the table
grows when `num_keys_ / capacity` reaches the load factor fixed at
construction.

Layout:

- `wrappers.dfy`, module `Wrappers`: `Option` (for `std::optional`) and
  `Result`.
- `buckets.dfy`, module `Buckets`: the pure layer.
  - The key type `Int32` and the sentinel `Int32Max` for `INT32_MAX`.
  - `Entry` for `std::pair<int, std::string>` and `Bucket` for a chain.
  - `HashFn`: the contract of the hashing collaborator `utils::hash`. Every
    key goes to an index in `[0, capacity)`.
  - The one-bucket scan `Find` and the abstraction `Lookup`.
  - The invariants `WellFormed`, `Represents` and `Stores`, with the lemmas
    that say how each single step keeps them.
- `hash_table.dfy`, module `HashTables`: the class `HashTable`.
  - Fields `buckets`, `numKeys`, `loadFactor`, `hash`, and a ghost map
    `Contents` that the table stands for.
  - Invariant `Valid()`. Every operation of `src/hash_table.cpp` is a method
    or function of the class.
  - Module-level methods hold the loops: the resize (`Rehash`, `MoveBucket`),
    the traversal of `values()` (`Collect`) and the bucket scan shared by
    `Put` and `Remove` (`Scan`).
- `as_written.dfy`, module `AsWritten`: `Put` and `Remove` as the code is
  written, with inputs that show where they differ from the corrected class
  (see Findings).
- `scenarios.dfy`, module `Scenarios`: client methods that drive the
  corrected class through a worked example (capacity 4, load factor 0.75,
  keys 1 to 4).

The model follows the intended behaviour, and the code's defects are logged
under Findings.

### Design choices

- **Hash.** `utils::hash` is not shown, so the table takes one as a
  constructor argument. Every result holds for any function of type `HashFn`.
- **Growth.** The growth constant is 2 (`GrowthCoefficient`). A resize
  multiplies the number of buckets by it.
- **Load factor.** The `double` load factor is a `real`. The growth test is
  written as in the code: `num_keys / capacity >= load_factor`.

### Growth on reaching the load factor

The usual worked example (capacity 4, load factor 0.75, three insertions)
expects the capacity to still be 4 after the third insertion. The growth test
at `src/hash_table.cpp:47` uses `>=`, and 3 / 4 reaches 0.75, so the third
insertion already grows the table to 8. The model follows the code:
`Scenarios.ThreeKeys` proves capacity 8 after three keys, and
`Scenarios.WorkedExample` proves capacity 8 after the fourth.

## Model

| member | source | states |
|---|---|---|
| HashTables.HashTable.constructor | src/hash_table.cpp:11-21 | for a capacity above zero and a load factor in (0, 1]: a valid table of `capacity` empty buckets holding the empty map, with that load factor and hash |
| HashTables.HashTable.Create | src/hash_table.cpp:11-21 | capacity <= 0 fails with InvalidCapacity, checked first; a load factor outside (0, 1] then fails with InvalidLoadFactor; otherwise a fresh valid empty table of `capacity` buckets |
| Buckets.TotalOfEmpty | src/hash_table.cpp:19 | `capacity` empty buckets hold no entry |
| HashTables.HashTable.Index | src/hash_table.cpp:7-9 | the bucket index of a key, for the CURRENT number of buckets, always lies inside the bucket array |
| Buckets.Find | src/hash_table.cpp:26-31 | the scan of a bucket finds nothing exactly when no entry carries the key |
| Buckets.FindAt | src/hash_table.cpp:26-29 | in a bucket without repeated keys, the scan returns the value of the one entry that has the key |
| Buckets.FindSome | src/hash_table.cpp:26-29 | a value the scan returns belongs to an entry that carries the key |
| HashTables.HashTable.Search | src/hash_table.cpp:23-32 | returns the value the abstract map holds for the key (none when absent), which is also what a scan of bucket hash(key) finds |
| HashTables.Scan | src/hash_table.cpp:38-43 | returns the position of the first entry with the key in a bucket, or the bucket's length when no entry has it |
| HashTables.HashTable.Put | src/hash_table.cpp:34-64 | the map becomes old map[key := value] and the table stays valid; for a present key: same count, same capacity, only that key's entry changed, in place; for an absent key: count + 1, the entry appended to its bucket, and when (count + 1) / capacity >= load factor the capacity becomes twice the old one, with the array rebuilt from the entries |
| HashTables.Overloaded | src/hash_table.cpp:47 | the growth test num_keys / capacity >= load_factor holds exactly when num_keys >= load_factor * capacity |
| Buckets.StoreUpdate | src/hash_table.cpp:37-42 | replacing the value of the present key's entry stores old map[key := value], with an unchanged count |
| Buckets.UpdateKey | src/hash_table.cpp:37-42 | replacing the value of the entry that carries the key keeps the array well formed and its total, and changes the lookup of that key alone |
| Buckets.UpdateAt | src/hash_table.cpp:40 | replacing the value at the key's position keeps the bucket free of repeated keys and every entry in place |
| Buckets.StoreInsert | src/hash_table.cpp:44-45 | appending an entry for an absent key stores old map[key := value] with a count one higher |
| Buckets.InsertFresh | src/hash_table.cpp:44 | appending an entry whose key is absent keeps the array well formed, raises its total by one, and makes that key, and no other, found |
| Buckets.AppendFresh | src/hash_table.cpp:44 | appending a fresh key's entry to its own bucket keeps the bucket free of repeated keys and placed |
| Buckets.FindAppend | src/hash_table.cpp:44 | scanning a bucket with an entry appended: an earlier match wins, otherwise the new entry matches its own key |
| HashTables.HashTable.Grow | src/hash_table.cpp:47-63 | the resize: the capacity becomes GrowthCoefficient times the old one, strictly larger; the same map and count; the table is valid for the new capacity; the array is every old entry distributed by hash(key, new capacity) |
| HashTables.Rehash | src/hash_table.cpp:50-56 | a fresh array of `cap` buckets, built by visiting the old buckets and entries in order; it holds the same number of entries and equals the distribution of the old entries, indexed for the new capacity |
| HashTables.MoveBucket | src/hash_table.cpp:52-55 | moving one old bucket's entries, in order, into the new array extends the partial rehash by that bucket and adds its entries to the total |
| Buckets.RehashStep | src/hash_table.cpp:53-54 | moving one more entry to bucket hash(key, new capacity) keeps the new array well formed and makes it find exactly the entries visited so far |
| Buckets.RehashNext | src/hash_table.cpp:51-52 | having moved all of old bucket i is having started old bucket i + 1 |
| Buckets.RehashDone | src/hash_table.cpp:58-61 | the completed new array, with the same number of entries, stores the same map with the same count: swapping it in loses and duplicates nothing |
| Buckets.DistributeStep | src/hash_table.cpp:53-54 | distributing one more entry appends it to bucket hash(key, cap) and changes nothing else |
| Buckets.KeysUnique | src/hash_table.cpp:44 | in a well-formed array, two entries with the same key are the same entry: no key is stored twice anywhere in the table |
| HashTables.HashTable.Remove | src/hash_table.cpp:66-87 | returns the key's old value (none when absent); the map loses the key; the count drops by one exactly when the key was present; bucket hash(key) loses exactly that key's entry, and nothing changes for an absent key |
| Buckets.StoreDelete | src/hash_table.cpp:79-81 | taking the key out of its bucket stores old map minus the key, with a count one lower exactly when the key was present |
| Buckets.DeleteKey | src/hash_table.cpp:79-81 | taking the key out of its bucket keeps the array well formed, lowers the total by one exactly when the key was present, and makes that key, and no other, not found |
| Buckets.WithoutAt | src/hash_table.cpp:80 | in a bucket without repeated keys, removing a key that sits at position j leaves the entries before and after j, in order |
| Buckets.WithoutFind | src/hash_table.cpp:80 | after removing a key from a bucket, that key is not found and every other key is found as before |
| Buckets.WithoutCount | src/hash_table.cpp:80 | removing a key from a bucket without repeated keys deletes one entry when the key is there and none otherwise |
| Buckets.WithoutMembers | src/hash_table.cpp:80 | removing a key keeps exactly the entries with other keys |
| Buckets.WithoutAbsent | src/hash_table.cpp:80 | removing a key that no entry carries leaves the bucket unchanged |
| HashTables.HashTable.ContainsKey | src/hash_table.cpp:89-92 | true exactly when the key is in the map |
| HashTables.HashTable.IsEmpty | src/hash_table.cpp:94-96 | true exactly when the map is empty |
| HashTables.HashTable.Size | src/hash_table.cpp:98-100 | the number of keys in the map |
| HashTables.HashTable.Capacity | src/hash_table.cpp:102-104 | the number of buckets, never below one |
| HashTables.HashTable.LoadFactor | src/hash_table.cpp:106-108 | exactly the load factor fixed at construction, which lies in (0, 1] |
| HashTables.HashTable.Keys | src/hash_table.cpp:110-118 | exactly the set of keys of the map |
| Buckets.VisitStep | src/hash_table.cpp:113-114 | visiting one more entry adds exactly its key, with its value, to what the traversal has seen |
| Buckets.VisitNext | src/hash_table.cpp:112-113 | having visited all of bucket i is having visited nothing of bucket i + 1 |
| Buckets.VisitFresh | src/hash_table.cpp:112-114 | the entry about to be visited carries a key the traversal has not seen yet |
| HashTables.HashTable.Values | src/hash_table.cpp:120-128 | one value per stored key: as many values as keys, each the value of a stored key, every stored key accounted for exactly once |
| HashTables.Collect | src/hash_table.cpp:121-127 | the nested traversal collects as many values as the array holds entries, each paired with a distinct visited key, all visited keys listed |
| Buckets.ListStep | src/hash_table.cpp:123-124 | appending the next entry's value keeps the listing exact and free of repeated keys |
| Buckets.ListNext | src/hash_table.cpp:122-123 | finishing bucket i is starting bucket i + 1 for the listing |
| Buckets.ListDone | src/hash_table.cpp:120-128 | a finished listing of a table that stores a map gives each of its keys once, with its value |
| AsWritten.ResizeAsWritten | src/hash_table.cpp:50-54 | the resize as written: kGrowthCoefficient MORE buckets, each entry indexed for the OLD capacity |
| AsWritten.PutUpdateLost | src/hash_table.cpp:38-41 | as written, Put of a present key leaves the table, and the key's old value, unchanged |
| AsWritten.PutUpdateLostExample | src/hash_table.cpp:38-41 | as written, storing "b" over 1 -> "a" still finds "a" |
| AsWritten.ResizeLosesKeyExample | src/hash_table.cpp:47-54 | as written, a resize leaves the key just stored where a search with the new capacity does not look |
| AsWritten.PutAsWritten | src/hash_table.cpp:34-64 | Put as written: a present key leaves the table as it was; an absent key is appended to its bucket and counted, and when the count reaches the load factor times the capacity the bucket array is replaced by the as-written resize |
| AsWritten.RemoveAsWritten | src/hash_table.cpp:66-87 | Remove as written: when no entry matched, it removes every `(INT32_MAX, "")` entry, lowers the count and returns ""; for a present key other than INT32_MAX it returns none and changes nothing; for a present INT32_MAX it removes that entry, lowers the count and returns its value |
| AsWritten.RemoveAll | src/hash_table.cpp:80 | `list::remove` of a pair: exactly the entries unequal to the pair remain, each as often as before, and none grows the bucket |
| AsWritten.RemoveAllAppend | src/hash_table.cpp:80 | `list::remove` keeps the relative order of the entries it leaves: removing from a concatenation is removing from each part |
| AsWritten.RemovePresentKept | src/hash_table.cpp:72-86 | as written, Remove of a present key other than INT32_MAX removes nothing and returns none |
| AsWritten.RemoveAbsentMiscounts | src/hash_table.cpp:70-83 | as written, Remove of an absent key returns the empty string and lowers the count |
| AsWritten.RemoveExample | src/hash_table.cpp:66-87 | as written, on 1 -> "a": Remove(1) changes nothing and returns none; Remove(2) returns "" and the count drops to 0 while the entry stays |
| Scenarios.TwoKeys | src/hash_table.cpp:44-47 | capacity 4, load factor 0.75: after keys 1 and 2 the size is 2 and the capacity still 4 (the first step of the worked example) |
| Scenarios.ThreeKeys | src/hash_table.cpp:44-47 | capacity 4, load factor 0.75: after keys 1, 2, 3 the size is 3 and the capacity 8 |
| Scenarios.WorkedExample | src/hash_table.cpp:34-64 | a fourth key leaves the capacity at 8; keys 1 and 4 keep their values |
| Scenarios.ResizeKeepsKey | src/hash_table.cpp:47-63 | one bucket and load factor 1: after storing 1 -> "a" the capacity is 2 and key 1 is found |
| Scenarios.RemoveTwice | src/hash_table.cpp:66-87 | removing a present key returns its value; removing it again returns none; the size is 0 |

## Left out

- `utils::hash`: its definition is not part of this model. The table takes
  any function that sends every key into `[0, capacity)`.
- Growth: `src/hash_table.hpp`, where `kGrowthCoefficient` is declared, is not
  part of this model. The corrected resize multiplies the capacity by
  `GrowthCoefficient` = 2. The code adds `kGrowthCoefficient` instead (:50);
  that form is kept only in `AsWritten.ResizeAsWritten`.
- C++ memory of the resize:
  - the heap array `new std::vector<Bucket>[...]` and its leak (:50);
  - indexing `[0]` into an empty vector (:54), which is undefined behaviour;
  - `*new_buckets`, which copies only the first element of that array (:59).

  The model installs the rebuilt array as a whole. `AsWritten.ResizeAsWritten`
  keeps the `+ kGrowthCoefficient` size from :50 and the stale index from :53.
  It repairs :54 and :59.
- Copies of a bucket: `Search` and `Remove` scan a copy of the bucket.
  Copying has no effect on the result, so the model reads the field.
- `double`: the load factor is an exact `real`. Floating-point rounding in the
  growth test is not modelled.
- Integer widths: keys are 32-bit (`Int32`). `num_keys_` and the capacity are
  unbounded integers, so overflow of `int` and of the `static_cast<int>` of
  the size is not modelled.
- Exceptions: the constructor's `std::logic_error` messages become the
  `Error` values of `Create`.
- The `unordered_set` size hint in `keys()` (:111) has no observable effect
  and is not modelled.
- HashTables.HashTable.Keys: returns a set, so the order in which keys are
  inserted into the `unordered_set` is not stated.
- HashTables.HashTable.Values: states which values are returned, one per
  stored key, but not their order, which is bucket order and then chain order.
- Concurrency: the table is single-threaded.

## Findings

| source | as written | input that shows it | evidently intended | confidence | as-written member | corrected member |
|---|---|---|---|---|---|---|
| src/hash_table.cpp:38-41 | the scan binds each entry by copy (`auto pair`), so `pair.second = value` changes the copy | a bucket holding 1 -> "a", then Put(1, "b"): a search still finds "a" | the stored entry's value is replaced | high, not executed | AsWritten.PutUpdateLostExample | HashTables.HashTable.Put |
| src/hash_table.cpp:53 | the new index comes from `hash`, which reads the old `buckets_.size()` | with :54 and :59 repaired: one bucket, load factor 1, hash = key mod capacity, Put(1, "a"): the entry lands in bucket 0 of 3, while a search looks in bucket 1 | index each entry for the new capacity | high, not executed | AsWritten.ResizeLosesKeyExample | HashTables.Rehash |
| src/hash_table.cpp:79 | removes when the recorded key IS the sentinel `INT32_MAX` (key not found) | a bucket holding 1 -> "a": Remove(1) returns none and keeps the entry; Remove(2) returns "" and the count drops to 0 | remove when the key was found, and report absence otherwise | high, not executed | AsWritten.RemoveExample | HashTables.HashTable.Remove |
