# HashMap — a verified model of a separate-chaining hash map

This project models the `HashMap` class of `index.js`. It is a hash map from
string keys to arbitrary values, built by hand with separate chaining. It keeps:

- an array of buckets, where each bucket is an ordered list of `[key, value]` pairs;
- a pair counter `size`;
- a load factor.

The model proves what each operation does to that state.

- `hashing.dfy` (module `Hashing`) holds the bucket-index function.
  - The function is a polynomial rolling hash, base 31, over the key's UTF-16
    code units. It is reduced modulo the current bucket count after every step.
  - Lemmas show that it is the polynomial taken modulo the capacity once.
  - They also show where a key's index goes when the capacity doubles.
- `buckets.dfy` (module `Buckets`) is the table as a value.
  - **One bucket:** the scans of `set`, `get`, `has` and `remove` (`IndexOf`, `Put`, `Find`, `Delete`).
  - **Whole table, no growth:** the same operations over the whole table (`Insert`, `Lookup`, `Present`, `Erase`).
  - **Traversal:** the order in which `keys`, `values` and `entries` visit pairs (`Flatten`).
  - **Growth:** what `_growBuckets` builds (`Grow`), and the whole of `set` including growth (`Assign`).
  - `Find`, `Lookup`, `Present` and `Assign` are the functions that the contracts of `Get`, `Has` and `Set` name. Each is defined by its body and carries no contract of its own. What they mean is stated by the lemmas about them:
    - `Find`: the `PutOther`, `DeleteOther`, `DeleteFindsRest` and `DeleteThenFind` rows;
    - `Lookup` and `Present`: the `GetAfter*` and `GetOther*` rows;
    - `Assign`: the `Assign*`, `GetAfterAssign` and `GetOtherAfterAssign` rows.
  - The lemmas state how these operations relate:
    - what a key finds after a set, a remove or a growth;
    - that no pair is lost or duplicated, as a multiset;
    - the pair count;
    - the placement invariant, and what growth does to it.
- `hashmap.dfy` (module `HashMaps`) is the class.
  - `HashMap<V>` has a `buckets: seq<seq<(Key, V)>>` field, a `size: nat` field, and a constant load factor `loadNum / loadDen`.
  - Its methods update the fields in place with the same loops as the source.
  - Each method is proved against the table functions of `Buckets`.
  - The object invariant `Valid()` says three things: there is a bucket, the load factor's denominator is positive, and `size` counts the stored pairs.
- `demo.dfy` (module `Demo`) holds client runs.
  - It replays the usage script at the end of `index.js` and proves the values that script logs.
  - Further runs show the consequences of growth and of repeated keys:
    - a key becomes unreachable (`LostAfterGrowth`, `OtherKeyLost`);
    - a stale value comes back (`StaleAfterGrowth`);
    - `remove` reports success while `get` still finds a value (`RemoveLeavesStale`).
- `wrappers.dfy` holds the `Option` type that stands for the `null` that `get` returns.

## How growth behaves

The model follows the code, which does not rehash on growth. `_growBuckets` computes each pair's new index with `this.hash(key)`,
which reads `this.buckets.length` (index.js:12, 142). At that point the field
still holds the old array; the new array is stored only afterwards
(index.js:151). So every index is below the old capacity, and
`% newCapacity` changes nothing.

The model captures this in `Buckets.Grow`:

- New bucket `i` holds, in traversal order, the pairs whose key hashes to `i`
  against the OLD capacity.
- If the table was placed (every pair sat in the bucket its key hashes to),
  then bucket `i` is unchanged for `i` below the old capacity. The upper half
  is empty (`GrowPlaced`).
- After a growth, a key hashes to its old index or its old index plus the old
  capacity (`HashAfterDoubling`). In the second case `get`, `has` and `remove`
  no longer see it, whatever the table held (`GrowLosesUpperKeys`, `GetAfterGrow`,
  `GetAfterAssign`).
- `remove` takes out only the first pair with the key. When the key is stored
  twice, `remove` reports success and `get` still finds the second pair
  (`GetAfterEraseRepeated`, `Demo.RemoveLeavesStale`).
- Setting such a key again stores a second pair for it, and `size` counts both
  (`Demo.StaleAfterGrowth`).

For this reason the model proves neither of these:

- that every key stays retrievable after growth;
- that `size` equals the number of distinct keys.

The class invariant is what the code does keep: `size` is the number of stored
pairs.

Two other behaviours of the code that a reader may not expect:

- `clear()` always installs 16 buckets (index.js:95). It does not use the
  capacity the map was constructed with.
- Growth never re-orders pairs across buckets by a new hash. Traversal order
  after a growth is therefore determined: it is the regrouping `Grow` describes.

## Model

| member | source | states |
|---|---|---|
| Hashing.RollingHash | index.js:8-15 | the index of a key is below the bucket count, and the empty key has index 0 |
| Hashing.RollingHashIsPolyMod | index.js:8-15 | reducing after every step gives the same index as reducing the full base-31 polynomial of the code units once |
| Hashing.HashAfterDoubling | index.js:136-142 | against twice the capacity, a key's index is its old index or its old index plus the old capacity |
| Buckets.IndexOf | index.js:24-30 | the scan stops at the first pair with the key; it finds none exactly when no pair has the key |
| Buckets.Put | index.js:23-34 | an existing key's pair gets the new value in place and no other pair changes; a new key's pair is appended; either way the key then finds the value |
| Buckets.Delete | index.js:78-85 | the first pair with the key is spliced out and the remaining pairs keep their order; without such a pair the bucket is unchanged |
| Buckets.PutOther | index.js:23-34 | setting one key does not change what any other key finds in the bucket |
| Buckets.DeleteOther | index.js:78-85 | removing one key does not change what any other key finds in the bucket |
| Buckets.DeleteFindsRest | index.js:78-85 | after the splice, the key is found among the pairs that followed the removed one |
| Buckets.DeleteThenFind | index.js:78-85 | in a bucket without a repeated key, a removed key is no longer found |
| Buckets.DeletePermutes | index.js:81 | the splice takes exactly the matched pair out of the bucket's multiset |
| Buckets.PutPermutes | index.js:27-34 | the bucket gains the new pair and, for an existing key, loses exactly the pair it replaced |
| Buckets.PutDistinct | index.js:23-34 | setting a key never makes a bucket hold that key twice |
| Buckets.Flatten | index.js:123-133 | the traversal yields exactly as many pairs as the buckets hold |
| Buckets.KeysOf | index.js:99-109 | keys() has one entry per traversed pair, and entry i is the key of pair i |
| Buckets.ValuesOf | index.js:111-121 | values() has one entry per traversed pair, and entry i is the value of pair i |
| Buckets.FlattenSkipEmpty | index.js:101-106 | traversal skips empty buckets |
| Buckets.FlattenFillLast | index.js:123-133 | filling an empty bucket with only empty buckets after it appends that bucket's pairs to the traversal |
| Buckets.EmptyTableCount | index.js:2-6 | a fresh or cleared table holds no pair and traverses to nothing; it is well formed exactly when it has a bucket |
| Buckets.CountUpdate | index.js:34-35 | replacing one bucket changes the pair count by the difference of the two bucket lengths |
| Buckets.FlattenUpdate | index.js:27-34 | replacing one bucket changes the multiset of all pairs by exactly that bucket's change |
| Buckets.Insert | index.js:17-35 | a set without growth changes only the key's bucket, and adds one pair exactly when the key was absent |
| Buckets.Erase | index.js:72-85 | a remove changes only the key's bucket, and drops one pair exactly when the key was present |
| Buckets.GetAfterInsert | index.js:17-55 | after a set without growth, get returns the value just set |
| Buckets.GetOtherAfterInsert | index.js:17-55 | a set without growth does not change what get returns for another key |
| Buckets.GetAfterErase | index.js:42-88 | when the key's bucket holds no repeated key, get after remove returns null; nothing is required of the other buckets, so this holds after growth too |
| Buckets.GetAfterEraseRepeated | index.js:42-88 | after remove of a present key, get answers from the pairs after the removed one, and finds a value exactly when the bucket held the key a second time |
| Buckets.GetOtherAfterErase | index.js:42-88 | a remove does not change what get returns for another key |
| Buckets.ErasePermutes | index.js:72-85 | removing a present key takes exactly its first pair out of the multiset of all pairs |
| Buckets.InsertPermutes | index.js:17-35 | a set adds the new pair to the multiset of all pairs and, for an existing key, removes exactly the replaced pair |
| Buckets.InsertPlaced | index.js:17-35 | a set without growth keeps every pair in the bucket its key hashes to |
| Buckets.InsertWellFormed | index.js:17-35 | a set without growth keeps the table placed and free of repeated keys within a bucket |
| Buckets.EraseWellFormed | index.js:72-85 | a remove keeps the table placed and free of repeated keys within a bucket |
| Buckets.Select | index.js:139-147 | growth puts nothing into a bucket at or above the old capacity |
| Buckets.SelectMembers | index.js:139-147 | a pair lands in new bucket i exactly when it was stored and its key hashes to i against the old capacity |
| Buckets.RegroupExtend | index.js:141-146 | one step of the growth loop appends the visited pair to the new bucket its old-capacity hash names |
| Buckets.RegroupPermutes | index.js:135-152 | regrouping a run of pairs neither loses nor adds a pair |
| Buckets.RegroupSnoc | index.js:142-146 | regrouping one more pair appends it to the end of the new bucket its old-capacity hash names, leaving every other bucket as it was |
| Buckets.Grow | index.js:135-152 | growth always doubles the bucket count |
| Buckets.GrowPermutes | index.js:135-152 | growth keeps the multiset of pairs and the pair count |
| Buckets.GrowUpperHalfEmpty | index.js:135-152 | after growth the upper half of the buckets is always empty |
| Buckets.SelectPlacedPrefix | index.js:139-147 | for a placed table, the pairs of the first k buckets that hash to i are bucket i if i < k, and nothing otherwise |
| Buckets.GrowPlaced | index.js:135-152 | growing a placed table keeps bucket i for every i below the old capacity and appends as many empty buckets |
| Buckets.GetAfterGrow | index.js:42-55 | after a placed table grows, a key whose doubled-capacity hash is below the old capacity finds what it found before; any other key finds nothing |
| Buckets.AssignPresent | index.js:23-31 | a set of a present key overwrites the first pair with the key at its position; there is no growth and no other pair or bucket changes |
| Buckets.AssignCapacity | index.js:33-38 | a set doubles the bucket count exactly when the key was absent and the new count exceeds capacity × num / den |
| Buckets.AssignCount | index.js:33-39 | a set adds one pair exactly when the key was absent, whether it grows the table or not |
| Buckets.GrowLosesUpperKeys | index.js:135-152 | on any table, a key whose index against the doubled capacity is in the upper half is not found after growth |
| Buckets.GetAfterAssign | index.js:17-55 | on a placed table, get after set returns the value, except that it returns null when the set grew the table and the key's new index is in the upper half |
| Buckets.GetOtherAfterAssign | index.js:17-55 | on a placed table, set leaves what get returns for another key unchanged, except that the other key is lost when the set grew the table and that key's new index is in the upper half |
| HashMaps.HashMap.constructor | index.js:2-6 | a new map has the given number of empty buckets, no pairs and the given load factor |
| HashMaps.HashMap.Default | index.js:2-6 | the default map has 16 empty buckets and load factor 3/4 |
| HashMaps.HashMap.Hash | index.js:8-15 | the accumulator loop computes RollingHash of the key against the current bucket count |
| HashMaps.HashMap.Set | index.js:17-40 | the new buckets are Assign of the old ones; size grows by one exactly when the key was absent; the invariant is kept |
| HashMaps.HashMap.Get | index.js:42-55 | returns the value of the first pair with the key in its bucket, or None |
| HashMaps.HashMap.Has | index.js:57-70 | returns whether the key is in its bucket, which is whether get finds a value |
| HashMaps.HashMap.Remove | index.js:72-88 | reports whether the key was present; the buckets become Erase of the old ones; size drops by one exactly when a pair was removed |
| HashMaps.HashMap.Length | index.js:90-92 | returns the number of stored pairs, which is the length of the traversal |
| HashMaps.HashMap.Clear | index.js:94-97 | 16 empty buckets and size 0, whatever the constructed capacity |
| HashMaps.HashMap.Keys | index.js:99-109 | the keys of the traversal in bucket order, one per stored pair |
| HashMaps.HashMap.Values | index.js:111-121 | the values of the traversal in bucket order, one per stored pair |
| HashMaps.HashMap.Entries | index.js:123-133 | the traversal of all pairs in bucket order, one per stored pair |
| HashMaps.HashMap.GrowBuckets | index.js:135-152 | the buckets become Grow of the old ones and size is unchanged |
| HashMaps.HashMap.PushBucket | index.js:141-147 | the inner growth loop extends the regrouping by one old bucket's pairs |
| Demo.DemoHashes | index.js:155-161 | "key1" through "key4" have indices 2 through 5 in a 16-bucket map |
| Demo.SetIntoEmptyBucket | index.js:17-39 | a set of a key into an empty bucket, below the load, makes that bucket the single new pair |
| Demo.EraseOnlyPair | index.js:72-85 | removing the only pair of a bucket empties that bucket |
| Demo.ScriptSets | index.js:155-158 | the script's three sets fill buckets 2, 3 and 4 of the default map and do not grow it |
| Demo.ScriptTraversal | index.js:163-165 | the traversal of the filled map is key1, key2, key3 with their values |
| Demo.ScriptReads | index.js:160-164 | get("key2") is "value2", has("key4") is false, and keys() and values() are in insertion order |
| Demo.ScriptTraversalAfterRemove | index.js:166-168 | after remove("key2") the traversal is key1, key3 |
| Demo.ScriptRemove | index.js:166-168 | remove("key2") finds the key; afterwards get("key2") is null and keys() is key1, key3 |
| Demo.UsageScript | index.js:155-171 | the usage script logs value2, false, 3, the three keys, values and entries, then null and key1, key3, then 0 and no keys |
| Demo.KeyAHashes | index.js:8-15 | "a" has index 0 against 1 bucket and index 1 against 2 or 4 buckets |
| Demo.FirstSetGrows | index.js:33-38 | the first set into a one-bucket map with load factor 3/4 grows it, and the pair stays in bucket 0 |
| Demo.GrowTwoPairs | index.js:135-152 | growing two buckets that each hold a pair for "a" puts both pairs into bucket 1 of 4 |
| Demo.SecondSetGrows | index.js:17-40 | setting "a" again after that growth stores a second pair and grows to 4 buckets |
| Demo.OtherKeyLost | index.js:33-55 | in a one-bucket map with load factor 1 holding "a", setting "b" grows the table, and get("a") becomes null |
| Demo.LostAfterGrowth | index.js:42-70 | after the first growth, get("a") is null and has("a") is false, though the map counts one pair |
| Demo.StaleTable | index.js:42-55 | a table holding two pairs for "a" in one bucket counts two pairs and get answers with the first |
| Demo.StaleRun | index.js:17-55 | setting "a" to 1 and then 2 leaves two pairs for it, and get returns the stale 1 |
| Demo.StaleRemove | index.js:72-88 | on the table with two pairs for "a", remove finds the key, and get then returns the second value, 2 |
| Demo.RemoveLeavesStale | index.js:72-88 | through the class, after the stale run remove("a") returns true and get("a") returns 2 |
| Demo.StaleAfterGrowth | index.js:17-109 | the map then has length 2, keys() lists "a" twice, and get("a") returns 1 |

## Left out

- The `console.log` calls of the usage script are output only. `Demo.UsageScript` returns the logged values as out-parameters instead.
- The load factor is a JavaScript float. The model represents it as the fraction `loadNum / loadDen` with `loadDen > 0`, and the growth test as `size * loadDen > capacity * loadNum`. Floating-point rounding in `capacity * loadFactor` is not modelled.
- `loadFactor` is a writable property in the source. The model keeps it constant after construction, because no method of the class writes it.
- JavaScript sparse arrays distinguish a bucket that was never created (`undefined`) from an empty one. No operation can observe the difference, so every absent bucket is an empty sequence.
- Aliasing is not modelled. `entries()` hands out the internal `[key, value]` arrays, and a caller that mutated one would change the map. The model returns pair values.
- With a capacity of 0, `hash` computes `% 0` for any non-empty key, which gives `NaN`; only the empty key still gets 0. The constructor therefore requires a positive capacity, and a non-integer or negative capacity is not representable.
- Keys are sequences of UTF-16 code units in `[0, 65536)`, the values `charCodeAt` returns. Non-string keys and string normalisation are not modelled.
- Dynamic typing is not modelled. Keys are always strings, and the `===` comparisons of keys become equality of code-unit sequences. Values are never compared by the source.
- `HashMaps.HashMap.Hash` requires a non-empty bucket array instead of modelling the `NaN` result of `% 0` for non-empty keys.
- `HashMaps.HashMap.constructor` accepts any positive capacity. A JavaScript array length must be below 2^32, so `new Array(initialCapacity)` throws `RangeError` for a capacity of 2^32 or more. That error path is not modelled.
- `HashMaps.HashMap.GrowBuckets` always doubles the table. In the source, `new Array(newCapacity)` throws `RangeError` once the table already has 2^31 buckets. At that point `set` has already pushed the pair and incremented `size`, so it leaves the map with the pair stored and the table not grown. That error path is not modelled, because the model's integers are unbounded.
- `Buckets.GrowPlaced` states the "old bucket i is kept" property only for tables where every pair sits in the bucket its key hashes to. After one growth a table is no longer in that state, and a second growth moves pairs. `Buckets.Grow` and `Buckets.SelectMembers` describe the general case.
