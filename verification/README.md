# C-OOP-Container core in Dafny

This project models the two generic containers of the C-OOP-Container headers.

- `vector.h`: the dynamic array that `VECTOR_DEFINE_CUSTOM` stamps out for an element type.
- `hashmap.h`: the chained hash table that `HASHMAP_DEFINE_CUSTOM` stamps out for a key and value type, together with its default hash functions and the power-of-two capacity test of `hashmap_new_with_capacity`.

Both containers are immutable Dafny values, and each C operation is a pure function from the old value to the new one.

- A **vector** (`Vectors.Vector`) is its live contents `data[0..size)` plus its `capacity`.
  - The representation invariant is `size <= capacity` (`Vectors.Valid`).
  - Element equality is the instantiation's `equals`, passed as a parameter.
  - Element display is an abstract formatter.
  - The shifting loops of `insert` and `remove` and the scan of `index_of` are also given as methods, proved equal to the functions (`VectorLoops`).
- A **hash table** (`Hashmaps.Hashmap`) is its bucket array and its `size`.
  - The bucket array is a sequence of chains, each chain being the linked entries of one bucket in link order.
  - Every entry (`Chains.Entry`) carries its key, its value and the hash cached when it was linked.
  - The key hash is a parameter `K -> bv32`: a C `int` is modelled as its 32-bit two's-complement pattern.
  - The representation invariant `Hashmaps.Valid` has four parts:
    - the capacity is a power of two;
    - every entry caches its key's hash and sits in the chain that hash selects;
    - no chain repeats a key;
    - `size` counts the entries.
  - Every operation is related to `Hashmaps.Abstract`, the key/value map the table stands for.
  - The iterator and the display (`HashmapIteration`) are proved to visit the entries in bucket order, then link order.
- The default hashes are modelled on 32- and 64-bit bit-vectors, taking the two's-complement wrap-around that compilers produce for `int` overflow:
  - the string hash `hash * 31 + c` (`StringHash`);
  - the XOR of the two 32-bit halves of a 64-bit integer (`IntegerHash`).

`Options` holds the `Option` type, which stands for a NULL pointer result. `Text` holds the list rendering shared by both `display` functions.

## Model

| member | source | states |
|---|---|---|
| Vectors.New | vector.h:261-268 | a new vector is empty, holds the requested capacity and satisfies `size <= capacity` |
| Vectors.NewDefault | vector.h:287 | `vector_new` creates an empty vector of capacity 10 |
| Vectors.Grow | vector.h:126-129 | a full buffer grows to strictly more slots: twice as many, or one slot when there were none |
| Vectors.Push | vector.h:125-132 | `push` appends `x` after the old elements and keeps `size <= capacity`; the capacity doubles exactly when the buffer was full, and otherwise is unchanged |
| Vectors.Pop | vector.h:134-140 | `pop` fails exactly on an empty vector and leaves it alone; otherwise it drops exactly the last element |
| Vectors.Last | vector.h:142-147 | `last` is absent exactly when the vector is empty; otherwise it is the final element |
| Vectors.Get | vector.h:149-154 | `get` yields the element at `index` exactly when `0 <= index < size` (corrected guard, see Findings) |
| Vectors.Set | vector.h:180-186 | `set` succeeds exactly for `0 <= index < size`; it replaces only that element; on failure nothing changes |
| Vectors.Insert | vector.h:188-202 | `insert` succeeds exactly for `0 <= index <= size`; the elements before `index` keep their place, `x` is at `index` and the rest move one place right; it keeps `size <= capacity` |
| Vectors.Remove | vector.h:156-165 | `remove` succeeds exactly for `0 <= index < size`; the elements after `index` move one place left; on failure nothing changes |
| Vectors.Clear | vector.h:208-210 | `clear` empties the vector and keeps its capacity |
| Vectors.IndexOf | vector.h:167-174 | `index_of` is the least index whose element `equals` the value, and -1 exactly when none does |
| Vectors.Contains | vector.h:204-206 | `contains` holds exactly when some element `equals` the value |
| Vectors.RemoveElement | vector.h:176-178 | `remove_element` succeeds exactly when the value is contained, and then removes its first match only |
| Vectors.IteratorNext | vector.h:220-226 | `iterator_next` advances by one exactly while a further element exists, and otherwise leaves the cursor unchanged |
| Vectors.GetIterator | vector.h:212-218 | a fresh iterator's cursor sits before index 0 |
| Vectors.IteratorCurrent | vector.h:228-233 | `iterator_current` is present exactly when the cursor lies in `0..size`, and is then the element under the cursor |
| VectorLoops.RemoveShifting | vector.h:156-165 | the left-shifting loop of `remove` computes the same result as `Vectors.Remove` |
| VectorLoops.InsertShifting | vector.h:188-202 | the right-shifting loop of `insert` computes the same result as `Vectors.Insert` |
| VectorLoops.IndexOfScan | vector.h:167-174 | the scanning loop of `index_of` computes the same result as `Vectors.IndexOf` |
| VectorProperties.PushThenGetAndPop | vector.h:125-154 | after `push(x)`, `get(size)` and `last` are `x`, earlier indices read as before, and `pop` restores the contents |
| VectorProperties.InsertThenGetAndRemove | vector.h:149-202 | after `insert(i, x)`, `get(i)` is `x`, and `remove(i)` gives back the original contents |
| VectorProperties.RemoveThenGet | vector.h:149-165 | after `remove(i)`, `get(i)` reads what was at `i + 1` |
| VectorProperties.RemoveElementAbsent | vector.h:167-178 | with no matching element, `index_of` is -1, `contains` is false, and `remove_element` fails without change |
| VectorProperties.ReplayKeepsCapacity | vector.h:125-210 | from any constructed vector, every sequence of push, pop, set, insert, remove and clear keeps `size <= capacity` and never shrinks the capacity |
| VectorProperties.PushPopBalance | vector.h:125-140 | over pushes and pops, the size is the pushes minus the pops that succeeded |
| VectorProperties.IteratorVisitsAll | vector.h:212-233 | a fresh iterator's next/current loop yields every element once, in index order |
| VectorProperties.DisplayIsBracketedList | vector.h:114-123 | `display` writes `[`, the formatted elements separated by ", ", then `]`; an empty vector shows as `[]` |
| VectorProperties.ThreePushesDisplay | vector.h:114-132 | pushing 10, 20, 30 onto a new vector displays `[10, 20, 30]`, and `get(1)` is 20 |
| VectorProperties.ElevenPushesDoubleOnce | vector.h:125-132 | eleven pushes onto capacity 10 leave size 11 and capacity 20 |
| VectorProperties.PushAsWrittenOverrunsEmptyBuffer | vector.h:125-132 | with capacity 0, `push` as written leaves `size > capacity`; the corrected `push` allocates one slot |
| VectorProperties.GetAsWrittenReadsBeforeBuffer | vector.h:149-154 | the written guard of `get` lets index -1 through to slot -1; the corrected `get` rejects it |
| StringHash.Promote | hashmap.h:25 | a `char` below 0x80 promotes to its value; above that it sign-extends and keeps its low byte |
| StringHash.CStrLength | hashmap.h:24 | the walk stops at the first NUL byte |
| StringHash.HashCStrLoop | hashmap.h:21-29 | the `while (*str != '\0')` loop computes the fold of `hash * 31 + c` over the bytes before the terminator |
| StringHash.HashStopsAtNul | hashmap.h:21-29 | the string hash reads nothing past the terminator |
| StringHash.HashExtends | hashmap.h:21-29 | appending a character extends the hash by one `hash * 31 + c` step |
| StringHash.HashCStrExamples | hashmap.h:21-29 | "ab" hashes to 3105, "" to 0, and the single byte 0xFF to -1 |
| IntegerHash.Join | hashmap.h:31-45 | splitting a 64-bit word gives back its two 32-bit halves |
| IntegerHash.HashUint64Join | hashmap.h:39-45 | the 64-bit hash is the XOR of the halves, and it does not depend on which half is `parts[0]` |
| IntegerHash.HashUint64Zero | hashmap.h:39-45 | the hash is zero exactly when both halves are equal |
| IntegerHash.HashUint64Small | hashmap.h:39-45 | a value that fits in 32 bits hashes to itself |
| IntegerHash.HashInt64Examples | hashmap.h:31-37 | -1 and 2^32 + 1 hash to 0, and 5 hashes to 5 |
| PowerOfTwo.DoubleIsPowerOfTwo | hashmap.h:237 | doubling the capacity keeps it a power of two |
| PowerOfTwo.CapacityCheckSingleBit | hashmap.h:443-451 | every capacity the constructor's test accepts is a single bit below the sign bit |
| PowerOfTwo.CapacityCheckAcceptsBits | hashmap.h:443-451 | every single bit below the sign bit passes the test |
| PowerOfTwo.CapacityCheckSound | hashmap.h:443-451 | every capacity that passes the test is a power of two as a number |
| PowerOfTwo.CapacityCheckExamples | hashmap.h:443-451 | 0 and 10 are rejected, 8 and 16 are accepted, and every negative `int` is rejected |
| Chains.Find | hashmap.h:289-296 | the key-only chain walk of `get` finds nothing exactly when no entry has the key |
| Chains.Locate | hashmap.h:263-272 | the chain walk of `put` and `remove` finds the first entry with both the same cached hash and an equal key, and nothing exactly when there is none |
| Chains.Reverse | hashmap.h:246-252 | the order in which pushing onto the front of a chain leaves entries: the same entries, last visited first |
| Chains.Filter | hashmap.h:244-253 | an entry goes to new chain `j` exactly when its cached hash selects `j` |
| Chains.RelinkChains | hashmap.h:244-253 | after the relink loop, new chain `j` is the reversed list of the visited entries that select `j`, placed in front of what it held |
| Chains.RelinkMultiset | hashmap.h:244-253 | the relink loop loses and duplicates no entry |
| Hashmaps.New | hashmap.h:401-411 | a new table has `capacity` empty chains, size 0, and stands for the empty map |
| Hashmaps.NewValid | hashmap.h:401-411 | a table built with a power-of-two capacity satisfies the representation invariant for every hash function |
| Hashmaps.NewDefaultValid | hashmap.h:430 | `hashmap_new` builds a valid table of capacity 16 |
| Hashmaps.NewWithCapacity | hashmap.h:443-451 | a table is built exactly when the capacity passes the power-of-two test; it is then empty and its capacity is a power of two; otherwise the program exits |
| Hashmaps.LookupInSlot | hashmap.h:286-297 | in a valid table, a key's value is found by searching only the chain its hash selects |
| Hashmaps.Get | hashmap.h:286-297 | `get` yields exactly the value the table associates with the key, and nothing for a key it does not hold |
| Hashmaps.Contains | hashmap.h:321-323 | `contains` holds exactly when the key is in the table |
| Hashmaps.Resize | hashmap.h:236-255 | `resize` doubles the chains and keeps the size, the entries and the key/value map; each new chain is the reverse of the old entries selecting it; the invariant holds |
| Hashmaps.Put | hashmap.h:257-284 | after `put(k, v)` the table maps `k` to `v` and every other key as before; the size grows exactly when `k` was new; the capacity doubles exactly when the load factor was reached; the invariant holds |
| Hashmaps.Store | hashmap.h:261-283 | below the resize check: the value is overwritten when the key is present, a new entry is linked otherwise, and the capacity stays |
| Hashmaps.Remove | hashmap.h:299-319 | `remove(k)` succeeds exactly when `k` is present; the map then loses `k` only and the size drops by one; on failure nothing changes; the invariant holds |
| Hashmaps.Clear | hashmap.h:325-336 | `clear` empties every chain, keeps the capacity, and leaves the empty map |
| HashmapIteration.GetIterator | hashmap.h:338-345 | a fresh iterator points at no entry |
| HashmapIteration.Current | hashmap.h:362-368 | the entry `iterator_current_key`/`iterator_current_value` read lies in the bucket scanned last |
| HashmapIteration.IteratorNext | hashmap.h:347-360 | `iterator_next` keeps the iterator well formed and, on success, points at an entry |
| HashmapIteration.NextAdvances | hashmap.h:347-368 | each successful `next` yields the first entry not yet visited; a failed one means all were visited |
| HashmapIteration.IteratorVisitsAll | hashmap.h:338-368 | a fresh iterator visits every entry exactly once, `size` entries in bucket then link order, with distinct keys, carrying exactly the table's map |
| HashmapIteration.DisplayIsBracedList | hashmap.h:217-234 | `display` writes `{`, the `key: value` pairs separated by ", ", then `}`; an empty table shows as `{}` |
| HashmapIteration.DisplayLoop | hashmap.h:217-234 | the nested bucket and chain loops of `display`, with their running count, write exactly that text |
| HashmapProperties.PutThenGet | hashmap.h:257-297 | after `put(k, v)`, `get(k)` is `v`, other keys read as before, and `contains(k)` holds |
| HashmapProperties.RemoveThenGet | hashmap.h:286-319 | after `remove(k)`, `get(k)` is absent and other keys read as before |
| HashmapProperties.PutAppendsAtTail | hashmap.h:257-283 | a new key is linked at the tail of the chain its hash selects in the table after the resize check, with its hash cached; no other chain changes and the size grows by one |
| HashmapProperties.PutOverwritesInPlace | hashmap.h:257-269 | a present key has its value replaced in place in the table after the resize check; no chain changes length or key order and the size stays |
| HashmapProperties.PutKeepsPowerOfTwo | hashmap.h:236-319 | one `put` keeps the capacity a power of two and never shrinks it; one `remove` keeps it |
| HashmapProperties.ReplayKeepsPowerOfTwo | hashmap.h:236-336 | from a table constructed with a power-of-two capacity, every sequence of put, remove and clear keeps the invariant, so the capacity stays a power of two, and never shrinks it |
| HashmapProperties.PutGetRemoveScenario | hashmap.h:257-319 | with any hash: put "a" and "b" into capacity 8, `get("b")` is 2, and removing "a" succeeds, leaves it absent and leaves size 1 |
| HashmapProperties.ResizeReversesChainScenario | hashmap.h:236-284 | with the identity hash, keys 1 and 5 share a chain of two; the third `put` resizes to four chains, in which 5 precedes 1 |

## Left out

- Memory management is not modelled, because values replace heap objects. This covers `malloc`, `realloc` and `free`, the `free` operations, and the dangling-pointer behaviour of a pointer returned by `get`/`last`/`iterator_current` after a later update.
- The `Functions` dispatch tables and the macro type-naming scheme are left out. Each operation is called directly.
- Output streams are left out. `display` returns the text it would write, and the element, key and value printers are formatter parameters.
- `Vectors.New` takes a natural capacity. A negative `int` capacity passed to `Vector_T_new` is not modelled.
- Vectors.Push: does not model the `int` overflow of `capacity *= 2` once the capacity reaches 2^30. Vectors.Insert has the same gap.
- Hashmaps.Resize: does not model the `int` overflow of `capacity *= 2` at 2^30 chains. The capacity of a valid table is an unbounded power of two.
- Chains.BucketIndex: the bucket is computed as the hash, read as an unsigned number, modulo the capacity. The source computes `hash & (capacity - 1)`. The two agree for power-of-two capacities, but that equivalence is not proved, because relating bit-vector and integer values symbolically exceeds the verifier's budget here. No proof depends on the remainder form: they use only that the index is below the capacity, and the concrete scenario values.
- Hashmaps.NeedsResize: the float comparison `size >= capacity * 0.75f` is modelled exactly as `4 * size >= 3 * capacity`. The float result agrees while `size` is below 2^24, where the conversion of `size` to `float` is exact.
- Hashmaps.Get: key equality is Dafny's `==` for every map operation. A user `equals` that is not an equivalence, or that disagrees with the hash, is not modelled.
- StringHash.Step: signed overflow of `hash * 31 + c` is undefined behaviour in C. The model takes the two's-complement wrap-around that compilers produce; a compiler that exploits the undefined behaviour is not modelled.
- StringHash.Promote: `char` is taken to be signed, as on common x86 targets. Where `char` is unsigned, bytes from 0x80 up would not be sign-extended.
- IntegerHash.HashUint64: the `union` type-pun is modelled as splitting the word into its high and low halves. The XOR does not depend on byte order.
- The float and pointer hashes (`Hashmap_hash_float64` and the others) and the `_Generic` selection macros are outside the modelled core.
- `hashmap_new_with_capacity` prints a message and calls `_Exit` on a bad capacity. Here that is the `None` result of `Hashmaps.NewWithCapacity`.
- Iterator invalidation by an update during iteration is not modelled. Iterators are read against a fixed table or vector.
- HashmapIteration.Current: reading `iterator_current_key`/`iterator_current_value` before the first successful `next` dereferences NULL in the source. The model requires a current entry.
- `dome.c` is not part of this model.

## Findings

| source | as written | input that shows it | evidently intended | confidence | as-written member | corrected member |
|---|---|---|---|---|---|---|
| vector.h:125-132, 192-195 | a full buffer grows by `capacity *= 2`, which leaves capacity 0 at 0 | `Vector_T_new(0)` then `push(x)`: the element is stored into a zero-slot buffer, so `size` 1 exceeds `capacity` 0 | growth always makes room for at least one more element | not executed | VectorProperties.PushAsWrittenOverrunsEmptyBuffer | Vectors.Push |
| vector.h:149-154 | `get` checks only `index < size` | `get(-1)` on any vector passes the guard and reads `data[-1]` | `0 <= index < size`, as `set` and `remove` check | not executed | VectorProperties.GetAsWrittenReadsBeforeBuffer | Vectors.Get |
