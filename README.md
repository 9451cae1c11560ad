# A verified model of the jinxing string hash set

This project models `src/hashset.c`: a set of C strings stored in a bucket
array of singly linked chains.

- `sdbm_hash` hashes a key, and the key lives in bucket `hash % size`.
- `get_prime` picks every bucket-array size: the first number at or above a
  request that trial division up to its square root cannot split.
- `hashset_add_key` walks the key's chain. A duplicate is dropped. An absent
  key is prepended to its chain, and if the walked chain was deeper than
  `log2(size)`, the whole array is first rebuilt at `get_prime(size * 1.5)`.
- `hashset_expand` does that rebuild by re-inserting every entry into a fresh
  set through the same insert path, so rebuilds can nest.
- `hashset_find` looks in one bucket.
- The iterator (`hashset_it`, `hashset_it_next`) walks the buckets in
  ascending order and each chain head to tail, keeping the next entry
  pre-fetched. `hashset_map` and `free_hashset` are clients of it.

Files:

- `wrappers.dfy`: `Option`.
- `hashing.dfy`: the sdbm fold modulo 2^64 and the C loop proved against it.
- `primes.dfy`: the integer square root, the trial-division test, `NextPrime`
  (what `get_prime` returns, with Euclid's argument bounding the search) and
  the `get_prime` loop proved against it.
- `chains.dfy`: the bucket array viewed as a sequence of chains, with the
  facts insertion and iteration rely on.
- `hashset.dfy`: the classes `HashSet` (`hashset_t`) and `Iterator`
  (`hashset_iterator_t`) and their methods.

`HashSet.Valid()` is the set's invariant:

- every key is in bucket `Sdbm(key) % size`;
- `count` is the number of stored entries;
- `count` equals the number of distinct keys, so no key is stored twice
  (`CountIsNumberOfKeys` turns this into "no repeats");
- `size` passes `get_prime`'s test.

Each chain is a `seq<Key>` with its head at index 0. The ghost `Contents` is
the set of stored keys.

Where the C uses floating point, the model uses exact integers:

- `(size_t)sqrt(n)` becomes `Isqrt(n)`;
- `deep > log2(size)` becomes `2^deep > size`, which is the same test for
  whole numbers;
- `size * 1.5` truncated to `size_t` becomes `size + size / 2`.

Behaviour of the code worth noting:

- A new key is prepended to its chain (lines 120-121), not appended.
- `get_prime(0)` is 0 and `get_prime(1)` is 1 (`NextPrimeOfZeroAndOne`). Only
  from 2 on is the result the least prime at or above the request. The
  constructor therefore requires a request of at least 1: 0 buckets would
  mean `% 0`. A one-bucket set works, because its rebuilds stay at one bucket
  and terminate.
- `hashset_it` pre-fetches only the head of bucket 0, which may be NULL. Empty
  buckets are skipped by `hashset_it_next`, not by `hashset_it`.

Termination of the nested rebuilds: `AddKey` and `Expand` call each other.
Every entry a rebuild re-inserts goes into a set that so far holds fewer keys
than the set being rebuilt. So `count` decreases along every call chain.

## Model

| member | source | states |
|---|---|---|
| Hashing.ShiftStepIsMultiply | src/hashset.c:29 | `c + (hash << 6) + (hash << 16) - hash` in wrapping 64-bit arithmetic equals `(hash * 65599 + c) mod 2^64` |
| Hashing.ShiftStep | src/hashset.c:29 | one step of the C loop with each shift, addition and subtraction wrapping modulo 2^64, so the result stays below 2^64; ShiftStepIsMultiply gives its value |
| Hashing.SdbmHash | src/hashset.c:25-31 | the C loop returns the left fold `Sdbm` of the key (0 for the empty key, `h * 65599 + c` mod 2^64 per character), and the result is below 2^64 |
| Primes.Isqrt | src/hashset.c:55 | the integer square root: `r * r <= n < (r + 1) * (r + 1)` |
| Primes.PrimeHasNoSmallDivisor | src/hashset.c:56-57 | every prime passes get_prime's trial-division test |
| Primes.NoSmallDivisorIsPrime | src/hashset.c:56-57 | from 2 on, a number that passes the test (no divisor in `[2, isqrt(m)]`) is prime |
| Primes.CofactorIsSmall | src/hashset.c:56 | a number with a divisor in `[2, m)` has one in `[2, isqrt(m)]`, so stopping the trial division at the square root is sound |
| Primes.EuclidBoundIsPrimeAbove | src/hashset.c:54-59 | the least factor of `n! + 1` is a prime above `n`, which bounds the search of get_prime's outer loop |
| Primes.LeastFromExists | src/hashset.c:54-59 | for every request, a least number at or above it passes the test, so the search stops |
| Primes.NextPrime | src/hashset.c:52-61 | the value of get_prime: at least the request, passes the test, and every number from the request up to it fails the test |
| Primes.LeastIsNextPrime | src/hashset.c:52-61 | any number with those three properties is NextPrime, so they determine it |
| Primes.NextPrimeIsPrime | src/hashset.c:52-61 | from 2 on, get_prime returns a prime at or above the request |
| Primes.NextPrimeIdempotent | src/hashset.c:115-116 | get_prime of a size get_prime produced returns that size, so new_hashset keeps the size hashset_add_elem picked |
| Primes.NextPrimeOfZeroAndOne | src/hashset.c:52-61 | get_prime(0) == 0 and get_prime(1) == 1 |
| Primes.NextPrimeOfTen | src/hashset.c:52-61 | get_prime(10) == 11 |
| Primes.GetPrime | src/hashset.c:52-61 | the nested loops return exactly NextPrime(request) |
| Chains.Bucket | src/hashset.c:17 | HASH_TO_INDEX lands inside the bucket array |
| Chains.InOwnBucket | src/hashset.c:103-105 | when every key sits in its own bucket, a key is stored iff it is in the chain its hash selects |
| Chains.DistinctIffAllKeysCount | src/hashset.c:105-109 | a sequence of keys repeats no key iff it has as many distinct keys as entries, in both directions |
| Chains.NotBefore | src/hashset.c:136-137 | in an entry sequence without repeats, the entry at a position does not occur before it, so expand never re-inserts a key it has already moved |
| Chains.FlattenUpdate | src/hashset.c:120-121 | replacing one chain replaces exactly its stretch of the entries in iteration order |
| Chains.Prepend | src/hashset.c:120-122 | prepending a key to its own chain keeps every key in its own bucket, adds one entry, and adds exactly that key |
| HashSets.TooDeep | src/hashset.c:114 | the resize test `deep > log2(size)` for a whole-number depth: for size >= 1 it holds iff deep exceeds the whole part of log2(size), which for whole numbers is the same as exceeding log2(size) |
| HashSets.Grow | src/hashset.c:115 | the resize target get_prime(size * 1.5) with `size * 1.5` truncated to `size + size / 2`: the least number from there on that passes get_prime's test |
| HashSets.GrowIncreases | src/hashset.c:114-116 | from size 2 on, the resize target get_prime(size * 1.5) is prime, at least size * 1.5 and strictly larger than size |
| HashSets.GrowNIncreases | src/hashset.c:114-118 | any number of resizes from size 2 on never shrinks the array, and at least one resize leaves it strictly larger and prime |
| HashSets.GrowNAdd | src/hashset.c:116 | a resize that nests further resizes composes: `a` resizes then `b` more are `a + b` resizes |
| HashSets.HashSet.CountIsNumberOfKeys | src/hashset.c:105-109 | in a valid set, no key is stored twice and `count` is the number of distinct keys |
| HashSets.HashSet.StoredIffInOwnBucket | src/hashset.c:103-105 | a key is in the set iff it is in the chain of bucket `hash % size` |
| HashSets.HashSet.constructor | src/hashset.c:77-84 | new_hashset: `size == get_prime(request)`, `count == 0`, every bucket empty, no keys, and the invariant holds |
| HashSets.HashSet.AddKey | src/hashset.c:97-128 | a present key changes nothing and returns its bucket. An absent key grows the keys by exactly it and `count` by one, and heads bucket `hash % size` of the final size, whose index is returned. Without a resize only that chain changes. A resize happens iff `2^deep > size` for the walked depth, and the final size is the old one after that many resizes. The invariant is kept |
| HashSets.HashSet.Link | src/hashset.c:120-122 | the new entry becomes the head of its chain, `count` goes up by one, every other chain is unchanged and the invariant is kept |
| HashSets.HashSet.Expand | src/hashset.c:130-145 | the rebuild keeps the set of keys and `count`, installs a fresh bucket array, re-establishes the invariant, and ends at get_prime(request) grown by the nested resizes |
| HashSets.HashSet.Rebuilt | src/hashset.c:132-137 | the new set receives every entry of the old one through the insert path, ending with the same keys and count |
| HashSets.HashSet.Move | src/hashset.c:137 | one turn of expand's loop: an entry not moved yet adds exactly its key and one to `count` in the new set |
| HashSets.HashSet.Find | src/hashset.c:147-156 | returns an entry iff the key is stored, and that entry holds the key |
| HashSets.HashSet.Map | src/hashset.c:184-191 | the callback is applied once per entry in iteration order: the result is the fold of the callback over `Entries()` |
| HashSets.HashSet.Free | src/hashset.c:86-95 | the entries released are exactly the stored entries in iteration order, each key once, `count` of them |
| HashSets.ScenarioTen | src/hashset.c:77-156 | create(10) has 11 buckets; after inserting "a", "b", "a" the count is 2, "a" is found and "c" is not |
| HashSets.RemainingStep | src/hashset.c:167-171 | returning the pre-fetched entry of a chain leaves the rest of that chain and the later chains |
| HashSets.RemainingSkip | src/hashset.c:173-178 | with nothing pre-fetched, moving to the next bucket and fetching its head skips no entry, and past the last bucket nothing remains |
| HashSets.Iterator.constructor | src/hashset.c:158-164 | hashset_it: at bucket 0, nothing returned yet, and every entry of the set still to come |
| HashSets.Iterator.Next | src/hashset.c:166-182 | returns the first entry still to come and removes it from those remaining. Returns NULL iff none remain, and then none remain afterwards, so later calls return NULL too. The entries returned so far grow by exactly the one returned |
| HashSets.Iterator.Take | src/hashset.c:167-171 | the pre-fetched entry becomes `curr` and is the first remaining entry, and its successor is pre-fetched |
| HashSets.Iterator.Seek | src/hashset.c:173-178 | the bucket scan skips no entry and stops with an entry pre-fetched iff one remains |

## Left out

- The allocator wrappers `my_calloc`/`my_free`, their counters and the `abort` on allocation failure (src/hashset.c:33-50): allocation always succeeds here.
- `hashset_print` and the `DEBUG_MSG` in `hashset_expand`: they only write diagnostics to stderr.
- Releasing memory (`free_elem`, and the `my_free` calls in `free_hashset` and `hashset_expand`): Dafny has no explicit deallocation. `Free` models `free_hashset` as the walk that releases each entry.
- `new_elem`: an entry is its key. Entry identity and the relinking of `next` pointers while expand moves entries are not modelled. So the model does not show that expand moves the original entries rather than copies, nor that the iterator's pre-fetch is what makes that relinking safe.
- Floating point: `sqrt`, `log2` and `* 1.5` are replaced by the exact integer operations above. Rounding for sizes beyond 2^53 is not modelled.
- `get_prime` returns `int`, which truncates a `size_t` above `INT_MAX`. Sizes here are unbounded naturals, and `size_t` overflow of `size * 1.5` is not modelled.
- Keys are sequences of characters hashed by their code points. C's possibly signed `char` (negative values above 127) and the NUL terminator are not modelled.
- `hashset_map`'s callback is modelled as a pure function threaded through a context value, not as a side effect on `func_args`.
- Changing the set while an iterator is in use: the iterator's invariant assumes the set it walks is unchanged.
- A request of 0 buckets: the constructor requires at least 1, since the C would then divide by zero on the first insert or lookup.
- The return value of `hashset_expand`, which is always 0.
- `unsigned long` and `size_t` of 32 bits (ILP32 targets): the model takes them as 64 bits, so on such a target `sdbm_hash` would wrap modulo 2^32 and the bucket indices would differ.
- HashSets.HashSet.Expand: states the keys, the count and the size of the rebuilt set, but not the order of entries inside each new chain.
- HashSets.HashSet.AddKey: after a resize it states where the new key is and that the invariant holds, but not the order of the other entries in the rebuilt chains.
- `src/hashset.h` only declares the records and prototypes, which appear here as the class fields.
