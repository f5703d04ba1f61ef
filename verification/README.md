# CHD perfect hash function in Dafny

This project models `PerfectHashFunction`, the core of a C# implementation
of the CHD ("compress, hash and displace") perfect hash function, and proves
what its construction guarantees.

`Construct` takes a list of byte-string keys and proceeds in four steps:

1. It places every key in a bucket chosen by the key's seed-0 hash. The
   hash is masked to 28 bits and reduced modulo the bucket count.
2. It orders the buckets by size, largest first. The order is stable.
3. For each non-empty bucket it searches for a displacement seed `d` in
   `1, 2, …, maxSeed - 1`. The seed must send the bucket's keys to pairwise
   different bins that no earlier bucket has claimed. A key's bin under
   seed `d` is its seed-`d` hash, masked and reduced modulo the bin count.
4. It records the seed in the displacement array at the bucket's index.

A query `Hash(key)` returns the key's bin under its bucket's displacement.
`Import` rebuilds an instance from an exported displacement array.

The modules follow that structure:

- `Types`: bytes, keys, .NET `uint`/`int` ranges, the hash primitive as a
  function parameter, the settings, `Option` and `Result`.
- `Hashing`: the masked and reduced hash, `GetBucketIndex` and `Phi`.
- `Bucketing`: `CreateBuckets`, i.e. the distribution and the stable
  order by descending size.
- `Displacement`: the seed loop for one bucket, including its candidate
  set `kArray`.
- `Construction`: the bucket loop as a function, the invariant it keeps,
  and `Construct`, `Hash` and `Import` as functions.
- `Guarantees`: what a successful construction promises (injectivity, the
  displacement array, the occupied bins, minimality at load factor 1), and
  the inputs that make it throw.
- `PerfectHash`: `Construct` written as the loops the class runs, proved
  equal to the functional model and carrying the main guarantees.
- `Seqs`: generic facts about repetition-free sequences and about the size
  of sets of bounded naturals.

The source's exceptions are results. `Error.CannotConstruct` is the
explicit "Cannot construct perfect hash function". `Error.DivideByZero` is
the runtime exception the source raises in three cases:

- `keysPerBucket` is 0;
- there is at least one key but fewer than `keysPerBucket`, so there are
  zero buckets and the first key's bucket index divides by zero (with no
  keys at all nothing is hashed and nothing is thrown);
- there are keys but zero bins, and `maxSeed > 1`, so the first `Phi`
  runs. With `maxSeed <= 1` the seed loop never runs and the source
  throws "Cannot construct" instead.

**The seed loop does not always pick the smallest usable seed.** The seed loop
(`CHD/PerfectHashFunction.cs:42-61`) keeps one candidate set `kArray` for
the whole loop and empties it only when adding a bin collides. A turn that
fails only the size test or the intersection test leaves its bins in the
set. The next turn then starts from a non-empty set and cannot be accepted,
even when its seed is usable. The model follows the code:

- `Displacement.AttemptAccepts` characterises an accepted turn exactly.
- `Displacement.ValidSeedAfterTurn` says when a usable seed is skipped.
- `Displacement.StaleSetSkipsValidSeed` gives a concrete bucket whose search
  fails although seed 2 is usable.

Soundness holds regardless: every accepted seed is usable
(`Displacement.SearchFromSound`).

## Model

| member | source | states |
|---|---|---|
| Hashing.MaskKeepsLowBits | CHD/PerfectHashFunction.cs:109 | masking the 32-bit hash with `0xfffffff` leaves exactly its low 28 bits, which is the number `MaskedHash` computes; the masked hash is therefore non-negative and below 2^28 |
| Hashing.RemainderIsMod | CHD/PerfectHashFunction.cs:111 | the remainder used by the model is the mathematical `m % mod`, which is what C#'s `%` gives on the non-negative masked hash |
| Hashing.Reduce | CHD/PerfectHashFunction.cs:106-112 | the static `Hash(key, seed, mod)` lands in `[0, mod)` and below 2^28 |
| Hashing.BucketIndex | CHD/PerfectHashFunction.cs:96-99 | a key's bucket index is a valid bucket number, below `numBuckets` |
| Hashing.Phi | CHD/PerfectHashFunction.cs:101-104 | a key's bin under any displacement is a valid bin, below `numBins` |
| Bucketing.Distribute | CHD/PerfectHashFunction.cs:84-91 | there is one bucket per bucket index, and every key in bucket `b` has bucket index `b` |
| Bucketing.DistributeIsPartition | CHD/PerfectHashFunction.cs:90-91 | the buckets together hold exactly the input keys, with multiplicity |
| Bucketing.KeyInItsBucket | CHD/PerfectHashFunction.cs:90-91 | every input key appears in the bucket named by its index |
| Bucketing.SameBucketKeepsOrder | CHD/PerfectHashFunction.cs:90-91 | two input positions with the same bucket index occupy two different positions of that bucket, in input order |
| Bucketing.BucketKeyIsInput | CHD/PerfectHashFunction.cs:90-91 | every entry of every bucket is one of the input keys |
| Bucketing.InsertKeepsSorted | CHD/PerfectHashFunction.cs:93 | inserting a bucket into a list ordered by descending size, with ties in index order, keeps that order |
| Bucketing.OrderBySize | CHD/PerfectHashFunction.cs:93 | the processing order lists every bucket index exactly once; sizes never increase along it; equal sizes keep index order, as LINQ's stable `OrderByDescending` does |
| Bucketing.CreateBuckets | CHD/PerfectHashFunction.cs:84-94 | the loop over the keys builds the distributed buckets, which partition the keys, and returns them in size order |
| Displacement.AddUntilCollisionSpec | CHD/PerfectHashFunction.cs:51 | the `Any`/`Add` scan finishes without a collision exactly when the bins are pairwise different and not yet in the candidate set; in that case every bin has been added |
| Displacement.AddBins | CHD/PerfectHashFunction.cs:51 | the scan as a loop: it reports a collision exactly when a bin repeats or is already present; otherwise it adds all the bins |
| Displacement.AttemptAccepts | CHD/PerfectHashFunction.cs:51-57 | a turn accepts its seed exactly when the candidate set it starts from is empty and the seed is usable; the bins it then claims are the bucket's bins under that seed |
| Displacement.RejectedAttemptKeeps | CHD/PerfectHashFunction.cs:51-55 | after a rejected turn on a non-empty bucket, the candidate set is empty exactly when adding the bins collided |
| Displacement.Turn | CHD/PerfectHashFunction.cs:51-57 | one iteration of the seed loop accepts its seed exactly when `kArray` starts empty and the seed is usable, and then holds exactly the bucket's bins; for a non-empty bucket the set is emptied exactly when adding the bins collided |
| Displacement.SearchFrom | CHD/PerfectHashFunction.cs:49-61 | a seed the loop returns from turn `d` on lies in `[d, maxSeed)` |
| Displacement.SearchFromSound | CHD/PerfectHashFunction.cs:49-61 | a returned seed is usable, even with stale candidates: its bins are pairwise different and unoccupied |
| Displacement.Search | CHD/PerfectHashFunction.cs:49 | the seeds tried lie in `[1, maxSeed)`; with `maxSeed <= 1` no seed is tried and the search fails |
| Displacement.SearchSound | CHD/PerfectHashFunction.cs:42-61 | a seed found for a bucket lies in `[1, maxSeed)` and is usable |
| Displacement.FreshValidSeedTaken | CHD/PerfectHashFunction.cs:49-57 | a usable seed met with an empty candidate set is taken; in particular, a usable seed 1 is always the one chosen |
| Displacement.ValidSeedAfterTurn | CHD/PerfectHashFunction.cs:51-55 | a usable seed right after a rejected turn is taken if and only if that turn's bins collided |
| Displacement.StaleCandidatesSkip | CHD/PerfectHashFunction.cs:51-55 | a turn that starts from a non-empty candidate set never accepts its seed |
| Displacement.StaleSetSkipsValidSeed | CHD/PerfectHashFunction.cs:42-55 | a concrete bucket for which seed 2 is usable, yet the search with `maxSeed` 3 fails |
| Displacement.RepeatedKeyNeverPlaced | CHD/PerfectHashFunction.cs:51-52 | a bucket holding the same key twice has no usable seed, so its search fails for every ceiling and occupancy |
| Displacement.FindDisplacement | CHD/PerfectHashFunction.cs:42-64 | the seed loop finds a seed exactly when the functional search does, and the same one; the seed is usable, and the bins it marks are the bucket's bins under it |
| Construction.Query | CHD/PerfectHashFunction.cs:70-74 | on an instance with buckets and bins, a query lands in `[0, numBins)` |
| Construction.Hash | CHD/PerfectHashFunction.cs:70-74 | `Hash(key)` answers exactly when the instance has buckets and bins; otherwise it divides by zero; every answer is a valid bin |
| Construction.Import | CHD/PerfectHashFunction.cs:76-82 | the imported instance has the given key count and one bucket per displacement entry |
| Construction.BucketCount | CHD/PerfectHashFunction.cs:32 | the number of buckets is positive exactly when there are keys, given an admissible `keysPerBucket` |
| Construction.PlaceEmpty | CHD/PerfectHashFunction.cs:40 | skipping an empty bucket keeps the placement invariant |
| Construction.PlaceBucket | CHD/PerfectHashFunction.cs:57-60 | recording a usable seed and marking its bins keeps the placement invariant: placed buckets have usable seeds, disjoint bins, and the occupied bins are exactly theirs |
| Construction.PlacedInitially | CHD/PerfectHashFunction.cs:33-35 | a fresh zero displacement array and an empty processed set satisfy the invariant |
| Construction.PlaceAllKeeps | CHD/PerfectHashFunction.cs:38-65 | a completed bucket loop leaves every visited bucket placed under the invariant |
| Construction.PlaceAllStuck | CHD/PerfectHashFunction.cs:63-64 | a non-empty bucket with no seed under any occupancy makes the bucket loop fail |
| Construction.Build | CHD/PerfectHashFunction.cs:28-68 | a successful construction records the key count and bin count, has `keys / keysPerBucket` buckets, and, when there are keys, can answer queries |
| Construction.GreedyPlacesAll | CHD/PerfectHashFunction.cs:38-67 | after the loop, every bucket is placed |
| Guarantees.QueryInBucketBins | CHD/PerfectHashFunction.cs:70-74 | after a successful construction, a key's answer is one of the bins its (non-empty) bucket claimed |
| Guarantees.BuildInjective | CHD/PerfectHashFunction.cs:28-74 | after a successful construction, no two positions of the key list share an answer of `Hash` |
| Guarantees.BuildDisplacements | CHD/PerfectHashFunction.cs:33-58 | an exported displacement entry is 0 exactly when no key falls into that bucket; every other entry is a seed below `maxSeed` |
| Guarantees.ProcessedAreIds | CHD/PerfectHashFunction.cs:59-60 | the bins marked as processed at the end are exactly the keys' answers |
| Guarantees.ProcessedCount | CHD/PerfectHashFunction.cs:59-60 | after a successful construction with keys, the processed set holds exactly `numKeys` bins: no bin is claimed twice |
| Guarantees.SuccessNeedsEnoughBins | CHD/PerfectHashFunction.cs:28-68 | a successful construction has at least as many bins as keys |
| Guarantees.BuildMinimal | CHD/PerfectHashFunction.cs:31 | with one bin per key (load factor 1), every bin is the answer for some key |
| Guarantees.StuckBucketFails | CHD/PerfectHashFunction.cs:63-64 | a non-empty bucket that no seed can place makes `Construct` throw "Cannot construct" |
| Guarantees.NoSeedsFails | CHD/PerfectHashFunction.cs:49-64 | with `maxSeed <= 1`, any non-empty key list makes `Construct` throw |
| Guarantees.RepeatedKeyFails | CHD/PerfectHashFunction.cs:51-64 | a key listed twice makes `Construct` throw |
| Guarantees.ImportRestores | CHD.Tests/Tests.cs:23-29 | importing the exported array with the same key count and bin count restores the constructed instance; the imported one answers every key as the constructed one does and is injective on the keys |
| Guarantees.DefaultSettingsDivideByZero | CHD/PerfectHashFunction.cs:18-33 | with the default settings (4 keys per bucket, `maxSeed = int.MaxValue`) `Construct` divides by zero exactly when there are one to three keys, or keys and no bins |
| PerfectHash.PlaceBuckets | CHD/PerfectHashFunction.cs:38-65 | over the buckets `CreateBuckets` builds, each visited once: a completed loop leaves every bucket placed (empty ones at 0, others with a seed in `[1, maxSeed)` whose bins are pairwise different, no bin shared between buckets, the processed bins exactly the claimed ones); the loop stops early only at a non-empty bucket |
| PerfectHash.ConstructBuckets | CHD/PerfectHashFunction.cs:32-68 | with non-zero sizes the only exception is "Cannot construct"; on success the array has `numKeys / keysPerBucket` entries, 0 exactly for buckets no key falls into and a seed below `maxSeed` otherwise |
| PerfectHash.Construct | CHD/PerfectHashFunction.cs:28-68 | `Construct` returns the functional construction's result, error cases included; on success it records the key and bin counts, has at least as many bins as keys, and gives every key a different answer |

## Left out

- MurmurHash3 is not part of this model. The seeded 32-bit hash is a
  function parameter, and every property holds for any such function.
- The load factor is a `double`. The model takes the bin count
  `(int)(numKeys / loadFactor)` as a parameter. It leaves out the
  floating-point division and its truncation, and also the constructor's
  `loadFactor > 1.0` check.
- Negative `keysPerBucket` or key counts are left out. These are naturals
  in the model, so the source's exception on a negative array size does
  not arise.
- After an exception, the source instance keeps its partly overwritten
  fields. The model returns only the error.
- The `processed` set is rebuilt from `processedArray` for every bucket.
  The model keeps it as a set of bin numbers, which has the same contents.
  HashSet and LINQ mechanics are not modelled.
- Hashing.Reduce: requires a positive modulus. A zero modulus raises
  `DivideByZeroException` in the source. `Construction.Build` and
  `Construction.Hash` return that case as `Error.DivideByZero` before
  reaching `Reduce`.
- Displacement.Search: does not promise the smallest usable seed. The code
  can skip one, as explained above.
- The NUnit tests are not modelled. They assert three things: the
  constructed instance gives every key a distinct answer
  (`Guarantees.BuildInjective`), the imported instance does too, and both
  give the same answers (both in `Guarantees.ImportRestores`).
