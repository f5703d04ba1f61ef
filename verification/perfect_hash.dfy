/** `PerfectHashFunction.Construct` as the loop the class runs, with the
    guarantees of a successful construction on its result. */
module PerfectHash {
  import opened Types
  import opened Seqs
  import opened Hashing
  import opened Bucketing
  import opened Displacement
  import opened Construction
  import opened Guarantees

  /** The bucket loop of `Construct`: each non-empty bucket, in the given
      order, gets the seed `FindDisplacement` returns at the current
      occupancy; the first bucket without one stops the loop. The buckets
      are those `CreateBuckets` builds, visited once each. When the loop
      completes, every visited bucket is placed: empty buckets keep 0,
      the others have a seed in [1, maxSeed) whose bins are pairwise
      different, no two buckets share a bin, and the occupied bins are
      exactly the claimed ones. It stops early only at a non-empty bucket. */
  method PlaceBuckets(h: Hasher, numBins: nat, maxSeed: Int32, buckets: seq<seq<Key>>, order: seq<nat>) returns (r: Option<Placement>)
    requires numBins > 0 && InRange(order, |buckets|)
    requires Indexed(h, buckets) && Distinct(order)
    ensures r.Some? ==> Placed(h, numBins, maxSeed, buckets, Elems(order), r.value)
    ensures r.None? ==> exists t :: 0 <= t < |order| && |buckets[order[t]]| > 0
    ensures r == PlaceAll(h, numBins, maxSeed, buckets, order, Placement(seq(|buckets|, _ => 0), {}))
  {
    PlacedInitially(h, numBins, maxSeed, buckets);
    PlaceAllKeeps(h, numBins, maxSeed, buckets, order, Placement(seq(|buckets|, _ => 0), {}), {});
    assert {} + Elems(order) == Elems(order);
    var disp: seq<Uint32> := seq(|buckets|, _ => 0);
    var occupied: set<nat> := {};
    var t := 0;
    while t < |order|
      invariant t <= |order| && |disp| == |buckets|
      invariant PlaceAll(h, numBins, maxSeed, buckets, order[t..], Placement(disp, occupied))
             == PlaceAll(h, numBins, maxSeed, buckets, order, Placement(seq(|buckets|, _ => 0), {}))
    {
      var bucket := buckets[order[t]];
      if |bucket| > 0 {
        var found, d, claimed := FindDisplacement(h, numBins, maxSeed, bucket, occupied);
        if !found {
          return None;
        }
        disp := disp[BucketIndex(h, |buckets|, bucket[0]) := d];
        occupied := occupied + claimed;
      }
      t := t + 1;
    }
    return Some(Placement(disp, occupied));
  }

  /** Builds the displacement array bucket by bucket, largest bucket first,
      or reports the exception `Construct` raises. */
  method Construct(h: Hasher, cfg: Config, keys: seq<Key>, numBins: nat) returns (r: Result<Phf, Error>)
    ensures r.Success? ==> r.value.numKeys == |keys| && r.value.numBins == numBins && |keys| <= numBins
    ensures r.Success? ==> forall i :: 0 <= i < |keys| ==> Hash(r.value, h, keys[i]).Success?
    ensures r.Success? ==> forall i, j :: 0 <= i < j < |keys| ==> Hash(r.value, h, keys[i]) != Hash(r.value, h, keys[j])
    ensures r == Build(h, cfg, keys, numBins)
  {
    if cfg.keysPerBucket == 0 || 0 < |keys| < cfg.keysPerBucket {
      return Failure(DivideByZero);
    }
    if numBins == 0 && |keys| > 0 {
      if cfg.maxSeed > 1 {
        return Failure(DivideByZero);
      }
      return Failure(CannotConstruct);
    }
    if numBins == 0 {
      return Success(Phf(0, 0, []));
    }
    r := ConstructBuckets(h, cfg, keys, numBins);
    if r.Success? {
      BuildInjective(h, cfg, keys, numBins, r.value);
      SuccessNeedsEnoughBins(h, cfg, keys, numBins, r.value);
    }
  }

  /** The part of `Construct` after the sizes are known to be non-zero.
      Then the only exception is "Cannot construct", and the exported array
      has one entry per bucket: 0 exactly for the buckets no key falls
      into, and a seed in [1, maxSeed) for the others. */
  method ConstructBuckets(h: Hasher, cfg: Config, keys: seq<Key>, numBins: nat) returns (r: Result<Phf, Error>)
    requires Admissible(cfg, keys, numBins)
    ensures r.Failure? ==> r.error == CannotConstruct
    ensures r.Success? ==> |r.value.displacement| == |keys| / cfg.keysPerBucket
    ensures r.Success? ==> forall b :: 0 <= b < |r.value.displacement| ==>
        && (r.value.displacement[b] == 0 <==> forall i :: 0 <= i < |keys| ==> BucketIndex(h, |r.value.displacement|, keys[i]) != b)
        && (r.value.displacement[b] != 0 ==> r.value.displacement[b] < cfg.maxSeed)
    ensures r == Build(h, cfg, keys, numBins)
  {
    var n := BucketCount(cfg, keys);
    var buckets, order := CreateBuckets(h, n, keys);
    var placed := PlaceBuckets(h, numBins, cfg.maxSeed, buckets, order);
    if placed.None? {
      return Failure(CannotConstruct);
    }
    r := Success(Phf(|keys|, numBins, placed.value.displacement));
    BuildDisplacements(h, cfg, keys, numBins, r.value);
  }
}
