/** What a successful `Construct` guarantees, and when it throws. */
module Guarantees {
  import opened Types
  import opened Seqs
  import opened Hashing
  import opened Bucketing
  import opened Displacement
  import opened Construction

  /** The query results of the keys, in key order. */
  function Ids(p: Phf, h: Hasher, keys: seq<Key>): (r: seq<nat>)
    requires p.Ready()
    ensures |r| == |keys| && forall i :: 0 <= i < |r| ==> r[i] == Query(p, h, keys[i])
  {
    seq(|keys|, i requires 0 <= i < |keys| => Query(p, h, keys[i]))
  }

  /** A key's query result is one of the bins its bucket claimed. */
  lemma QueryInBucketBins(h: Hasher, cfg: Config, keys: seq<Key>, numBins: nat, p: Phf, i: nat)
    requires Build(h, cfg, keys, numBins) == Success(p) && i < |keys|
    ensures Admissible(cfg, keys, numBins)
    ensures var b := BucketIndex(h, p.NumBuckets(), keys[i]);
      && |BucketsOf(h, cfg, keys)[b]| > 0
      && Query(p, h, keys[i]) in Elems(Bins(h, numBins, BucketsOf(h, cfg, keys)[b], p.displacement[b]))
  {
    BuildUnfolds(h, cfg, keys, numBins);
    var buckets := BucketsOf(h, cfg, keys);
    var b := BucketIndex(h, p.NumBuckets(), keys[i]);
    var pos := KeyInItsBucket(h, p.NumBuckets(), keys, i);
    assert Bins(h, numBins, buckets[b], p.displacement[b])[pos] == Query(p, h, keys[i]);
  }

  /** Injectivity: after a successful construction no two positions of the
      key list share an answer of `Hash`. */
  lemma BuildInjective(h: Hasher, cfg: Config, keys: seq<Key>, numBins: nat, p: Phf)
    requires Build(h, cfg, keys, numBins) == Success(p)
    ensures forall i, j :: 0 <= i < j < |keys| ==> Hash(p, h, keys[i]) != Hash(p, h, keys[j])
  {
    if |keys| > 0 {
      BuildUnfolds(h, cfg, keys, numBins);
      var buckets := BucketsOf(h, cfg, keys);
      var order := OrderBySize(buckets);
      GreedyPlacesAll(h, cfg, keys, numBins);
      forall i, j | 0 <= i < j < |keys| ensures Query(p, h, keys[i]) != Query(p, h, keys[j]) {
        var bi := BucketIndex(h, p.NumBuckets(), keys[i]);
        var bj := BucketIndex(h, p.NumBuckets(), keys[j]);
        assert bi in Elems(order) && bj in Elems(order);
        QueryInBucketBins(h, cfg, keys, numBins, p, i);
        QueryInBucketBins(h, cfg, keys, numBins, p, j);
        if bi == bj {
          var pi, pj := SameBucketKeepsOrder(h, p.NumBuckets(), keys, i, j);
          var bins := Bins(h, numBins, buckets[bi], p.displacement[bi]);
          assert Distinct(bins);
          assert bins[pi] == Query(p, h, keys[i]) && bins[pj] == Query(p, h, keys[j]);
        }
      }
    }
  }

  /** The exported displacement array: a bucket keeps 0 exactly when no key
      falls into it, and every other entry is a seed below `maxSeed`. */
  lemma BuildDisplacements(h: Hasher, cfg: Config, keys: seq<Key>, numBins: nat, p: Phf)
    requires Build(h, cfg, keys, numBins) == Success(p)
    ensures forall b :: 0 <= b < p.NumBuckets() ==>
        && (p.displacement[b] == 0 <==> forall i :: 0 <= i < |keys| ==> BucketIndex(h, p.NumBuckets(), keys[i]) != b)
        && (p.displacement[b] != 0 ==> p.displacement[b] < cfg.maxSeed)
  {
    if |keys| > 0 {
      BuildUnfolds(h, cfg, keys, numBins);
      var n := p.NumBuckets();
      var buckets := BucketsOf(h, cfg, keys);
      var order := OrderBySize(buckets);
      GreedyPlacesAll(h, cfg, keys, numBins);
      forall b | 0 <= b < n
        ensures p.displacement[b] == 0 <==> forall i :: 0 <= i < |keys| ==> BucketIndex(h, n, keys[i]) != b
        ensures p.displacement[b] != 0 ==> p.displacement[b] < cfg.maxSeed
      {
        assert b in Elems(order);
        if |buckets[b]| > 0 {
          var i := BucketKeyIsInput(h, n, keys, b, 0);
          assert BucketIndex(h, n, keys[i]) == b;
        } else {
          forall i | 0 <= i < |keys| ensures BucketIndex(h, n, keys[i]) != b {
            var pos := KeyInItsBucket(h, n, keys, i);
          }
        }
      }
    }
  }

  /** The bins marked in `processedArray` at the end of `Construct` are
      exactly the keys' query results. */
  lemma ProcessedAreIds(h: Hasher, cfg: Config, keys: seq<Key>, numBins: nat, p: Phf)
    requires Build(h, cfg, keys, numBins) == Success(p) && |keys| > 0
    ensures Admissible(cfg, keys, numBins) && Greedy(h, cfg, keys, numBins).Some?
    ensures Greedy(h, cfg, keys, numBins).value.occupied == Elems(Ids(p, h, keys))
  {
    ProcessedWithinIds(h, cfg, keys, numBins, p);
    IdsWithinProcessed(h, cfg, keys, numBins, p);
  }

  lemma ProcessedWithinIds(h: Hasher, cfg: Config, keys: seq<Key>, numBins: nat, p: Phf)
    requires Build(h, cfg, keys, numBins) == Success(p) && |keys| > 0
    ensures Admissible(cfg, keys, numBins) && Greedy(h, cfg, keys, numBins).Some?
    ensures Greedy(h, cfg, keys, numBins).value.occupied <= Elems(Ids(p, h, keys))
  {
    BuildUnfolds(h, cfg, keys, numBins);
    var n := p.NumBuckets();
    var buckets := BucketsOf(h, cfg, keys);
    var done := Elems(OrderBySize(buckets));
    var pl := Greedy(h, cfg, keys, numBins).value;
    var ids := Ids(p, h, keys);
    GreedyPlacesAll(h, cfg, keys, numBins);
    forall x | x in pl.occupied ensures x in ids {
      assert ClaimedBy(h, numBins, buckets, done, pl.displacement, x);
      var b :| 0 <= b < |buckets| && b in done && x in Elems(Bins(h, numBins, buckets[b], pl.displacement[b]));
      var pos :| 0 <= pos < |buckets[b]| && Bins(h, numBins, buckets[b], pl.displacement[b])[pos] == x;
      var i := BucketKeyIsInput(h, n, keys, b, pos);
      assert ids[i] == x;
    }
  }

  lemma IdsWithinProcessed(h: Hasher, cfg: Config, keys: seq<Key>, numBins: nat, p: Phf)
    requires Build(h, cfg, keys, numBins) == Success(p) && |keys| > 0
    ensures Admissible(cfg, keys, numBins) && Greedy(h, cfg, keys, numBins).Some?
    ensures Elems(Ids(p, h, keys)) <= Greedy(h, cfg, keys, numBins).value.occupied
  {
    BuildUnfolds(h, cfg, keys, numBins);
    var n := p.NumBuckets();
    var buckets := BucketsOf(h, cfg, keys);
    var done := Elems(OrderBySize(buckets));
    var pl := Greedy(h, cfg, keys, numBins).value;
    var ids := Ids(p, h, keys);
    GreedyPlacesAll(h, cfg, keys, numBins);
    forall x | x in ids ensures x in pl.occupied {
      var i :| 0 <= i < |ids| && ids[i] == x;
      var b := BucketIndex(h, n, keys[i]);
      QueryInBucketBins(h, cfg, keys, numBins, p, i);
      assert b in done;
      assert ClaimedBy(h, numBins, buckets, done, pl.displacement, x);
    }
  }

  /** The keys' query results repeat nowhere. */
  lemma IdsDistinct(h: Hasher, cfg: Config, keys: seq<Key>, numBins: nat, p: Phf)
    requires Build(h, cfg, keys, numBins) == Success(p) && |keys| > 0
    ensures p.Ready() && Distinct(Ids(p, h, keys))
  {
    var ids := Ids(p, h, keys);
    BuildInjective(h, cfg, keys, numBins, p);
    forall i, j | 0 <= i < j < |ids| ensures ids[i] != ids[j] {
      assert Hash(p, h, keys[i]) != Hash(p, h, keys[j]);
    }
  }

  /** Every acceptance marks as many new bins as its bucket has keys, so the
      processed set ends with exactly one bin per key. */
  lemma ProcessedCount(h: Hasher, cfg: Config, keys: seq<Key>, numBins: nat, p: Phf)
    requires Build(h, cfg, keys, numBins) == Success(p) && |keys| > 0
    ensures Admissible(cfg, keys, numBins) && Greedy(h, cfg, keys, numBins).Some?
    ensures |Greedy(h, cfg, keys, numBins).value.occupied| == p.numKeys
  {
    ProcessedAreIds(h, cfg, keys, numBins, p);
    IdsDistinct(h, cfg, keys, numBins, p);
    DistinctCard(Ids(p, h, keys));
  }

  /** A successful construction needs at least one bin per key. */
  lemma SuccessNeedsEnoughBins(h: Hasher, cfg: Config, keys: seq<Key>, numBins: nat, p: Phf)
    requires Build(h, cfg, keys, numBins) == Success(p)
    ensures |keys| <= numBins
  {
    if |keys| > 0 {
      var ids := Ids(p, h, keys);
      IdsDistinct(h, cfg, keys, numBins, p);
      DistinctCard(ids);
      BoundedCard(Elems(ids), numBins);
    }
  }

  /** With exactly one bin per key (load factor 1) every bin is some key's
      query result: the function is a minimal perfect hash. */
  lemma BuildMinimal(h: Hasher, cfg: Config, keys: seq<Key>, numBins: nat, p: Phf)
    requires Build(h, cfg, keys, numBins) == Success(p) && |keys| == numBins > 0
    ensures forall x: nat :: x < numBins ==> exists i :: 0 <= i < |keys| && Hash(p, h, keys[i]) == Success(x)
  {
    var ids := Ids(p, h, keys);
    IdsDistinct(h, cfg, keys, numBins, p);
    DistinctCard(ids);
    FullSet(Elems(ids), numBins);
    forall x: nat | x < numBins ensures exists i :: 0 <= i < |keys| && Hash(p, h, keys[i]) == Success(x) {
      assert x in Elems(ids);
      var i :| 0 <= i < |ids| && ids[i] == x;
      assert Hash(p, h, keys[i]) == Success(x);
    }
  }

  /** A non-empty bucket for which no occupancy admits a seed makes
      `Construct` throw "Cannot construct". */
  lemma StuckBucketFails(h: Hasher, cfg: Config, keys: seq<Key>, numBins: nat, b: nat)
    requires Admissible(cfg, keys, numBins)
    requires b < |BucketsOf(h, cfg, keys)| && |BucketsOf(h, cfg, keys)[b]| > 0
    requires forall occ :: Search(h, numBins, cfg.maxSeed, BucketsOf(h, cfg, keys)[b], occ) == None
    ensures Build(h, cfg, keys, numBins) == Failure(CannotConstruct)
  {
    var buckets := BucketsOf(h, cfg, keys);
    var order := OrderBySize(buckets);
    assert b in order;
    var t :| 0 <= t < |order| && order[t] == b;
    PlaceAllStuck(h, numBins, cfg.maxSeed, buckets, order, Placement(seq(|buckets|, _ => 0), {}), t);
  }

  /** Without a seed to try (`maxSeed <= 1`) any non-empty key list makes
      `Construct` throw. */
  lemma NoSeedsFails(h: Hasher, cfg: Config, keys: seq<Key>, numBins: nat)
    requires |keys| > 0 && cfg.maxSeed <= 1
    ensures Build(h, cfg, keys, numBins).Failure?
  {
    if Admissible(cfg, keys, numBins) {
      var n := BucketCount(cfg, keys);
      var b := BucketIndex(h, n, keys[0]);
      var pos := KeyInItsBucket(h, n, keys, 0);
      StuckBucketFails(h, cfg, keys, numBins, b);
    }
  }

  /** A key listed twice makes `Construct` throw: its two copies always share
      a bin. */
  lemma RepeatedKeyFails(h: Hasher, cfg: Config, keys: seq<Key>, numBins: nat, i: nat, j: nat)
    requires i < j < |keys| && keys[i] == keys[j]
    ensures Build(h, cfg, keys, numBins).Failure?
  {
    if Admissible(cfg, keys, numBins) {
      var n := BucketCount(cfg, keys);
      var b := BucketIndex(h, n, keys[i]);
      var p, q := SameBucketKeepsOrder(h, n, keys, i, j);
      forall occ ensures Search(h, numBins, cfg.maxSeed, BucketsOf(h, cfg, keys)[b], occ) == None {
        RepeatedKeyNeverPlaced(h, numBins, cfg.maxSeed, BucketsOf(h, cfg, keys)[b], occ, p, q);
      }
      StuckBucketFails(h, cfg, keys, numBins, b);
    }
  }

  /** Exporting the displacement array and importing it with the same key
      count and bin count restores the instance, so the imported function
      answers every key as the constructed one does and is injective too. */
  lemma ImportRestores(h: Hasher, cfg: Config, keys: seq<Key>, numBins: nat, p: Phf)
    requires Build(h, cfg, keys, numBins) == Success(p)
    ensures Import(|keys|, p.displacement, numBins) == p
    ensures var q := Import(|keys|, p.displacement, numBins);
      && (forall i :: 0 <= i < |keys| ==> Hash(q, h, keys[i]) == Hash(p, h, keys[i]))
      && (forall i, j :: 0 <= i < j < |keys| ==> Hash(q, h, keys[i]) != Hash(q, h, keys[j]))
  {
    BuildInjective(h, cfg, keys, numBins, p);
  }

  /** With the constructor's default settings (four keys per bucket, seeds
      up to `int.MaxValue`) `Construct` divides by zero exactly when there
      are one to three keys, or keys but no bins; otherwise it either
      succeeds or throws "Cannot construct". */
  lemma DefaultSettingsDivideByZero(h: Hasher, keys: seq<Key>, numBins: nat)
    ensures Build(h, DefaultConfig, keys, numBins) == Failure(DivideByZero) <==>
      0 < |keys| && (|keys| < DefaultKeysPerBucket || numBins == 0)
  {
  }
}
