/** `Construct`, the query `Hash(key)` and `Import` of `PerfectHashFunction`:
    the buckets are visited largest first and each non-empty one receives
    the seed its displacement search returns, given the bins claimed so
    far. */
module Construction {
  import opened Types
  import opened Seqs
  import opened Hashing
  import opened Bucketing
  import opened Displacement

  /** The fields of a `PerfectHashFunction` instance that queries read.
      `_numBuckets` is always the length of the displacement array, so it is
      not stored separately. */
  datatype Phf = Phf(numKeys: nat, numBins: nat, displacement: seq<Uint32>)
  {
    function NumBuckets(): (n: nat)
    {
      |displacement|
    }

    /** Queries do not divide by zero. */
    predicate Ready()
    {
      numBins > 0 && |displacement| > 0
    }
  }

  /** The exceptions `Construct` and `Hash` can raise: the explicit
      "Cannot construct" and the runtime's division by zero. */
  datatype Error = CannotConstruct | DivideByZero

  /** The query of a ready instance: the key's bin under its bucket's
      displacement. */
  function Query(p: Phf, h: Hasher, key: Key): (r: nat)
    requires p.Ready()
    ensures r < p.numBins
  {
    Phi(h, p.numBins, key, p.displacement[BucketIndex(h, p.NumBuckets(), key)])
  }

  /** `Hash(key)`, including the division by zero on an instance without
      buckets or bins. */
  function Hash(p: Phf, h: Hasher, key: Key): (r: Result<nat, Error>)
    ensures r.Success? <==> p.Ready()
    ensures r.Failure? ==> r.error == DivideByZero
    ensures r.Success? ==> r.value < p.numBins
  {
    if p.Ready() then Success(Query(p, h, key)) else Failure(DivideByZero)
  }

  /** `Import`: the state rebuilt from the key count, an exported
      displacement array and the bin count the load factor gives. */
  function Import(numKeys: nat, displacement: seq<Uint32>, numBins: nat): (p: Phf)
    ensures p.numKeys == numKeys && p.NumBuckets() == |displacement|
  {
    Phf(numKeys, numBins, displacement)
  }

  /** The construction-time state: the displacement array being filled and
      the occupied bins (`processedArray`). */
  datatype Placement = Placement(displacement: seq<Uint32>, occupied: set<nat>)

  /** Every key of bucket `b` has bucket index `b`. */
  ghost predicate Indexed(h: Hasher, buckets: seq<seq<Key>>)
  {
    forall b, i :: 0 <= b < |buckets| && 0 <= i < |buckets[b]| ==> BucketIndex(h, |buckets|, buckets[b][i]) == b
  }

  /** Every position of `order` names a bucket. */
  ghost predicate InRange(order: seq<nat>, n: nat)
  {
    forall t :: 0 <= t < |order| ==> order[t] < n
  }

  /** The bucket loop of `Construct` over the buckets still to visit. */
  function PlaceAll(h: Hasher, numBins: nat, maxSeed: Int32, buckets: seq<seq<Key>>, order: seq<nat>, pl: Placement): (r: Option<Placement>)
    requires numBins > 0 && InRange(order, |buckets|) && |pl.displacement| == |buckets|
    ensures r.Some? ==> |r.value.displacement| == |buckets|
    decreases |order|
  {
    if |order| == 0 then Some(pl)
    else
      var bucket := buckets[order[0]];
      if |bucket| == 0 then PlaceAll(h, numBins, maxSeed, buckets, order[1..], pl)
      else
        match Search(h, numBins, maxSeed, bucket, pl.occupied)
        case None => None
        case Some(d) =>
          var b := BucketIndex(h, |buckets|, bucket[0]);
          var next := Placement(pl.displacement[b := d], pl.occupied + Elems(Bins(h, numBins, bucket, d)));
          PlaceAll(h, numBins, maxSeed, buckets, order[1..], next)
  }

  /** The bins claimed by the buckets in `done` under displacement `disp`. */
  ghost predicate ClaimedBy(h: Hasher, numBins: nat, buckets: seq<seq<Key>>, done: set<nat>, disp: seq<Uint32>, x: nat)
    requires numBins > 0 && |disp| == |buckets|
  {
    exists b :: 0 <= b < |buckets| && b in done && x in Elems(Bins(h, numBins, buckets[b], disp[b]))
  }

  /** Unvisited and empty buckets keep displacement 0; every placed bucket
      has a seed in [1, maxSeed) under which its keys' bins are pairwise
      different. */
  ghost predicate SeedsPlaced(h: Hasher, numBins: nat, maxSeed: Int32, buckets: seq<seq<Key>>, done: set<nat>, disp: seq<Uint32>)
    requires numBins > 0 && |disp| == |buckets|
  {
    && (forall b :: 0 <= b < |buckets| && (b !in done || |buckets[b]| == 0) ==> disp[b] == 0)
    && (forall b :: 0 <= b < |buckets| && b in done && |buckets[b]| > 0 ==>
          1 <= disp[b] < maxSeed && Distinct(Bins(h, numBins, buckets[b], disp[b])))
  }

  /** Two placed buckets share no bin. */
  ghost predicate BinsDisjoint(h: Hasher, numBins: nat, buckets: seq<seq<Key>>, done: set<nat>, disp: seq<Uint32>)
    requires numBins > 0 && |disp| == |buckets|
  {
    forall b1, b2 :: 0 <= b1 < |buckets| && 0 <= b2 < |buckets| && b1 in done && b2 in done && b1 != b2 ==>
      Elems(Bins(h, numBins, buckets[b1], disp[b1])) !! Elems(Bins(h, numBins, buckets[b2], disp[b2]))
  }

  /** The occupied bins are exactly the bins the placed buckets claim. */
  ghost predicate OccupiedIsClaimed(h: Hasher, numBins: nat, buckets: seq<seq<Key>>, done: set<nat>, pl: Placement)
    requires numBins > 0 && |pl.displacement| == |buckets|
  {
    forall x :: x in pl.occupied <==> ClaimedBy(h, numBins, buckets, done, pl.displacement, x)
  }

  /** What holds of the placement once the buckets in `done` are visited. */
  ghost predicate Placed(h: Hasher, numBins: nat, maxSeed: Int32, buckets: seq<seq<Key>>, done: set<nat>, pl: Placement)
    requires numBins > 0
  {
    && |pl.displacement| == |buckets|
    && SeedsPlaced(h, numBins, maxSeed, buckets, done, pl.displacement)
    && BinsDisjoint(h, numBins, buckets, done, pl.displacement)
    && OccupiedIsClaimed(h, numBins, buckets, done, pl)
  }

  /** Visiting an empty bucket changes nothing. */
  lemma PlaceEmpty(h: Hasher, numBins: nat, maxSeed: Int32, buckets: seq<seq<Key>>, done: set<nat>, pl: Placement, b: nat)
    requires numBins > 0 && Placed(h, numBins, maxSeed, buckets, done, pl)
    requires b < |buckets| && |buckets[b]| == 0
    ensures Placed(h, numBins, maxSeed, buckets, done + {b}, pl)
  {
    var disp := pl.displacement;
    assert Elems(Bins(h, numBins, buckets[b], disp[b])) == {};
    forall x ensures ClaimedBy(h, numBins, buckets, done + {b}, disp, x) ==> ClaimedBy(h, numBins, buckets, done, disp, x) {
      if ClaimedBy(h, numBins, buckets, done + {b}, disp, x) {
        var c :| 0 <= c < |buckets| && c in done + {b} && x in Elems(Bins(h, numBins, buckets[c], disp[c]));
        assert c != b;
      }
    }
  }

  /** Placing bucket `b` with a usable seed keeps the invariant. */
  lemma PlaceBucket(h: Hasher, numBins: nat, maxSeed: Int32, buckets: seq<seq<Key>>, done: set<nat>, pl: Placement, b: nat, d: Uint32)
    requires numBins > 0 && Placed(h, numBins, maxSeed, buckets, done, pl)
    requires b < |buckets| && b !in done && |buckets[b]| > 0
    requires 1 <= d < maxSeed && Valid(h, numBins, buckets[b], pl.occupied, d)
    ensures Placed(h, numBins, maxSeed, buckets, done + {b},
      Placement(pl.displacement[b := d], pl.occupied + Elems(Bins(h, numBins, buckets[b], d))))
  {
    var pl' := Placement(pl.displacement[b := d], pl.occupied + Elems(Bins(h, numBins, buckets[b], d)));
    PlaceBucketSeeds(h, numBins, maxSeed, buckets, done, pl.displacement, b, d);
    ClaimedWithin(h, numBins, maxSeed, buckets, done, pl);
    PlaceBucketDisjoint(h, numBins, maxSeed, buckets, done, pl, b, d);
    PlaceBucketOccupied(h, numBins, maxSeed, buckets, done, pl, b, d);
  }

  lemma PlaceBucketSeeds(h: Hasher, numBins: nat, maxSeed: Int32, buckets: seq<seq<Key>>, done: set<nat>, disp: seq<Uint32>, b: nat, d: Uint32)
    requires numBins > 0 && |disp| == |buckets| && SeedsPlaced(h, numBins, maxSeed, buckets, done, disp)
    requires b < |buckets| && |buckets[b]| > 0
    requires 1 <= d < maxSeed && Distinct(Bins(h, numBins, buckets[b], d))
    ensures SeedsPlaced(h, numBins, maxSeed, buckets, done + {b}, disp[b := d])
  {
  }

  /** Each placed bucket's bins are occupied. */
  lemma ClaimedWithin(h: Hasher, numBins: nat, maxSeed: Int32, buckets: seq<seq<Key>>, done: set<nat>, pl: Placement)
    requires numBins > 0 && Placed(h, numBins, maxSeed, buckets, done, pl)
    ensures forall c :: 0 <= c < |buckets| && c in done ==>
      Elems(Bins(h, numBins, buckets[c], pl.displacement[c])) <= pl.occupied
  {
    forall c, x | 0 <= c < |buckets| && c in done && x in Elems(Bins(h, numBins, buckets[c], pl.displacement[c]))
      ensures x in pl.occupied
    {
      assert ClaimedBy(h, numBins, buckets, done, pl.displacement, x);
    }
  }

  lemma PlaceBucketDisjoint(h: Hasher, numBins: nat, maxSeed: Int32, buckets: seq<seq<Key>>, done: set<nat>, pl: Placement, b: nat, d: Uint32)
    requires numBins > 0 && Placed(h, numBins, maxSeed, buckets, done, pl)
    requires forall c :: 0 <= c < |buckets| && c in done ==>
      Elems(Bins(h, numBins, buckets[c], pl.displacement[c])) <= pl.occupied
    requires b < |buckets| && b !in done
    requires Elems(Bins(h, numBins, buckets[b], d)) !! pl.occupied
    ensures BinsDisjoint(h, numBins, buckets, done + {b}, pl.displacement[b := d])
  {
    var disp' := pl.displacement[b := d];
    forall c | 0 <= c < |buckets| && c in done
      ensures Elems(Bins(h, numBins, buckets[c], disp'[c])) !! Elems(Bins(h, numBins, buckets[b], disp'[b]))
    {
      assert disp'[c] == pl.displacement[c];
    }
  }

  lemma PlaceBucketOccupied(h: Hasher, numBins: nat, maxSeed: Int32, buckets: seq<seq<Key>>, done: set<nat>, pl: Placement, b: nat, d: Uint32)
    requires numBins > 0 && Placed(h, numBins, maxSeed, buckets, done, pl)
    requires b < |buckets| && b !in done
    ensures OccupiedIsClaimed(h, numBins, buckets, done + {b},
      Placement(pl.displacement[b := d], pl.occupied + Elems(Bins(h, numBins, buckets[b], d))))
  {
    var disp := pl.displacement;
    var disp' := disp[b := d];
    var claim := Elems(Bins(h, numBins, buckets[b], d));
    forall x ensures x in pl.occupied + claim <==> ClaimedBy(h, numBins, buckets, done + {b}, disp', x) {
      if x in pl.occupied {
        assert ClaimedBy(h, numBins, buckets, done, disp, x);
        var c :| 0 <= c < |buckets| && c in done && x in Elems(Bins(h, numBins, buckets[c], disp[c]));
        assert disp'[c] == disp[c];
      } else if x in claim {
        assert x in Elems(Bins(h, numBins, buckets[b], disp'[b]));
      }
      if ClaimedBy(h, numBins, buckets, done + {b}, disp', x) {
        var c :| 0 <= c < |buckets| && c in done + {b} && x in Elems(Bins(h, numBins, buckets[c], disp'[c]));
        if c != b {
          assert disp'[c] == disp[c];
          assert ClaimedBy(h, numBins, buckets, done, disp, x);
        }
      }
    }
  }

  /** Before the loop no bucket is placed and no bin is occupied. */
  lemma PlacedInitially(h: Hasher, numBins: nat, maxSeed: Int32, buckets: seq<seq<Key>>)
    requires numBins > 0
    ensures Placed(h, numBins, maxSeed, buckets, {}, Placement(seq(|buckets|, _ => 0), {}))
  {
  }

  /** The bucket loop keeps the invariant over every bucket it visits. */
  lemma {:induction false} PlaceAllKeeps(h: Hasher, numBins: nat, maxSeed: Int32, buckets: seq<seq<Key>>, order: seq<nat>, pl: Placement, done: set<nat>)
    requires numBins > 0 && InRange(order, |buckets|) && Indexed(h, buckets)
    requires Placed(h, numBins, maxSeed, buckets, done, pl)
    requires Distinct(order) && forall t :: 0 <= t < |order| ==> order[t] !in done
    ensures var r := PlaceAll(h, numBins, maxSeed, buckets, order, pl);
      r.Some? ==> Placed(h, numBins, maxSeed, buckets, done + Elems(order), r.value)
    decreases |order|
  {
    if |order| > 0 {
      var b := order[0];
      var rest := order[1..];
      assert order == [b] + rest;
      assert done + Elems(order) == (done + {b}) + Elems(rest);
      assert Distinct(rest) by {
        forall i, j | 0 <= i < j < |rest| ensures rest[i] != rest[j] {
          assert rest[i] == order[i + 1] && rest[j] == order[j + 1];
        }
      }
      assert forall t :: 0 <= t < |rest| ==> rest[t] !in done + {b} by {
        forall t | 0 <= t < |rest| ensures rest[t] !in done + {b} {
          assert rest[t] == order[t + 1];
        }
      }
      var bucket := buckets[b];
      if |bucket| == 0 {
        PlaceEmpty(h, numBins, maxSeed, buckets, done, pl, b);
        PlaceAllKeeps(h, numBins, maxSeed, buckets, rest, pl, done + {b});
      } else {
        SearchSound(h, numBins, maxSeed, bucket, pl.occupied);
        match Search(h, numBins, maxSeed, bucket, pl.occupied)
        case None =>
        case Some(d) =>
          assert BucketIndex(h, |buckets|, bucket[0]) == b;
          PlaceBucket(h, numBins, maxSeed, buckets, done, pl, b, d);
          var next := Placement(pl.displacement[b := d], pl.occupied + Elems(Bins(h, numBins, bucket, d)));
          PlaceAllKeeps(h, numBins, maxSeed, buckets, rest, next, done + {b});
      }
    }
  }

  /** The loop stops with no result when it reaches a non-empty bucket whose
      search fails whatever bins are occupied. */
  lemma {:induction false} PlaceAllStuck(h: Hasher, numBins: nat, maxSeed: Int32, buckets: seq<seq<Key>>, order: seq<nat>, pl: Placement, t: nat)
    requires numBins > 0 && InRange(order, |buckets|) && |pl.displacement| == |buckets|
    requires t < |order| && |buckets[order[t]]| > 0
    requires forall occ :: Search(h, numBins, maxSeed, buckets[order[t]], occ) == None
    ensures PlaceAll(h, numBins, maxSeed, buckets, order, pl) == None
    decreases |order|
  {
    var bucket := buckets[order[0]];
    if t > 0 && |bucket| == 0 {
      assert order[1..][t - 1] == order[t];
      PlaceAllStuck(h, numBins, maxSeed, buckets, order[1..], pl, t - 1);
    } else if t > 0 && Search(h, numBins, maxSeed, bucket, pl.occupied).Some? {
      var d := Search(h, numBins, maxSeed, bucket, pl.occupied).value;
      var b := BucketIndex(h, |buckets|, bucket[0]);
      var next := Placement(pl.displacement[b := d], pl.occupied + Elems(Bins(h, numBins, bucket, d)));
      assert order[1..][t - 1] == order[t];
      PlaceAllStuck(h, numBins, maxSeed, buckets, order[1..], next, t - 1);
    }
  }

  /** What `Construct` demands of its inputs: a positive key count per
      bucket and bin count, and at least one bucket when there are keys. */
  predicate Admissible(cfg: Config, keys: seq<Key>, numBins: nat)
  {
    cfg.keysPerBucket >= 1 && numBins > 0 && (|keys| == 0 || cfg.keysPerBucket <= |keys|)
  }

  /** `_numBuckets = _numKeys / _keysPerBucket`. */
  function BucketCount(cfg: Config, keys: seq<Key>): (n: nat)
    requires Admissible(cfg, keys, 1)
    ensures |keys| > 0 <==> n > 0
  {
    var n := |keys| / cfg.keysPerBucket;
    assert |keys| > 0 ==> n >= 1 by {
      if |keys| > 0 { DivAtLeastOne(|keys|, cfg.keysPerBucket); }
    }
    n
  }

  lemma DivAtLeastOne(a: nat, b: nat)
    requires 1 <= b <= a
    ensures a / b >= 1
  {
  }

  /** The buckets `Construct` builds. */
  function BucketsOf(h: Hasher, cfg: Config, keys: seq<Key>): (bs: seq<seq<Key>>)
    requires Admissible(cfg, keys, 1)
  {
    Distribute(h, BucketCount(cfg, keys), keys)
  }

  /** The placement the bucket loop of `Construct` reaches, if any. */
  function Greedy(h: Hasher, cfg: Config, keys: seq<Key>, numBins: nat): (r: Option<Placement>)
    requires Admissible(cfg, keys, numBins)
  {
    var buckets := BucketsOf(h, cfg, keys);
    PlaceAll(h, numBins, cfg.maxSeed, buckets, OrderBySize(buckets), Placement(seq(|buckets|, _ => 0), {}))
  }

  /** `Construct`: the instance state after a successful construction, or
      the exception it raises. With no bins and some keys the first `Phi`
      divides by zero, unless there is no seed to try at all. */
  function Build(h: Hasher, cfg: Config, keys: seq<Key>, numBins: nat): (r: Result<Phf, Error>)
    ensures r.Success? ==> r.value.numKeys == |keys| && r.value.numBins == numBins
    ensures r.Success? ==> cfg.keysPerBucket > 0 && r.value.NumBuckets() == |keys| / cfg.keysPerBucket
    ensures r.Success? && |keys| > 0 ==> r.value.Ready()
  {
    if cfg.keysPerBucket == 0 || 0 < |keys| < cfg.keysPerBucket then Failure(DivideByZero)
    else if numBins == 0 && |keys| > 0 then
      if cfg.maxSeed > 1 then Failure(DivideByZero) else Failure(CannotConstruct)
    else if numBins == 0 then Success(Phf(0, 0, []))
    else
      match Greedy(h, cfg, keys, numBins)
      case None => Failure(CannotConstruct)
      case Some(pl) => Success(Phf(|keys|, numBins, pl.displacement))
  }

  /** A successful construction with keys went through the bucket loop. */
  lemma BuildUnfolds(h: Hasher, cfg: Config, keys: seq<Key>, numBins: nat)
    requires Build(h, cfg, keys, numBins).Success? && |keys| > 0
    ensures Admissible(cfg, keys, numBins) && Greedy(h, cfg, keys, numBins).Some?
    ensures Build(h, cfg, keys, numBins).value == Phf(|keys|, numBins, Greedy(h, cfg, keys, numBins).value.displacement)
  {
  }

  /** After the loop every bucket has been visited. */
  lemma GreedyPlacesAll(h: Hasher, cfg: Config, keys: seq<Key>, numBins: nat)
    requires Admissible(cfg, keys, numBins) && Greedy(h, cfg, keys, numBins).Some?
    ensures var buckets := BucketsOf(h, cfg, keys);
      Placed(h, numBins, cfg.maxSeed, buckets, Elems(OrderBySize(buckets)), Greedy(h, cfg, keys, numBins).value)
  {
    var buckets := BucketsOf(h, cfg, keys);
    var order := OrderBySize(buckets);
    PlacedInitially(h, numBins, cfg.maxSeed, buckets);
    PlaceAllKeeps(h, numBins, cfg.maxSeed, buckets, order, Placement(seq(|buckets|, _ => 0), {}), {});
    assert {} + Elems(order) == Elems(order);
  }
}
