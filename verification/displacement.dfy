/** The displacement search of `Construct`: for one bucket, the seeds
    1, 2, ... below `maxSeed` are tried until one places every key of the
    bucket in its own free bin.

    The candidate set (`kArray`) is emptied only when adding a bin to it
    fails; after an attempt that fails the size or the intersection test it
    keeps its bins into the next attempt. The search below keeps that
    behaviour. */
module Displacement {
  import opened Types
  import opened Seqs
  import opened Hashing

  /** Seed `d` is usable for `bucket`: its keys land in pairwise different
      bins, none of them already occupied. */
  ghost predicate Valid(h: Hasher, numBins: nat, bucket: seq<Key>, occupied: set<nat>, d: Uint32)
    requires numBins > 0
  {
    var bins := Bins(h, numBins, bucket, d);
    Distinct(bins) && Elems(bins) !! occupied
  }

  /** `bucket.Any(key => !kArray.Add(Phi(key, d)))`: the bins are added in
      order and the scan stops at the first one already present. The first
      component tells whether it stopped early. */
  function AddUntilCollision(k: set<nat>, bins: seq<nat>): (r: (bool, set<nat>))
    decreases |bins|
  {
    if |bins| == 0 then (false, k)
    else if bins[0] in k then (true, k)
    else AddUntilCollision(k + {bins[0]}, bins[1..])
  }

  /** The scan runs to the end exactly when the bins are pairwise different
      and new, and then every bin has been added. */
  lemma {:induction false} AddUntilCollisionSpec(k: set<nat>, bins: seq<nat>)
    ensures var r := AddUntilCollision(k, bins);
      (!r.0 <==> Distinct(bins) && Elems(bins) !! k) && (!r.0 ==> r.1 == k + Elems(bins))
    decreases |bins|
  {
    if |bins| == 0 {
    } else if bins[0] in k {
      assert bins[0] in Elems(bins);
    } else {
      AddUntilCollisionSpec(k + {bins[0]}, bins[1..]);
      assert Elems(bins) == {bins[0]} + Elems(bins[1..]) by {
        assert bins == [bins[0]] + bins[1..];
      }
      assert Distinct(bins) <==> Distinct(bins[1..]) && bins[0] !in bins[1..] by {
        if Distinct(bins[1..]) && bins[0] !in bins[1..] {
          forall i, j | 0 <= i < j < |bins| ensures bins[i] != bins[j] {
            if i > 0 { assert bins[i] == bins[1..][i - 1] && bins[j] == bins[1..][j - 1]; }
            else { assert bins[j] == bins[1..][j - 1]; }
          }
        }
        if Distinct(bins) {
          forall i, j | 0 <= i < j < |bins[1..]| ensures bins[1..][i] != bins[1..][j] {
            assert bins[1..][i] == bins[i + 1] && bins[1..][j] == bins[j + 1];
          }
        }
      }
    }
  }

  /** One turn of the seed loop with candidate set `k` and seed `d`: whether
      the seed is accepted, and the candidate set the next turn starts from. */
  function Attempt(h: Hasher, numBins: nat, bucket: seq<Key>, occupied: set<nat>, k: set<nat>, d: Uint32): (r: (bool, set<nat>))
    requires numBins > 0
  {
    var (collided, added) := AddUntilCollision(k, Bins(h, numBins, bucket, d));
    var k' := if collided then {} else added;
    (|k'| == |bucket| && k' !! occupied, k')
  }

  /** A seed is accepted exactly when the candidate set it starts from is
      empty and the seed is usable; the bins then claimed are the bucket's
      bins under that seed. */
  lemma AttemptAccepts(h: Hasher, numBins: nat, bucket: seq<Key>, occupied: set<nat>, k: set<nat>, d: Uint32)
    requires numBins > 0
    ensures Attempt(h, numBins, bucket, occupied, k, d).0 <==> k == {} && Valid(h, numBins, bucket, occupied, d)
    ensures Attempt(h, numBins, bucket, occupied, k, d).0 ==>
      Attempt(h, numBins, bucket, occupied, k, d).1 == Elems(Bins(h, numBins, bucket, d))
  {
    var bins := Bins(h, numBins, bucket, d);
    AddUntilCollisionSpec(k, bins);
    var (collided, added) := AddUntilCollision(k, bins);
    if collided {
      assert |bins| > 0;
    } else {
      DistinctCard(bins);
      assert |added| == |k| + |bucket|;
    }
  }

  /** After a rejected turn the candidate set is empty exactly when adding
      the bins collided, provided the bucket is not empty. */
  lemma RejectedAttemptKeeps(h: Hasher, numBins: nat, bucket: seq<Key>, occupied: set<nat>, k: set<nat>, d: Uint32)
    requires numBins > 0 && |bucket| > 0
    ensures Attempt(h, numBins, bucket, occupied, k, d).1 == {} <==>
      !(Distinct(Bins(h, numBins, bucket, d)) && Elems(Bins(h, numBins, bucket, d)) !! k)
  {
    var bins := Bins(h, numBins, bucket, d);
    AddUntilCollisionSpec(k, bins);
    assert bins[0] in Elems(bins);
  }

  /** The seed loop from seed `d` on, with candidate set `k`: the first seed
      below `maxSeed` whose turn is accepted. */
  function SearchFrom(h: Hasher, numBins: nat, maxSeed: Int32, bucket: seq<Key>, occupied: set<nat>, k: set<nat>, d: nat): (r: Option<Uint32>)
    requires numBins > 0 && d >= 1
    ensures r.Some? ==> d <= r.value < maxSeed
    decreases maxSeed - d
  {
    if d >= maxSeed then None
    else
      var turn := Attempt(h, numBins, bucket, occupied, k, d);
      if turn.0 then Some(d)
      else SearchFrom(h, numBins, maxSeed, bucket, occupied, turn.1, d + 1)
  }

  /** Soundness of the search, stale candidates included: a returned seed
      lies in [d, maxSeed) and places the bucket's keys in pairwise different
      free bins. */
  lemma {:induction false} SearchFromSound(h: Hasher, numBins: nat, maxSeed: Int32, bucket: seq<Key>, occupied: set<nat>, k: set<nat>, d: nat)
    requires numBins > 0 && d >= 1
    ensures var r := SearchFrom(h, numBins, maxSeed, bucket, occupied, k, d);
      r.Some? ==> d <= r.value < maxSeed && Valid(h, numBins, bucket, occupied, r.value)
    decreases maxSeed - d
  {
    if d < maxSeed {
      var turn := Attempt(h, numBins, bucket, occupied, k, d);
      if turn.0 {
        assert SearchFrom(h, numBins, maxSeed, bucket, occupied, k, d) == Some(d);
        AttemptAccepts(h, numBins, bucket, occupied, k, d);
      } else {
        assert SearchFrom(h, numBins, maxSeed, bucket, occupied, k, d)
            == SearchFrom(h, numBins, maxSeed, bucket, occupied, turn.1, d + 1);
        SearchFromSound(h, numBins, maxSeed, bucket, occupied, turn.1, d + 1);
      }
    }
  }

  /** The whole search for one bucket: seed 1 first, empty candidate set. */
  function Search(h: Hasher, numBins: nat, maxSeed: Int32, bucket: seq<Key>, occupied: set<nat>): (r: Option<Uint32>)
    requires numBins > 0
    ensures r.Some? ==> 1 <= r.value < maxSeed
    ensures maxSeed <= 1 ==> r.None?
  {
    SearchFrom(h, numBins, maxSeed, bucket, occupied, {}, 1)
  }

  /** A seed the search returns is usable. */
  lemma SearchSound(h: Hasher, numBins: nat, maxSeed: Int32, bucket: seq<Key>, occupied: set<nat>)
    requires numBins > 0
    ensures var r := Search(h, numBins, maxSeed, bucket, occupied);
      r.Some? ==> 1 <= r.value < maxSeed && Valid(h, numBins, bucket, occupied, r.value)
  {
    SearchFromSound(h, numBins, maxSeed, bucket, occupied, {}, 1);
  }

  /** Unfolds `SearchFrom` once: a rejected turn hands its candidate set on
      to the next seed. */
  lemma SearchStep(h: Hasher, numBins: nat, maxSeed: Int32, bucket: seq<Key>, occupied: set<nat>, k: set<nat>, d: nat)
    requires numBins > 0 && 1 <= d < maxSeed
    requires !Attempt(h, numBins, bucket, occupied, k, d).0
    ensures SearchFrom(h, numBins, maxSeed, bucket, occupied, k, d)
         == SearchFrom(h, numBins, maxSeed, bucket, occupied, Attempt(h, numBins, bucket, occupied, k, d).1, d + 1)
  {
  }

  /** A usable seed met with an empty candidate set is taken at once. In
      particular a usable seed 1 is always the one chosen. */
  lemma FreshValidSeedTaken(h: Hasher, numBins: nat, maxSeed: Int32, bucket: seq<Key>, occupied: set<nat>, d: nat)
    requires numBins > 0 && 1 <= d < maxSeed
    requires Valid(h, numBins, bucket, occupied, d)
    ensures SearchFrom(h, numBins, maxSeed, bucket, occupied, {}, d) == Some(d)
    ensures d == 1 ==> Search(h, numBins, maxSeed, bucket, occupied) == Some(1)
  {
    AttemptAccepts(h, numBins, bucket, occupied, {}, d);
  }

  /** A usable seed right after a turn whose bins collided is never skipped:
      the search stops there. If the turn before it did not collide, the
      usable seed is skipped. */
  lemma ValidSeedAfterTurn(h: Hasher, numBins: nat, maxSeed: Int32, bucket: seq<Key>, occupied: set<nat>, k: set<nat>, d: nat)
    requires numBins > 0 && 1 <= d && d + 1 < maxSeed && |bucket| > 0
    requires !Attempt(h, numBins, bucket, occupied, k, d).0
    requires Valid(h, numBins, bucket, occupied, d + 1)
    ensures SearchFrom(h, numBins, maxSeed, bucket, occupied, k, d) == Some(d + 1) <==>
      !(Distinct(Bins(h, numBins, bucket, d)) && Elems(Bins(h, numBins, bucket, d)) !! k)
  {
    var k' := Attempt(h, numBins, bucket, occupied, k, d).1;
    SearchStep(h, numBins, maxSeed, bucket, occupied, k, d);
    RejectedAttemptKeeps(h, numBins, bucket, occupied, k, d);
    var fits := Distinct(Bins(h, numBins, bucket, d)) && Elems(Bins(h, numBins, bucket, d)) !! k;
    assert k' == {} <==> !fits;
    if k' == {} {
      FreshValidSeedTaken(h, numBins, maxSeed, bucket, occupied, d + 1);
      assert SearchFrom(h, numBins, maxSeed, bucket, occupied, k, d) == Some(d + 1);
    } else {
      StaleCandidatesSkip(h, numBins, maxSeed, bucket, occupied, k', d + 1);
      assert SearchFrom(h, numBins, maxSeed, bucket, occupied, k, d) != Some(d + 1);
    }
  }

  /** A turn that starts from a non-empty candidate set never accepts. */
  lemma StaleCandidatesSkip(h: Hasher, numBins: nat, maxSeed: Int32, bucket: seq<Key>, occupied: set<nat>, k: set<nat>, d: nat)
    requires numBins > 0 && 1 <= d < maxSeed && k != {}
    ensures SearchFrom(h, numBins, maxSeed, bucket, occupied, k, d) != Some(d)
  {
    AttemptAccepts(h, numBins, bucket, occupied, k, d);
    SearchStep(h, numBins, maxSeed, bucket, occupied, k, d);
  }

  /** A toy hasher for the example below: with seed `d >= 1` the key
      starting with byte `b` hashes to `(2 * d - 2 + b) % 4`. */
  function ToyHasher(key: Key, seed: Uint32): Uint32
  {
    if |key| > 0 && seed >= 1 then (2 * seed - 2 + key[0]) % 4 else 0
  }

  /** The candidate set kept after a failed intersection test makes the
      search miss a usable seed: with four bins and bin 0 occupied, seed 1
      puts the two keys in bins 0 and 1 and is rejected; seed 2 puts them in
      the free bins 2 and 3, but the leftover bins 0 and 1 make the set's
      size 4, so seed 2 is rejected too and, with `maxSeed` 3, the search
      fails. */
  lemma StaleSetSkipsValidSeed()
    ensures Valid(ToyHasher, 4, [[0], [1]], {0}, 2)
    ensures Search(ToyHasher, 4, 3, [[0], [1]], {0}) == None
  {
    var bucket: seq<Key> := [[0], [1]];
    var bins1 := Bins(ToyHasher, 4, bucket, 1);
    var bins2 := Bins(ToyHasher, 4, bucket, 2);
    assert bins1[0] == 0 && bins1[1] == 1;
    assert bins2[0] == 2 && bins2[1] == 3;
    assert Distinct(bins1) && Distinct(bins2);
    assert 0 in Elems(bins1);
    assert Elems(bins2) == {2, 3};
    AttemptAccepts(ToyHasher, 4, bucket, {0}, {}, 1);
    RejectedAttemptKeeps(ToyHasher, 4, bucket, {0}, {}, 1);
    var k1 := Attempt(ToyHasher, 4, bucket, {0}, {}, 1).1;
    AttemptAccepts(ToyHasher, 4, bucket, {0}, k1, 2);
    var k2 := Attempt(ToyHasher, 4, bucket, {0}, k1, 2).1;
    assert SearchFrom(ToyHasher, 4, 3, bucket, {0}, {}, 1) == SearchFrom(ToyHasher, 4, 3, bucket, {0}, k1, 2);
    assert SearchFrom(ToyHasher, 4, 3, bucket, {0}, k1, 2) == SearchFrom(ToyHasher, 4, 3, bucket, {0}, k2, 3);
  }

  /** A bucket holding the same key twice has no usable seed, so its search
      fails whatever the ceiling. */
  lemma RepeatedKeyNeverPlaced(h: Hasher, numBins: nat, maxSeed: Int32, bucket: seq<Key>, occupied: set<nat>, p: nat, q: nat)
    requires numBins > 0 && p < q < |bucket| && bucket[p] == bucket[q]
    ensures Search(h, numBins, maxSeed, bucket, occupied) == None
  {
    SearchSound(h, numBins, maxSeed, bucket, occupied);
    forall d: Uint32 ensures !Valid(h, numBins, bucket, occupied, d) {
      var bins := Bins(h, numBins, bucket, d);
      assert bins[p] == bins[q];
    }
  }

  /** `bucket.Any(key => !kArray.Add(...))` over the bins of one turn. */
  method AddBins(k: set<nat>, bins: seq<nat>) returns (collided: bool, added: set<nat>)
    ensures collided == AddUntilCollision(k, bins).0
    ensures !collided ==> added == AddUntilCollision(k, bins).1
    ensures collided <==> !(Distinct(bins) && Elems(bins) !! k)
    ensures !collided ==> added == k + Elems(bins)
  {
    AddUntilCollisionSpec(k, bins);
    added := k;
    collided := false;
    var i := 0;
    while !collided && i < |bins|
      invariant 0 <= i <= |bins|
      invariant !collided ==> AddUntilCollision(added, bins[i..]) == AddUntilCollision(k, bins)
      invariant collided ==> AddUntilCollision(k, bins).0
    {
      assert bins[i..] == [bins[i]] + bins[i + 1..];
      if bins[i] in added {
        collided := true;
      } else {
        added := added + {bins[i]};
        i := i + 1;
      }
    }
    if !collided {
      assert bins[i..] == [];
    }
  }

  /** One turn of the seed loop: add the bins, empty the candidate set on a
      collision, then test its size and its intersection with the occupied
      bins. The seed is accepted exactly when the turn starts from an empty
      candidate set and the seed is usable; the accepted set is then the
      bucket's bins. For a non-empty bucket the next turn starts from an
      empty set exactly when the bins collided. */
  method Turn(h: Hasher, numBins: nat, bucket: seq<Key>, occupied: set<nat>, kArray: set<nat>, d: Uint32)
    returns (accepted: bool, next: set<nat>)
    requires numBins > 0
    ensures accepted <==> kArray == {} && Valid(h, numBins, bucket, occupied, d)
    ensures accepted ==> next == Elems(Bins(h, numBins, bucket, d))
    ensures |bucket| > 0 ==>
      (next == {} <==> !(Distinct(Bins(h, numBins, bucket, d)) && Elems(Bins(h, numBins, bucket, d)) !! kArray))
    ensures (accepted, next) == Attempt(h, numBins, bucket, occupied, kArray, d)
  {
    var collided;
    collided, next := AddBins(kArray, Bins(h, numBins, bucket, d));
    if collided {
      next := {};
    }
    accepted := |next| == |bucket| && next !! occupied;
    AttemptAccepts(h, numBins, bucket, occupied, kArray, d);
    if |bucket| > 0 {
      RejectedAttemptKeeps(h, numBins, bucket, occupied, kArray, d);
    }
  }

  /** The seed loop of `Construct` for one non-empty bucket. */
  method FindDisplacement(h: Hasher, numBins: nat, maxSeed: Int32, bucket: seq<Key>, occupied: set<nat>)
    returns (found: bool, d: Uint32, claimed: set<nat>)
    requires numBins > 0
    ensures found <==> Search(h, numBins, maxSeed, bucket, occupied).Some?
    ensures found ==> d == Search(h, numBins, maxSeed, bucket, occupied).value
    ensures found ==> 1 <= d < maxSeed && Valid(h, numBins, bucket, occupied, d)
    ensures found ==> claimed == Elems(Bins(h, numBins, bucket, d))
  {
    SearchSound(h, numBins, maxSeed, bucket, occupied);
    var kArray: set<nat> := {};
    var seed: nat := 1;  // InitSeed + 1
    while seed < maxSeed
      invariant seed >= 1
      invariant SearchFrom(h, numBins, maxSeed, bucket, occupied, kArray, seed) == Search(h, numBins, maxSeed, bucket, occupied)
      decreases maxSeed - seed
    {
      ghost var k0 := kArray;
      var accepted;
      accepted, kArray := Turn(h, numBins, bucket, occupied, kArray, seed);
      if accepted {
        return true, seed, kArray;
      }
      SearchStep(h, numBins, maxSeed, bucket, occupied, k0, seed);
      seed := seed + 1;
    }
    return false, 0, {};
  }
}
