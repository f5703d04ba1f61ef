/** `CreateBuckets`: the keys distributed over the buckets by their seed-0
    hash, and the order in which the buckets are then processed. */
module Bucketing {
  import opened Types
  import opened Seqs
  import opened Hashing

  /** The bucket array after the keys have been appended, in input order,
      to the bucket of their seed-0 index. Every key of bucket `b` has bucket
      index `b`. */
  function Distribute(h: Hasher, numBuckets: nat, keys: seq<Key>): (bs: seq<seq<Key>>)
    requires numBuckets > 0 || |keys| == 0
    ensures |bs| == numBuckets
    ensures forall b, i :: 0 <= b < |bs| && 0 <= i < |bs[b]| ==> BucketIndex(h, numBuckets, bs[b][i]) == b
    decreases |keys|
  {
    if |keys| == 0 then seq(numBuckets, _ => [])
    else
      var last := keys[|keys| - 1];
      var bs := Distribute(h, numBuckets, keys[..|keys| - 1]);
      var b := BucketIndex(h, numBuckets, last);
      bs[b := bs[b] + [last]]
  }

  /** All buckets laid end to end, in index order. */
  function Flatten(bs: seq<seq<Key>>): (ks: seq<Key>)
  {
    if |bs| == 0 then [] else Flatten(bs[..|bs| - 1]) + bs[|bs| - 1]
  }

  lemma {:induction false} FlattenAppend(bs: seq<seq<Key>>, b: nat, k: Key)
    requires b < |bs|
    ensures multiset(Flatten(bs[b := bs[b] + [k]])) == multiset(Flatten(bs)) + multiset{k}
  {
    var bs' := bs[b := bs[b] + [k]];
    var n := |bs| - 1;
    if b == n {
      assert bs'[..n] == bs[..n];
    } else {
      assert bs'[..n] == bs[..n][b := bs[b] + [k]];
      FlattenAppend(bs[..n], b, k);
    }
  }

  /** The buckets together are a permutation of the keys: no key is lost and
      none is added. */
  lemma {:induction false} DistributeIsPartition(h: Hasher, numBuckets: nat, keys: seq<Key>)
    requires numBuckets > 0 || |keys| == 0
    ensures multiset(Flatten(Distribute(h, numBuckets, keys))) == multiset(keys)
    decreases |keys|
  {
    if |keys| == 0 {
      var bs := Distribute(h, numBuckets, keys);
      EmptyFlatten(bs);
    } else {
      var n := |keys| - 1;
      DistributeIsPartition(h, numBuckets, keys[..n]);
      FlattenAppend(Distribute(h, numBuckets, keys[..n]), BucketIndex(h, numBuckets, keys[n]), keys[n]);
      assert keys == keys[..n] + [keys[n]];
    }
  }

  lemma {:induction false} EmptyFlatten(bs: seq<seq<Key>>)
    requires forall b :: 0 <= b < |bs| ==> bs[b] == []
    ensures Flatten(bs) == []
  {
    if |bs| > 0 {
      EmptyFlatten(bs[..|bs| - 1]);
    }
  }

  /** Each key is found in the bucket at its own seed-0 index; the position is
      returned. */
  lemma {:induction false} KeyInItsBucket(h: Hasher, numBuckets: nat, keys: seq<Key>, i: nat)
    returns (p: nat)
    requires i < |keys| && numBuckets > 0
    ensures var bs := Distribute(h, numBuckets, keys); var b := BucketIndex(h, numBuckets, keys[i]);
      p < |bs[b]| && bs[b][p] == keys[i]
    decreases |keys|
  {
    var n := |keys| - 1;
    var prev := Distribute(h, numBuckets, keys[..n]);
    var b := BucketIndex(h, numBuckets, keys[i]);
    if i == n {
      p := |prev[b]|;
    } else {
      p := KeyInItsBucket(h, numBuckets, keys[..n], i);
    }
  }

  /** Two positions of the key list that share a bucket occupy two different
      positions of that bucket, in the same order. */
  lemma {:induction false} SameBucketKeepsOrder(h: Hasher, numBuckets: nat, keys: seq<Key>, i: nat, j: nat)
    returns (p: nat, q: nat)
    requires i < j < |keys| && numBuckets > 0
    requires BucketIndex(h, numBuckets, keys[i]) == BucketIndex(h, numBuckets, keys[j])
    ensures var bs := Distribute(h, numBuckets, keys); var b := BucketIndex(h, numBuckets, keys[i]);
      p < q < |bs[b]| && bs[b][p] == keys[i] && bs[b][q] == keys[j]
    decreases |keys|
  {
    var n := |keys| - 1;
    var prev := Distribute(h, numBuckets, keys[..n]);
    var b := BucketIndex(h, numBuckets, keys[i]);
    if j == n {
      p := KeyInItsBucket(h, numBuckets, keys[..n], i);
      q := |prev[b]|;
    } else {
      p, q := SameBucketKeepsOrder(h, numBuckets, keys[..n], i, j);
    }
  }

  /** Every key held by a bucket is one of the input keys. */
  lemma {:induction false} BucketKeyIsInput(h: Hasher, numBuckets: nat, keys: seq<Key>, b: nat, p: nat)
    returns (i: nat)
    requires numBuckets > 0 || |keys| == 0
    requires b < numBuckets && p < |Distribute(h, numBuckets, keys)[b]|
    ensures i < |keys| && keys[i] == Distribute(h, numBuckets, keys)[b][p]
    decreases |keys|
  {
    var n := |keys| - 1;
    var prev := Distribute(h, numBuckets, keys[..n]);
    if p < |prev[b]| {
      i := BucketKeyIsInput(h, numBuckets, keys[..n], b, p);
    } else {
      i := n;
    }
  }

  /** The number of keys in bucket `b` (0 outside the array). */
  function Size(bs: seq<seq<Key>>, b: nat): (n: nat)
  {
    if b < |bs| then |bs[b]| else 0
  }

  /** The processing order: larger buckets first; among buckets of equal size
      the lower index first, as a stable descending sort leaves them. */
  predicate Precedes(bs: seq<seq<Key>>, a: nat, b: nat)
  {
    Size(bs, a) > Size(bs, b) || (Size(bs, a) == Size(bs, b) && a < b)
  }

  ghost predicate SortedBySize(bs: seq<seq<Key>>, s: seq<nat>)
  {
    forall i, j :: 0 <= i < j < |s| ==> Precedes(bs, s[i], s[j])
  }

  /** Inserts bucket index `b` in front of the first index it precedes. */
  function InsertBySize(bs: seq<seq<Key>>, b: nat, s: seq<nat>): (r: seq<nat>)
    ensures multiset(r) == multiset(s) + multiset{b}
    ensures forall x :: x in r <==> x == b || x in s
  {
    if |s| == 0 then [b]
    else if Precedes(bs, b, s[0]) then [b] + s
    else
      assert s == [s[0]] + s[1..];
      [s[0]] + InsertBySize(bs, b, s[1..])
  }

  /** Insertion keeps an order sorted. */
  lemma {:induction false} InsertKeepsSorted(bs: seq<seq<Key>>, b: nat, s: seq<nat>)
    requires SortedBySize(bs, s) && b !in s
    ensures SortedBySize(bs, InsertBySize(bs, b, s))
  {
    if |s| == 0 {
    } else if Precedes(bs, b, s[0]) {
      forall j | 0 <= j < |s| ensures Precedes(bs, b, s[j]) {
        if j > 0 { assert Precedes(bs, s[0], s[j]); }
      }
    } else {
      var tail := s[1..];
      assert SortedBySize(bs, tail) by {
        forall i, j | 0 <= i < j < |tail| ensures Precedes(bs, tail[i], tail[j]) {
          assert tail[i] == s[i + 1] && tail[j] == s[j + 1];
        }
      }
      InsertKeepsSorted(bs, b, tail);
      var rest := InsertBySize(bs, b, tail);
      forall j | 0 <= j < |rest| ensures Precedes(bs, s[0], rest[j]) {
        assert rest[j] in rest;
        if rest[j] != b {
          var k :| 0 <= k < |tail| && tail[k] == rest[j];
          assert s[k + 1] == rest[j];
        }
      }
    }
  }

  /** The bucket indices below `n` in processing order. */
  function OrderPrefix(bs: seq<seq<Key>>, n: nat): (r: seq<nat>)
    ensures |r| == n
    ensures forall b: nat :: b in r <==> b < n
    ensures SortedBySize(bs, r)
  {
    if n == 0 then []
    else
      var prev := OrderPrefix(bs, n - 1);
      var r := InsertBySize(bs, n - 1, prev);
      assert n - 1 !in prev;
      InsertKeepsSorted(bs, n - 1, prev);
      assert |r| == |multiset(r)| == |multiset(prev)| + 1;
      r
  }

  /** `CreateBuckets`' `OrderByDescending`: every bucket index exactly once,
      bucket sizes never increasing along the order. */
  function OrderBySize(bs: seq<seq<Key>>): (r: seq<nat>)
    ensures |r| == |bs| && Distinct(r)
    ensures forall b: nat :: b in r <==> b < |bs|
    ensures forall i :: 0 <= i < |r| ==> r[i] < |bs|
    ensures forall i, j :: 0 <= i < j < |r| ==> |bs[r[i]]| >= |bs[r[j]]|
    ensures forall i, j :: 0 <= i < j < |r| && |bs[r[i]]| == |bs[r[j]]| ==> r[i] < r[j]
  {
    var r := OrderPrefix(bs, |bs|);
    assert forall i :: 0 <= i < |r| ==> r[i] < |bs| by {
      forall i | 0 <= i < |r| ensures r[i] < |bs| { assert r[i] in r; }
    }
    assert forall i, j :: 0 <= i < j < |r| ==> Precedes(bs, r[i], r[j]);
    r
  }

  /** `CreateBuckets` as a loop over the keys, followed by the ordering. */
  method CreateBuckets(h: Hasher, numBuckets: nat, keys: seq<Key>) returns (bs: seq<seq<Key>>, order: seq<nat>)
    requires numBuckets > 0 || |keys| == 0
    ensures multiset(Flatten(bs)) == multiset(keys)
    ensures order == OrderBySize(bs)
    ensures bs == Distribute(h, numBuckets, keys)
  {
    bs := seq(numBuckets, _ => []);
    var i := 0;
    while i < |keys|
      invariant i <= |keys|
      invariant bs == Distribute(h, numBuckets, keys[..i])
    {
      var b := BucketIndex(h, numBuckets, keys[i]);
      assert keys[..i + 1][..i] == keys[..i];
      bs := bs[b := bs[b] + [keys[i]]];
      i := i + 1;
    }
    assert keys[..|keys|] == keys;
    DistributeIsPartition(h, numBuckets, keys);
    order := OrderBySize(bs);
  }
}
