/** Facts about sequences without repeated elements and about the size of
    sets of bounded naturals. */
module Seqs {

  /** No value occurs at two positions of `s`. */
  ghost predicate Distinct<T>(s: seq<T>)
  {
    forall i, j :: 0 <= i < j < |s| ==> s[i] != s[j]
  }

  /** The set of values occurring in `s`. */
  function Elems<T>(s: seq<T>): (xs: set<T>)
  {
    set x | x in s
  }

  /** A sequence without repetitions has as many distinct values as entries. */
  lemma {:induction false} DistinctCard<T>(s: seq<T>)
    requires Distinct(s)
    ensures |Elems(s)| == |s|
  {
    if |s| > 0 {
      var t := s[..|s| - 1];
      assert Distinct(t);
      DistinctCard(t);
      assert s[|s| - 1] !in t;
      assert Elems(s) == Elems(t) + {s[|s| - 1]};
    }
  }

  /** Pigeonhole: a set of naturals below `n` has at most `n` elements. */
  lemma {:induction false} BoundedCard(s: set<nat>, n: nat)
    requires forall x :: x in s ==> x < n
    ensures |s| <= n
  {
    if n > 0 {
      BoundedCard(s - {n - 1}, n - 1);
    }
  }

  /** A set of `n` naturals below `n` holds every one of them. */
  lemma FullSet(s: set<nat>, n: nat)
    requires forall x :: x in s ==> x < n
    requires |s| == n
    ensures forall x: nat :: x < n ==> x in s
  {
    forall x: nat | x < n ensures x in s {
      if x !in s {
        BoundedCard(s + {x}, n);
      }
    }
  }
}
