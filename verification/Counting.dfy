/** Cardinalities of sets of indices, and sums. */
module Counting {

  /** The indices below n. */
  ghost function Below(n: nat): (s: set<nat>)
    ensures forall k: nat :: k in s <==> k < n
    ensures |s| == n
  {
    if n == 0 then {} else Below(n - 1) + {n - 1}
  }

  lemma {:induction false} SubsetCardinality<T>(a: set<T>, b: set<T>)
    requires a <= b
    ensures |a| <= |b|
    ensures |a| == |b| ==> a == b
  {
    if a != {} {
      var x :| x in a;
      SubsetCardinality(a - {x}, b - {x});
    }
  }

  lemma {:induction false} DistinctCardinality(s: seq<nat>)
    requires forall k, l | 0 <= k < l < |s| :: s[k] != s[l]
    ensures |set p | 0 <= p < |s| :: s[p]| == |s|
  {
    if s != [] {
      var r := s[..|s| - 1];
      DistinctCardinality(r);
      assert (set p | 0 <= p < |s| :: s[p]) == (set p | 0 <= p < |r| :: r[p]) + {s[|s| - 1]};
    }
  }

  /** A sequence of distinct indices below n is at most n long, and covers them all exactly at that length. */
  lemma DistinctBelow(s: seq<nat>, n: nat)
    requires forall k, l | 0 <= k < l < |s| :: s[k] != s[l]
    requires forall k | 0 <= k < |s| :: s[k] < n
    ensures |s| <= n
    ensures |s| == n <==> forall i: nat | i < n :: i in s
  {
    var seen := set p | 0 <= p < |s| :: s[p];
    DistinctCardinality(s);
    assert seen <= Below(n);
    SubsetCardinality(seen, Below(n));
    if |s| == n {
      forall i: nat | i < n ensures i in s {
        assert i in Below(n) && seen == Below(n);
      }
    }
    if forall i: nat | i < n :: i in s {
      forall i | i in Below(n) ensures i in seen {
        assert i in s;
      }
      SubsetCardinality(Below(n), seen);
    }
  }

  lemma {:induction false} RepeatedCardinality(s: seq<nat>)
    ensures |set p | 0 <= p < |s| :: s[p]| <= |s|
    ensures |set p | 0 <= p < |s| :: s[p]| == |s| ==> forall k, l | 0 <= k < l < |s| :: s[k] != s[l]
  {
    if s != [] {
      var r, last := s[..|s| - 1], s[|s| - 1];
      RepeatedCardinality(r);
      var seen := set p | 0 <= p < |r| :: r[p];
      assert (set p | 0 <= p < |s| :: s[p]) == seen + {last};
      if last in seen {
        assert seen + {last} == seen;
      } else {
        assert forall k | 0 <= k < |r| :: r[k] in seen;
      }
    }
  }

  /** A sequence that covers the indices below n is at least n long, and longer if anything repeats. */
  lemma CoversBelow(s: seq<nat>, n: nat)
    requires forall i: nat | i < n :: i in s
    ensures |s| >= n
    ensures |s| == n ==> forall k, l | 0 <= k < l < |s| :: s[k] != s[l]
  {
    var seen := set p | 0 <= p < |s| :: s[p];
    forall i | i in Below(n) ensures i in seen {
      assert i in s;
    }
    SubsetCardinality(Below(n), seen);
    RepeatedCardinality(s);
  }

  /** The sum of the numbers. */
  function Total(numbers: seq<nat>): nat {
    if numbers == [] then 0 else Total(numbers[..|numbers| - 1]) + numbers[|numbers| - 1]
  }
}
