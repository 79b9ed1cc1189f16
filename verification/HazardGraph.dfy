/** The dependency graph the parallel scheduler dispatches from. */
module HazardGraph {

  /** dependents[i] lists the systems blocked on system i; rank is the position in name order. */
  datatype Graph = Graph(dependents: seq<seq<nat>>, rank: seq<nat>)
  {
    function Size(): nat { |dependents| }

    ghost predicate Edge(i: nat, j: nat) {
      i < Size() && j in dependents[i]
    }

    ghost function Predecessors(j: nat): set<nat> {
      Parents(dependents, j)
    }

    /** The in-degree the tick starts from. */
    ghost function InDegree(j: nat): nat {
      |Predecessors(j)|
    }

    ghost predicate Root(j: nat) {
      InDegree(j) == 0
    }

    ghost predicate WellFormed() {
      && |rank| == Size()
      && (forall i | 0 <= i < Size() :: Distinct(dependents[i]))
      && (forall i: nat, j: nat | Edge(i, j) :: j < Size() && rank[i] < rank[j])
    }

    /** r is a root from which j can be reached. */
    ghost predicate RootAbove(r: nat, j: nat)
      requires WellFormed() && j < Size()
      decreases rank[j]
    {
      (Root(j) && r == j) || (exists i | i in Predecessors(j) :: RootAbove(r, i))
    }

    /** Every system that has to wait descends from a root registered after it. */
    ghost predicate SeedSafe()
      requires WellFormed()
    {
      forall j: nat | j < Size() && !Root(j) :: exists r: nat | r < Size() :: r > j && RootAbove(r, j)
    }

    /** j runs, transitively, once the roots registered before p are seeded and no other. */
    ghost predicate Fires(p: nat, j: nat)
      requires WellFormed() && j < Size()
      decreases rank[j]
    {
      if Root(j) then j < p else forall i | i in Predecessors(j) :: Fires(p, i)
    }

    lemma {:induction false} FiresIffRootsBelow(p: nat, j: nat)
      requires WellFormed() && j < Size()
      ensures Fires(p, j) <==> forall r: nat | r < Size() && RootAbove(r, j) :: r < p
      decreases rank[j]
    {
      forall i | i in Predecessors(j)
        ensures Fires(p, i) <==> forall r: nat | r < Size() && RootAbove(r, i) :: r < p
      {
        FiresIffRootsBelow(p, i);
      }
      if Root(j) {
        assert Predecessors(j) == {};
        assert RootAbove(j, j);
      } else if !Fires(p, j) {
        var i :| i in Predecessors(j) && !Fires(p, i);
        var r: nat :| r < Size() && RootAbove(r, i) && r >= p;
        assert RootAbove(r, j);
      }
    }

    /** SeedSafe says exactly that no waiting system can be released before the loop has passed it. */
    lemma SeedSafeIffNoneFires()
      requires WellFormed()
      ensures SeedSafe() <==> forall j: nat | j < Size() && !Root(j) :: !Fires(j, j)
    {
      forall j: nat | j < Size() && !Root(j)
        ensures Fires(j, j) <==> !exists r: nat | r < Size() :: r > j && RootAbove(r, j)
      {
        FiresIffRootsBelow(j, j);
        RootAboveIsRoot(j);
      }
    }

    lemma {:induction false} RootAboveIsRoot(j: nat)
      requires WellFormed() && j < Size()
      ensures forall r: nat | RootAbove(r, j) :: r < Size() && Root(r)
      decreases rank[j]
    {
      forall i | i in Predecessors(j)
        ensures forall r: nat | RootAbove(r, i) :: r < Size() && Root(r)
      {
        RootAboveIsRoot(i);
      }
    }

    lemma {:induction false} FiresMonotone(p: nat, q: nat, j: nat)
      requires WellFormed() && j < Size() && p <= q && Fires(p, j)
      ensures Fires(q, j)
      decreases rank[j]
    {
      if !Root(j) {
        forall i | i in Predecessors(j) ensures Fires(q, i) {
          FiresMonotone(p, q, i);
        }
      }
    }

    /** With every root seeded, every system runs. */
    lemma {:induction false} AllFire(j: nat)
      requires WellFormed() && j < Size()
      ensures Fires(Size(), j)
      decreases rank[j]
    {
      forall i | i in Predecessors(j) ensures Fires(Size(), i) {
        AllFire(i);
      }
    }
  }

  ghost predicate Distinct<T>(s: seq<T>) {
    forall k, l | 0 <= k < l < |s| :: s[k] != s[l]
  }

  ghost function Parents(dependents: seq<seq<nat>>, j: nat): set<nat> {
    set i: nat | i < |dependents| && j in dependents[i]
  }

  /** Appending the new dependent j to system i adds exactly that parent. */
  lemma ParentsAfterAppend(dependents: seq<seq<nat>>, i: nat, j: nat, x: nat)
    requires i < |dependents| && j !in dependents[i]
    ensures Parents(dependents[i := dependents[i] + [j]], x)
         == Parents(dependents, x) + (if x == j then {i} else {})
    ensures i !in Parents(dependents, j)
  {
  }
}
