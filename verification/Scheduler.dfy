/** Registration, name order and the hazard graph of the system scheduler. */
module Scheduler {
  import opened Bytes
  import opened Counting
  import opened HazardGraph

  /** One piece of shared state a system can declare: a component type or a resource. */
  datatype Location = Component(id: nat) | Resource(id: nat)

  datatype Descriptor = Descriptor(
    name: seq<byte>,
    readsComponents: seq<nat>,
    writesComponents: seq<nat>,
    readsResources: seq<nat>,
    writesResources: seq<nat>)
  {
    /** The locations the system declares that it writes. */
    ghost function Writes(): set<Location> {
      (set c | c in writesComponents :: Component(c)) + (set r | r in writesResources :: Resource(r))
    }

    /** The locations the system declares at all. */
    ghost function Touches(): set<Location> {
      Writes() + (set c | c in readsComponents :: Component(c)) + (set r | r in readsResources :: Resource(r))
    }
  }

  predicate Intersects(a: seq<nat>, b: seq<nat>) {
    exists x :: x in a && x in b
  }

  predicate HaveHazard(a: Descriptor, b: Descriptor) {
    || Intersects(a.writesComponents, b.readsComponents)
    || Intersects(a.readsComponents, b.writesComponents)
    || Intersects(a.writesComponents, b.writesComponents)
    || Intersects(a.writesResources, b.readsResources)
    || Intersects(a.readsResources, b.writesResources)
    || Intersects(a.writesResources, b.writesResources)
  }

  ghost predicate Share(a: Descriptor, b: Descriptor) {
    exists x :: (x in a.Writes() && x in b.Touches()) || (x in a.Touches() && x in b.Writes())
  }

  /** Two systems conflict exactly when they share a location that one of them writes. */
  lemma HazardMeaning(a: Descriptor, b: Descriptor)
    ensures HaveHazard(a, b) <==> Share(a, b)
  {
    if HaveHazard(a, b) {
      if Intersects(a.writesComponents, b.readsComponents + b.writesComponents) {
        var c :| c in a.writesComponents && c in b.readsComponents + b.writesComponents;
        assert Component(c) in a.Writes() && Component(c) in b.Touches();
      } else if Intersects(a.readsComponents, b.writesComponents) {
        var c :| c in a.readsComponents && c in b.writesComponents;
        assert Component(c) in a.Touches() && Component(c) in b.Writes();
      } else if Intersects(a.writesResources, b.readsResources + b.writesResources) {
        var c :| c in a.writesResources && c in b.readsResources + b.writesResources;
        assert Resource(c) in a.Writes() && Resource(c) in b.Touches();
      } else {
        var c :| c in a.readsResources && c in b.writesResources;
        assert Resource(c) in a.Touches() && Resource(c) in b.Writes();
      }
    }
  }

  datatype Mode = Parallel | Sequential

  datatype Status = Ok | DuplicateName | AlreadyBuilt

  ghost predicate UniqueNames(systems: seq<Descriptor>) {
    forall i, j | 0 <= i < j < |systems| :: systems[i].name != systems[j].name
  }

  ghost predicate Permutation(order: seq<nat>, n: nat) {
    && |order| == n
    && (forall p | 0 <= p < n :: order[p] < n)
    && Distinct(order)
  }

  /** order lists the indices of all systems by increasing name. */
  ghost predicate NameOrder(order: seq<nat>, systems: seq<Descriptor>) {
    && Permutation(order, |systems|)
    && (forall p, q | 0 <= p < q < |order| :: Less(systems[order[p]].name, systems[order[q]].name))
  }

  /** What build_graph promises: an edge for every conflicting pair, from smaller to larger name. */
  ghost predicate IsHazardGraph(systems: seq<Descriptor>, dependents: seq<seq<nat>>, inDegree: seq<int>) {
    && |dependents| == |inDegree| == |systems|
    && (forall i: nat, j: nat | i < |systems| ::
          j in dependents[i] <==> HazardEdge(systems, i, j))
    && (forall i | 0 <= i < |systems| :: Distinct(dependents[i]))
    && (forall j | 0 <= j < |systems| :: inDegree[j] == |Parents(dependents, j)|)
  }

  /** The systems i and j conflict, and i has the smaller name. */
  ghost predicate HazardEdge(systems: seq<Descriptor>, i: nat, j: nat)
    requires i < |systems|
  {
    j < |systems| && Before(systems, i, j) && HaveHazard(systems[i], systems[j])
  }

  ghost predicate Before(systems: seq<Descriptor>, i: nat, j: nat)
    requires i < |systems| && j < |systems|
  {
    Less(systems[i].name, systems[j].name)
  }

  /** Distinct indices below n that fill a sequence of length n leave none out. */
  lemma PermutationCovers(order: seq<nat>, n: nat, i: nat)
    requires Permutation(order, n) && i < n
    ensures i in order
  {
    DistinctBelow(order, n);
  }

  /** Position of system i in the name order. */
  ghost function Position(order: seq<nat>, i: nat): (p: nat)
    requires i in order
    ensures p < |order| && order[p] == i
  {
    var p :| 0 <= p < |order| && order[p] == i;
    p
  }

  /** The graph handed to the dispatcher: the built edges ranked by name order. */
  ghost function GraphOf(order: seq<nat>, dependents: seq<seq<nat>>): Graph
    requires Permutation(order, |dependents|)
  {
    Graph(dependents, seq(|dependents|, i requires 0 <= i < |dependents| =>
      (PermutationCovers(order, |dependents|, i); Position(order, i))))
  }

  /** The built graph is acyclic, and conflicting systems are always connected from the smaller name. */
  lemma BuiltGraphWellFormed(systems: seq<Descriptor>, order: seq<nat>, dependents: seq<seq<nat>>, inDegree: seq<int>)
    requires NameOrder(order, systems) && IsHazardGraph(systems, dependents, inDegree)
    ensures var g := GraphOf(order, dependents);
            && g.WellFormed()
            && (forall i: nat, j: nat |
                  i < |systems| && j < |systems| && i != j && HaveHazard(systems[i], systems[j]) ::
                  (g.Edge(i, j) && g.rank[i] < g.rank[j]) || (g.Edge(j, i) && g.rank[j] < g.rank[i]))
            && (forall j: nat | j < |systems| :: inDegree[j] == g.InDegree(j))
  {
    var g := GraphOf(order, dependents);
    forall i: nat, j: nat | g.Edge(i, j)
      ensures j < |systems| && g.rank[i] < g.rank[j]
    {
      assert HazardEdge(systems, i, j);
      RankFollowsName(systems, order, dependents, i, j);
    }
    forall i: nat, j: nat | i < |systems| && j < |systems| && i != j && HaveHazard(systems[i], systems[j])
      ensures (g.Edge(i, j) && g.rank[i] < g.rank[j]) || (g.Edge(j, i) && g.rank[j] < g.rank[i])
    {
      HazardSymmetric(systems[i], systems[j]);
      if g.rank[i] < g.rank[j] {
        assert HazardEdge(systems, order[g.rank[i]], order[g.rank[j]]);
      } else {
        assert g.rank[j] != g.rank[i];
        assert HazardEdge(systems, order[g.rank[j]], order[g.rank[i]]);
      }
    }
  }

  /** The graph of a built scheduler. */
  ghost function BuiltGraph(systems: seq<Descriptor>, order: seq<nat>, dependents: seq<seq<nat>>, inDegree: seq<int>)
    : (g: Graph)
    requires NameOrder(order, systems) && IsHazardGraph(systems, dependents, inDegree)
    ensures g.WellFormed() && g.Size() == |systems|
  {
    BuiltGraphWellFormed(systems, order, dependents, inDegree);
    GraphOf(order, dependents)
  }

  lemma RankFollowsName(systems: seq<Descriptor>, order: seq<nat>, dependents: seq<seq<nat>>, i: nat, j: nat)
    requires NameOrder(order, systems) && |dependents| == |systems|
    requires i < |systems| && j < |systems| && Before(systems, i, j)
    ensures GraphOf(order, dependents).rank[i] < GraphOf(order, dependents).rank[j]
  {
    var g := GraphOf(order, dependents);
    var p, q := g.rank[i], g.rank[j];
    LessIrreflexive(systems[i].name);
    if q < p {
      assert Before(systems, order[q], order[p]);
      LessTransitive(systems[i].name, systems[j].name, systems[i].name);
    }
  }

  lemma HazardSymmetric(a: Descriptor, b: Descriptor)
    ensures HaveHazard(a, b) <==> HaveHazard(b, a)
  {
  }

  class SystemScheduler {
    const mode: Mode
    var systems: seq<Descriptor>
    var order: seq<nat>
    var dependents: seq<seq<nat>>
    var inDegreeInitial: seq<int>
    var built: bool

    ghost predicate Valid()
      reads this
    {
      && UniqueNames(systems)
      && (built ==> NameOrder(order, systems))
      && (built && mode == Parallel ==> IsHazardGraph(systems, dependents, inDegreeInitial))
    }

    constructor (mode: Mode)
      ensures Valid() && this.mode == mode && systems == [] && !built
    {
      this.mode := mode;
      systems, order, dependents, inDegreeInitial, built := [], [], [], [], false;
    }

    /** Registers a system; a name already taken changes nothing. */
    method RegisterSystem(system: Descriptor) returns (status: Status)
      requires Valid()
      modifies this
      ensures Valid()
      ensures status == if exists d :: d in old(systems) && d.name == system.name then DuplicateName else Ok
      ensures status == Ok ==> systems == old(systems) + [system] && !built
      ensures status != Ok ==> systems == old(systems) && built == old(built)
      ensures order == old(order) && dependents == old(dependents) && inDegreeInitial == old(inDegreeInitial)
    {
      for k := 0 to |systems|
        invariant forall d :: d in systems[..k] ==> d.name != system.name
      {
        if systems[k].name == system.name {
          return DuplicateName;
        }
      }
      assert systems[..|systems|] == systems;
      built := false;
      systems := systems + [system];
      status := Ok;
    }

    /**
     Resolves the execution order, by the order of the names, and, in Parallel mode, the hazard graph: an edge
     from i to j exactly if the name of i comes first and they share a location that one of them writes.
     */
    method BuildGraph() returns (status: Status)
      requires Valid()
      modifies this
      ensures Valid() && built && systems == old(systems)
      ensures status == if old(built) then AlreadyBuilt else Ok
      ensures old(built) || mode == Sequential ==>
                dependents == old(dependents) && inDegreeInitial == old(inDegreeInitial)
      ensures old(built) ==> order == old(order)
      ensures forall p, q | 0 <= p < q < |order| :: Precedes(systems[order[p]].name, systems[order[q]].name)
      ensures mode == Parallel ==> forall i: nat, j: nat | i < |systems| ::
                j in dependents[i] <==>
                j < |systems| && Precedes(systems[i].name, systems[j].name) && Share(systems[i], systems[j])
    {
      if built {
        OrderMeaning();
        return AlreadyBuilt;
      }
      order := SortByName(systems);
      if mode == Parallel {
        BuildHazardGraph();
      }
      built := true;
      status := Ok;
      OrderMeaning();
    }

    lemma OrderMeaning()
      requires Valid() && built
      ensures forall p, q | 0 <= p < q < |order| :: Precedes(systems[order[p]].name, systems[order[q]].name)
      ensures mode == Parallel ==> forall i: nat, j: nat | i < |systems| ::
                j in dependents[i] <==>
                j < |systems| && Precedes(systems[i].name, systems[j].name) && Share(systems[i], systems[j])
    {
      hide Less, Precedes, HaveHazard, Share;
      forall p, q | 0 <= p < q < |order| ensures Precedes(systems[order[p]].name, systems[order[q]].name) {
        LessMeaning(systems[order[p]].name, systems[order[q]].name);
      }
      if mode == Parallel {
        forall i: nat, j: nat | i < |systems| && j < |systems|
          ensures HazardEdge(systems, i, j) <==>
                  Precedes(systems[i].name, systems[j].name) && Share(systems[i], systems[j])
        {
          LessMeaning(systems[i].name, systems[j].name);
          HazardMeaning(systems[i], systems[j]);
        }
      }
    }

    method BuildHazardGraph()
      requires UniqueNames(systems) && NameOrder(order, systems)
      modifies this`dependents, this`inDegreeInitial
      ensures IsHazardGraph(systems, dependents, inDegreeInitial)
    {
      hide Less, HaveHazard, Row, Parents;
      var n := |systems|;
      dependents := seq(n, _ => []);
      inDegreeInitial := seq(n, _ => 0);
      NoParents(n);
      for pa := 0 to n
        invariant |dependents| == |inDegreeInitial| == n
        invariant forall p | 0 <= p < n :: dependents[order[p]] == if p < pa then Row(systems, order, p, n) else []
        invariant CountsParents(dependents, inDegreeInitial)
      {
        AddEdgesFrom(pa);
      }
      RowsAreHazards(systems, order, dependents);
    }

    /** The inner loop: all edges out of the system at position pa. */
    method AddEdgesFrom(pa: nat)
      requires NameOrder(order, systems) && pa < |systems|
      requires |dependents| == |systems| && dependents[order[pa]] == []
      requires CountsParents(dependents, inDegreeInitial)
      modifies this`dependents, this`inDegreeInitial
      ensures dependents == old(dependents)[order[pa] := Row(systems, order, pa, |systems|)]
      ensures CountsParents(dependents, inDegreeInitial)
    {
      hide Parents, HaveHazard, Less;
      var i := order[pa];
      for pb := pa + 1 to |systems|
        invariant dependents == old(dependents)[i := Row(systems, order, pa, pb)]
        invariant CountsParents(dependents, inDegreeInitial)
      {
        var j := order[pb];
        ghost var row := Row(systems, order, pa, pb);
        assert Row(systems, order, pa, pb + 1) == if HaveHazard(systems[i], systems[j]) then row + [j] else row;
        if HaveHazard(systems[i], systems[j]) {
          NotInRow(systems, order, pa, pb);
          EdgeCounted(dependents, inDegreeInitial, i, j);
          dependents := dependents[i := dependents[i] + [j]];
          inDegreeInitial := inDegreeInitial[j := inDegreeInitial[j] + 1];
        }
      }
    }
  }

  /** The conflicting systems after position p and below limit, in name order. */
  ghost function Row(systems: seq<Descriptor>, order: seq<nat>, p: nat, limit: nat): seq<nat>
    requires Permutation(order, |systems|) && p < limit <= |order|
  {
    if limit == p + 1 then []
    else
      var j := order[limit - 1];
      Row(systems, order, p, limit - 1) + (if HaveHazard(systems[order[p]], systems[j]) then [j] else [])
  }

  lemma NotInRow(systems: seq<Descriptor>, order: seq<nat>, p: nat, limit: nat)
    requires Permutation(order, |systems|) && p < limit < |order|
    ensures order[limit] !in Row(systems, order, p, limit)
  {
    RowElements(systems, order, p, limit);
  }

  ghost predicate CountsParents(dependents: seq<seq<nat>>, inDegree: seq<int>) {
    |inDegree| == |dependents| && forall j | 0 <= j < |dependents| :: inDegree[j] == |Parents(dependents, j)|
  }

  lemma NoParents(n: nat)
    ensures CountsParents(seq(n, _ => []), seq(n, _ => 0))
  {
    var empty: seq<seq<nat>> := seq(n, _ => []);
    assert forall j :: Parents(empty, j) == {};
  }

  /** One edge more, and the in-degrees still count the predecessors. */
  lemma EdgeCounted(dependents: seq<seq<nat>>, inDegree: seq<int>, i: nat, j: nat)
    requires CountsParents(dependents, inDegree) && i < |dependents| && j < |dependents| && j !in dependents[i]
    ensures CountsParents(dependents[i := dependents[i] + [j]], inDegree[j := inDegree[j] + 1])
  {
    var grown := dependents[i := dependents[i] + [j]];
    forall x | 0 <= x < |dependents| ensures |Parents(grown, x)| == |Parents(dependents, x)| + if x == j then 1 else 0 {
      ParentsAfterAppend(dependents, i, j, x);
    }
  }

  lemma {:induction false} RowElements(systems: seq<Descriptor>, order: seq<nat>, p: nat, limit: nat)
    requires Permutation(order, |systems|) && p < limit <= |order|
    ensures var row := Row(systems, order, p, limit);
            && Distinct(row)
            && forall j: nat :: j in row <==> InRow(systems, order, p, limit, j)
  {
    if limit > p + 1 {
      RowElements(systems, order, p, limit - 1);
      var j := order[limit - 1];
      assert !InRow(systems, order, p, limit - 1, j);
      assert HaveHazard(systems[order[p]], systems[j]) ==> InRow(systems, order, p, limit, j);
    }
  }

  ghost predicate InRow(systems: seq<Descriptor>, order: seq<nat>, p: nat, limit: nat, j: nat)
    requires Permutation(order, |systems|) && p < |order| && limit <= |order|
  {
    exists q :: p < q < limit && order[q] == j && HaveHazard(systems[order[p]], systems[j])
  }

  lemma RowsAreHazards(systems: seq<Descriptor>, order: seq<nat>, dependents: seq<seq<nat>>)
    requires NameOrder(order, systems) && |dependents| == |systems|
    requires forall p | 0 <= p < |order| :: dependents[order[p]] == Row(systems, order, p, |order|)
    ensures forall i: nat, j: nat | i < |systems| ::
      j in dependents[i] <==> HazardEdge(systems, i, j)
    ensures forall i | 0 <= i < |systems| :: Distinct(dependents[i])
  {
    var n := |systems|;
    forall i: nat | i < n
      ensures Distinct(dependents[i])
      ensures forall j: nat ::
                j in dependents[i] <==> j < n && Before(systems, i, j) && HaveHazard(systems[i], systems[j])
    {
      PermutationCovers(order, n, i);
      var p := Position(order, i);
      RowElements(systems, order, p, n);
      forall j: nat
        ensures j in dependents[i] <==> j < n && Before(systems, i, j) && HaveHazard(systems[i], systems[j])
      {
        if j < n && Before(systems, i, j) && HaveHazard(systems[i], systems[j]) {
          PermutationCovers(order, n, j);
          var q := Position(order, j);
          LessIrreflexive(systems[i].name);
          if q < p {
            assert Before(systems, order[q], order[p]);
            LessTransitive(systems[i].name, systems[j].name, systems[i].name);
          }
          assert InRow(systems, order, p, n, j);
        }
      }
    }
  }

  /** std::sort of the indices by name: an insertion sort here, fixed by its contract. */
  method SortByName(systems: seq<Descriptor>) returns (order: seq<nat>)
    requires UniqueNames(systems)
    ensures NameOrder(order, systems)
    ensures forall p, q | 0 <= p < q < |order| :: Precedes(systems[order[p]].name, systems[order[q]].name)
  {
    hide Less, Precedes;
    order := [];
    for i := 0 to |systems|
      invariant Permutation(order, i) && SortedByName(systems, order)
    {
      var k := i;
      while k > 0 && Less(systems[i].name, systems[order[k - 1]].name)
        invariant 0 <= k <= i
        invariant forall p | k <= p < i :: Less(systems[i].name, systems[order[p]].name)
      {
        k := k - 1;
      }
      BelowInserted(systems, order, i, k);
      InsertedSorted(systems, order, i, k);
      order := order[..k] + [i] + order[k..];
    }
    forall p, q | 0 <= p < q < |order| ensures Precedes(systems[order[p]].name, systems[order[q]].name) {
      LessMeaning(systems[order[p]].name, systems[order[q]].name);
    }
  }

  ghost predicate SortedByName(systems: seq<Descriptor>, order: seq<nat>)
    requires forall p | 0 <= p < |order| :: order[p] < |systems|
  {
    forall p, q | 0 <= p < q < |order| :: Less(systems[order[p]].name, systems[order[q]].name)
  }

  lemma BelowInserted(systems: seq<Descriptor>, order: seq<nat>, i: nat, k: nat)
    requires UniqueNames(systems) && i < |systems| && Permutation(order, i) && k <= i && SortedByName(systems, order)
    requires k > 0 ==> !Less(systems[i].name, systems[order[k - 1]].name)
    ensures forall p | 0 <= p < k :: Less(systems[order[p]].name, systems[i].name)
  {
    forall p | 0 <= p < k ensures Less(systems[order[p]].name, systems[i].name) {
      LessTotal(systems[order[k - 1]].name, systems[i].name);
      if p < k - 1 {
        LessTransitive(systems[order[p]].name, systems[order[k - 1]].name, systems[i].name);
      }
    }
  }

  lemma InsertedSorted(systems: seq<Descriptor>, order: seq<nat>, i: nat, k: nat)
    requires i < |systems| && Permutation(order, i) && k <= i && SortedByName(systems, order)
    requires forall p | 0 <= p < k :: Less(systems[order[p]].name, systems[i].name)
    requires forall p | k <= p < i :: Less(systems[i].name, systems[order[p]].name)
    ensures var order' := order[..k] + [i] + order[k..];
            Permutation(order', i + 1) && SortedByName(systems, order')
  {
    hide Less;
    var order' := order[..k] + [i] + order[k..];
    assert forall p | 0 <= p < |order'| ::
        order'[p] == if p < k then order[p] else if p == k then i else order[p - 1];
  }

  /** Two systems that both write component 0, registered in the order of their names. */
  ghost const TWO_WRITERS: seq<Descriptor> :=
    [Descriptor([0x61], [], [0], [], []), Descriptor([0x62], [], [0], [], [])]

  lemma TwoWritersGraph()
    ensures UniqueNames(TWO_WRITERS) && NameOrder([0, 1], TWO_WRITERS)
    ensures IsHazardGraph(TWO_WRITERS, [[1], []], [0, 1])
  {
    var systems := TWO_WRITERS;
    var dependents: seq<seq<nat>> := [[1], []];
    assert 0 in systems[0].writesComponents && 0 in systems[1].writesComponents;
    assert HaveHazard(systems[0], systems[1]);
    assert Before(systems, 0, 1) && !Before(systems, 1, 0) && !Before(systems, 0, 0) && !Before(systems, 1, 1);
    assert Parents(dependents, 0) == {} && Parents(dependents, 1) == {0};
  }

  /** The scheduler builds graphs that are not seed-safe. */
  lemma UnsafeExample()
    ensures NameOrder([0, 1], TWO_WRITERS) && IsHazardGraph(TWO_WRITERS, [[1], []], [0, 1])
    ensures !BuiltGraph(TWO_WRITERS, [0, 1], [[1], []], [0, 1]).SeedSafe()
  {
    TwoWritersGraph();
    hide HaveHazard, Less;
    var g := BuiltGraph(TWO_WRITERS, [0, 1], [[1], []], [0, 1]);
    assert g.Predecessors(1) == {0} && !g.Root(1);
  }
}
