/**
 When seeding twice is harmless to the result: where only systems that wait for nobody write, every run of a
 tick leaves the shared state of the sequential tick, whichever counter the seed loop tests.
 */
module ReadersOnly {
  import opened HazardGraph
  import opened Scheduler
  import opened Dispatch
  import opened TicketRuns
  import opened Serialisability
  import opened ParallelTick

  /** Systems that have to wait declare no write. */
  ghost predicate WaitersRead<L(!new), V(!new)>(g: Graph, systems: seq<System<L, V>>) {
    g.Size() == |systems| && forall j: nat | j < |systems| && !g.Root(j) :: systems[j].descriptor.Writes() == {}
  }

  ghost function OnlyRoots(g: Graph, ids: seq<nat>): seq<nat> {
    if ids == [] then []
    else OnlyRoots(g, ids[..|ids| - 1]) + (if g.Root(ids[|ids| - 1]) then [ids[|ids| - 1]] else [])
  }

  lemma {:induction false} OnlyRootsElements(g: Graph, ids: seq<nat>)
    ensures forall i :: i in OnlyRoots(g, ids) <==> i in ids && g.Root(i)
    ensures Distinct(ids) ==> Distinct(OnlyRoots(g, ids))
  {
    if ids != [] {
      var r, last := ids[..|ids| - 1], ids[|ids| - 1];
      OnlyRootsElements(g, r);
      assert ids == r + [last];
      if Distinct(ids) && g.Root(last) {
        var f := OnlyRoots(g, r);
        forall k | 0 <= k < |f| ensures f[k] != last {
          assert f[k] in f && f[k] in r;
        }
      }
    }
  }

  lemma OnlyRootsNext(g: Graph, ids: seq<nat>, i: nat)
    ensures OnlyRoots(g, ids + [i]) == OnlyRoots(g, ids) + if g.Root(i) then [i] else []
  {
    assert (ids + [i])[..|ids|] == ids;
  }

  /** Whatever the seed rule, a root is dispatched once, when the loop comes to it. */
  ghost predicate RootsOnce<C(!new)>(tick: Tick<C>, s: State<C>) {
    && (forall t | 0 <= t < |s.log| && tick.graph.Root(s.log[t]) :: s.log[t] < s.seeded)
    && (forall t, u | 0 <= t < u < |s.log| && s.log[t] == s.log[u] :: !tick.graph.Root(s.log[t]))
  }

  lemma RootsOnceStep<C(!new)>(tick: Tick<C>, s: State<C>, a: Action)
    requires tick.graph.WellFormed() && tick.Shape(s) && RootsOnce(tick, s) && tick.Enabled(s, a)
    ensures RootsOnce(tick, tick.Apply(s, a))
  {
    if a.Drop? {
      var d := tick.graph.dependents[s.log[a.t]][s.stages[a.t].k];
      assert tick.graph.Edge(s.log[a.t], d) && s.log[a.t] in tick.graph.Predecessors(d);
      assert !tick.graph.Root(d);
    }
  }

  /** A root that has not been started has taken no step. */
  ghost predicate RootsStarted<C(!new)>(tick: Tick<C>, s: State<C>)
    requires tick.Shape(s)
  {
    forall y | 0 <= y < |s.events| && tick.graph.Root(s.events[y]) :: tick.Started(s, s.events[y])
  }

  lemma RootsStartedStep<C(!new)>(tick: Tick<C>, s: State<C>, a: Action)
    requires tick.graph.WellFormed() && tick.Shape(s) && tick.Orderly(s) && RootsStarted(tick, s) && tick.Enabled(s, a)
    ensures RootsStarted(tick, tick.Apply(s, a))
  {
    var s' := tick.Apply(s, a);
    forall y | 0 <= y < |s'.events| && tick.graph.Root(s'.events[y]) ensures tick.Started(s', s'.events[y]) {
      if y < |s.events| {
        var t: nat :| t < |s.log| && s.log[t] == s.events[y] && s.stages[t] != Queued;
        assert s'.log[t] == s.events[y] && s'.stages[t] != Queued;
      } else {
        assert s'.log[a.t] == s'.events[y] && s'.stages[a.t] != Queued;
      }
    }
  }

  lemma ReaderKeepsStore<L(!new), V(!new)>(systems: seq<System<L, V>>, i: nat, d: Config<L, V>)
    requires AllConfined(systems) && i < |systems| && systems[i].descriptor.Writes() == {}
    ensures Step(systems, i, d).store == d.store
  {
    if i < |d.locals| && !Halted(systems, i, d) {
      var sys := systems[i];
      var s' := sys.step(d.locals[i], d.store).1;
      assert Confined(sys);
      forall x ensures SameAt(d.store, s', x) {
        assert x !in sys.descriptor.Writes();
      }
      SameEverywhere(d.store, s');
    }
  }

  lemma SameEverywhere<V(!new)>(s: Store<V>, s': Store<V>)
    requires forall x :: SameAt(s, s', x)
    ensures s == s'
  {
    assert forall x :: x in s <==> x in s' by {
      forall x ensures x in s <==> x in s' {
        assert SameAt(s, s', x);
      }
    }
    forall x | x in s ensures s[x] == s'[x] {
      assert SameAt(s, s', x);
    }
  }

  /** The same shared state, and the same private state of every root. */
  ghost predicate SameRoots<L(!new), V(!new)>(
    g: Graph, systems: seq<System<L, V>>, d: Config<L, V>, e: Config<L, V>)
  {
    && |d.locals| == |e.locals| == |systems| && d.store == e.store
    && forall i: nat | i < |systems| && g.Root(i) :: d.locals[i] == e.locals[i]
  }

  lemma RootSteps<L(!new), V(!new)>(
    g: Graph, systems: seq<System<L, V>>, i: nat, d: Config<L, V>, e: Config<L, V>)
    requires SameRoots(g, systems, d, e) && i < |systems| && g.Root(i)
    ensures SameRoots(g, systems, Step(systems, i, d), Step(systems, i, e))
  {
    hide Graph.Root;
  }

  lemma ReaderSteps<L(!new), V(!new)>(
    g: Graph, systems: seq<System<L, V>>, i: nat, d: Config<L, V>, e: Config<L, V>)
    requires AllConfined(systems) && WaitersRead(g, systems)
    requires SameRoots(g, systems, d, e) && i < |systems| && !g.Root(i)
    ensures SameRoots(g, systems, Step(systems, i, d), e)
  {
    ReaderKeepsStore(systems, i, d);
    hide Graph.Root, AllConfined;
  }

  /** The shared state and the roots' private states are what the roots' micro-steps alone make of them. */
  ghost predicate RootsAlone<L(!new), V(!new)>(
    g: Graph, systems: seq<System<L, V>>, c: Config<L, V>, d: Config<L, V>, events: seq<nat>)
  {
    SameRoots(g, systems, d, Fold(systems, OnlyRoots(g, events), c))
  }

  lemma RootsAloneExec<L(!new), V(!new)>(
    g: Graph, systems: seq<System<L, V>>, c: Config<L, V>, d: Config<L, V>, events: seq<nat>, i: nat)
    requires AllConfined(systems) && WaitersRead(g, systems) && i < |systems|
    requires RootsAlone(g, systems, c, d, events)
    ensures RootsAlone(g, systems, c, Step(systems, i, d), events + [i])
  {
    hide Fold, OnlyRoots, AllConfined, Step, Graph.Root, WaitersRead, SameRoots;
    OnlyRootsNext(g, events, i);
    var roots := OnlyRoots(g, events);
    if g.Root(i) {
      FoldLast(systems, roots, i, c);
      RootSteps(g, systems, i, d, Fold(systems, roots, c));
    } else {
      assert roots + [] == roots;
      ReaderSteps(g, systems, i, d, Fold(systems, roots, c));
    }
  }

  lemma RootsAloneStart<L(!new), V(!new)>(
    g: Graph, systems: seq<System<L, V>>, c: Config<L, V>, d: Config<L, V>, events: seq<nat>, i: nat)
    requires Unstarted(systems, c) && i < |systems| && (g.Root(i) ==> i !in events)
    requires RootsAlone(g, systems, c, d, events)
    ensures RootsAlone(g, systems, c, Restarted(systems, i, d), events)
  {
    if g.Root(i) {
      OnlyRootsElements(g, events);
      FoldKeepsLocal(systems, OnlyRoots(g, events), c, i);
    }
    hide Fold, OnlyRoots;
  }

  ghost predicate RootsTracked<L(!new), V(!new)>(
    tick: Tick<Config<L, V>>, systems: seq<System<L, V>>, c: Config<L, V>, s: State<Config<L, V>>)
  {
    && tick.Shape(s) && tick.Orderly(s) && RootsOnce(tick, s) && RootsStarted(tick, s)
    && RootsAlone(tick.graph, systems, c, s.config, s.events) && RootsHalted(tick, systems, s)
  }

  ghost predicate RootsHalted<L(!new), V(!new)>(
    tick: Tick<Config<L, V>>, systems: seq<System<L, V>>, s: State<Config<L, V>>)
    requires tick.Shape(s)
  {
    forall t: nat | t < |s.log| && tick.graph.Root(s.log[t]) && (s.stages[t].Dropping? || s.stages[t].Done?) ::
      Halted(systems, s.log[t], s.config)
  }

  /** What the steps below know about a tick of real systems. */
  ghost predicate Reading<L(!new), V(!new)>(
    tick: Tick<Config<L, V>>, systems: seq<System<L, V>>, c: Config<L, V>)
  {
    && tick.graph.WellFormed() && tick.machine == MachineOf(systems)
    && AllConfined(systems) && WaitersRead(tick.graph, systems) && Unstarted(systems, c)
  }

  lemma RootsHaltedStep<L(!new), V(!new)>(
    tick: Tick<Config<L, V>>, systems: seq<System<L, V>>, s: State<Config<L, V>>, a: Action)
    requires tick.graph.WellFormed() && tick.machine == MachineOf(systems)
    requires tick.Shape(s) && RootsOnce(tick, s) && RootsHalted(tick, systems, s) && tick.Enabled(s, a)
    ensures RootsHalted(tick, systems, tick.Apply(s, a))
  {
    var s' := tick.Apply(s, a);
    forall t: nat | t < |s'.log| && tick.graph.Root(s'.log[t]) && (s'.stages[t].Dropping? || s'.stages[t].Done?)
      ensures Halted(systems, s'.log[t], s'.config)
    {
      var moved := if a.Start? then s.next else if a.Exec? then a.t else t;
      assert t < |s.log|;
      if (a.Start? || a.Exec?) && t != moved {
        assert s.log[t] != s.log[moved];
      }
    }
  }

  lemma RootsUnbegun<C(!new)>(tick: Tick<C>, s: State<C>)
    requires tick.Shape(s) && RootsOnce(tick, s) && RootsStarted(tick, s)
    requires s.next < |s.log| && s.stages[s.next] == Queued && tick.graph.Root(s.log[s.next])
    ensures s.log[s.next] !in s.events
  {
    forall y | 0 <= y < |s.events| ensures s.events[y] != s.log[s.next] {
      if tick.graph.Root(s.events[y]) {
        var t: nat :| t < |s.log| && s.log[t] == s.events[y] && s.stages[t] != Queued;
        assert t != s.next;
      }
    }
  }

  lemma RootsTrackedStep<L(!new), V(!new)>(
    tick: Tick<Config<L, V>>, systems: seq<System<L, V>>, c: Config<L, V>, s: State<Config<L, V>>, a: Action)
    requires Reading(tick, systems, c) && RootsTracked(tick, systems, c, s) && tick.Enabled(s, a)
    ensures RootsTracked(tick, systems, c, tick.Apply(s, a))
  {
    tick.OrderlyStep(s, a);
    RootsOnceStep(tick, s, a);
    RootsStartedStep(tick, s, a);
    RootsHaltedStep(tick, systems, s, a);
    if a.Exec? {
      RootsAloneExec(tick.graph, systems, c, s.config, s.events, s.log[a.t]);
    } else if a.Start? {
      if tick.graph.Root(s.log[s.next]) {
        RootsUnbegun(tick, s);
      }
      RootsAloneStart(tick.graph, systems, c, s.config, s.events, s.log[s.next]);
    }
    hide Tick.Orderly, RootsOnce, RootsStarted, RootsAlone, RootsHalted, AllConfined, Graph.WellFormed;
  }

  lemma {:induction false} RootsTrackedRun<L(!new), V(!new)>(
    tick: Tick<Config<L, V>>, systems: seq<System<L, V>>, c: Config<L, V>, s: State<Config<L, V>>, run: seq<Action>)
    requires Reading(tick, systems, c) && RootsTracked(tick, systems, c, s) && tick.Shape(s) && tick.Legal(s, run)
    ensures RootsTracked(tick, systems, c, tick.After(s, run))
    decreases run
  {
    assert tick.graph.WellFormed();
    hide RootsTracked, Reading, Graph.WellFormed;
    if run != [] {
      RootsTrackedStep(tick, systems, c, s, run[0]);
      RootsTrackedRun(tick, systems, c, tick.Apply(s, run[0]), run[1..]);
    }
  }

  // ------------------------------------------------------------------ the sequential tick without the readers

  /** What a system does begun and run alone depends on the shared state only. */
  lemma {:induction false} AloneSameStore<L(!new), V(!new)>(
    systems: seq<System<L, V>>, i: nat, c: Config<L, V>, d: Config<L, V>, k: nat)
    requires i < |systems| == |c.locals| == |d.locals| && c.store == d.store && c.locals[i] == d.locals[i]
    ensures var (c', d') := (Alone(systems, i, c, k), Alone(systems, i, d, k));
            c'.store == d'.store && c'.locals[i] == d'.locals[i]
  {
    if k > 0 {
      AloneSameStore(systems, i, c, d, k - 1);
    }
  }

  lemma RunsSameStore<L(!new), V(!new)>(
    systems: seq<System<L, V>>, i: nat, c: Config<L, V>, c': Config<L, V>, d: Config<L, V>, d': Config<L, V>)
    requires i < |systems| == |c.locals| == |d.locals| && c.store == d.store
    requires RunsAlone(systems, i, c, c') && RunsAlone(systems, i, d, d')
    ensures c'.store == d'.store && |c'.locals| == |d'.locals| == |systems|
  {
    var a, b := Restarted(systems, i, c), Restarted(systems, i, d);
    var k: nat :| c' == Alone(systems, i, a, k);
    var l: nat :| d' == Alone(systems, i, b, l);
    AloneSameStore(systems, i, a, b, k);
    assert Halted(systems, i, Alone(systems, i, b, k));
    HaltsOnce(systems, i, b, k, l);
  }

  lemma {:induction false} AloneKeepsStore<L(!new), V(!new)>(
    systems: seq<System<L, V>>, i: nat, c: Config<L, V>, k: nat)
    requires AllConfined(systems) && i < |systems| && systems[i].descriptor.Writes() == {}
    ensures Alone(systems, i, c, k).store == c.store
  {
    if k > 0 {
      AloneKeepsStore(systems, i, c, k - 1);
      ReaderKeepsStore(systems, i, Alone(systems, i, c, k - 1));
    }
  }

  /** The sequential tick of all systems leaves the shared state of the sequential tick of the roots alone. */
  lemma {:induction false} SequentialRoots<L(!new), V(!new)>(
    g: Graph, systems: seq<System<L, V>>, order: seq<nat>, c: Config<L, V>, c': Config<L, V>,
    d: Config<L, V>, d': Config<L, V>)
    requires AllConfined(systems) && WaitersRead(g, systems) && forall i | i in order :: i < |systems|
    requires |c.locals| == |d.locals| == |systems| && c.store == d.store
    requires SequentialTick(systems, order, c, c') && SequentialTick(systems, OnlyRoots(g, order), d, d')
    ensures c'.store == d'.store
    decreases |order|
  {
    if order != [] {
      var i, rest := order[0], order[1..];
      assert i in order && forall e | e in rest :: e in order;
      OnlyRootsFirst(g, order);
      var mid :| RunsAlone(systems, i, c, mid) && SequentialTick(systems, rest, mid, c');
      if g.Root(i) {
        var roots := OnlyRoots(g, order);
        assert roots[0] == i && roots[1..] == OnlyRoots(g, rest);
        var mid' :| RunsAlone(systems, i, d, mid') && SequentialTick(systems, OnlyRoots(g, rest), mid', d');
        RunsSameStore(systems, i, c, mid, d, mid');
        SequentialRoots(g, systems, rest, mid, c', mid', d');
      } else {
        var k: nat :| mid == Alone(systems, i, Restarted(systems, i, c), k);
        AloneKeepsStore(systems, i, Restarted(systems, i, c), k);
        assert [] + OnlyRoots(g, rest) == OnlyRoots(g, rest);
        SequentialRoots(g, systems, rest, mid, c', d, d');
      }
    }
  }

  lemma {:induction false} OnlyRootsFirst(g: Graph, ids: seq<nat>)
    requires ids != []
    ensures OnlyRoots(g, ids) == (if g.Root(ids[0]) then [ids[0]] else []) + OnlyRoots(g, ids[1..])
  {
    var n := |ids| - 1;
    if n > 0 {
      OnlyRootsFirst(g, ids[..n]);
      assert ids[..n][1..] == ids[1..][..n - 1];
    }
  }

  // ------------------------------------------------------------------ the result

  lemma NoEdgeIntoRoot(g: Graph, i: nat, j: nat)
    requires g.Root(j)
    ensures !g.Edge(i, j)
  {
    assert g.Edge(i, j) ==> i in g.Predecessors(j);
  }

  lemma RootsIndependent<L(!new), V(!new)>(
    systems: seq<System<L, V>>, order: seq<nat>, dependents: seq<seq<nat>>, inDegree: seq<int>, i: nat, j: nat)
    requires NameOrder(order, Descriptors(systems)) && IsHazardGraph(Descriptors(systems), dependents, inDegree)
    requires i < |systems| && j < |systems| && i != j
    requires var g := BuiltGraph(Descriptors(systems), order, dependents, inDegree); g.Root(i) && g.Root(j)
    ensures Independent(systems, i, j)
  {
    var g := BuiltGraph(Descriptors(systems), order, dependents, inDegree);
    BuiltGraphWellFormed(Descriptors(systems), order, dependents, inDegree);
    assert Descriptors(systems)[i] == systems[i].descriptor && Descriptors(systems)[j] == systems[j].descriptor;
    NoEdgeIntoRoot(g, i, j);
    NoEdgeIntoRoot(g, j, i);
  }

  lemma RootsRespect<L(!new), V(!new)>(
    systems: seq<System<L, V>>, order: seq<nat>, dependents: seq<seq<nat>>, inDegree: seq<int>, events: seq<nat>)
    requires NameOrder(order, Descriptors(systems)) && IsHazardGraph(Descriptors(systems), dependents, inDegree)
    ensures var g := BuiltGraph(Descriptors(systems), order, dependents, inDegree);
            RespectsOrder(systems, OnlyRoots(g, order), events)
  {
    var g := BuiltGraph(Descriptors(systems), order, dependents, inDegree);
    var roots := OnlyRoots(g, order);
    OnlyRootsElements(g, order);
    forall x, y, p, q | 0 <= x < y < |events| && 0 <= p < q < |roots| && events[x] == roots[q] && events[y] == roots[p]
      ensures Independent(systems, roots[p], roots[q])
    {
      assert roots[p] in roots && roots[q] in roots && roots[p] != roots[q];
      RootsIndependent(systems, order, dependents, inDegree, roots[p], roots[q]);
    }
  }

  ghost predicate Finished<C(!new)>(s: State<C>, i: nat)
    requires |s.stages| == |s.log|
  {
    exists t: nat :: t < |s.log| && s.log[t] == i && s.stages[t] == Done
  }

  lemma RootsAllHalted<L(!new), V(!new)>(
    tick: Tick<Config<L, V>>, systems: seq<System<L, V>>, c: Config<L, V>, s: State<Config<L, V>>, i: nat)
    requires RootsTracked(tick, systems, c, s) && tick.graph.Root(i) && i < |systems| && Finished(s, i)
    ensures Halted(systems, i, Fold(systems, OnlyRoots(tick.graph, s.events), c))
  {
    var t: nat :| t < |s.log| && s.log[t] == i && s.stages[t] == Done;
    assert Halted(systems, i, s.config);
  }

  lemma RootsInterleave<L(!new), V(!new)>(
    systems: seq<System<L, V>>, order: seq<nat>, dependents: seq<seq<nat>>, inDegree: seq<int>,
    rule: SeedRule, workers: nat, c: Config<L, V>, s: State<Config<L, V>>)
    requires NameOrder(order, Descriptors(systems)) && IsHazardGraph(Descriptors(systems), dependents, inDegree)
    requires var tick := TickOf(systems, order, dependents, inDegree, rule, workers);
             && Reading(tick, systems, c) && RootsTracked(tick, systems, c, s)
             && forall i: nat | i < |systems| :: Finished(s, i)
    ensures var g := BuiltGraph(Descriptors(systems), order, dependents, inDegree);
            Interleaving(systems, OnlyRoots(g, order), OnlyRoots(g, s.events), c)
  {
    var tick := TickOf(systems, order, dependents, inDegree, rule, workers);
    var g := tick.graph;
    var roots, events := OnlyRoots(g, order), OnlyRoots(g, s.events);
    OnlyRootsElements(g, order);
    OnlyRootsElements(g, s.events);
    RootsRespect(systems, order, dependents, inDegree, events);
    hide IsHazardGraph, AllConfined, Fold, OnlyRoots, Tick.Orderly, RespectsOrder, Graph.Root, Graph.WellFormed;
    forall i | i in roots
      ensures i < |systems| && c.locals[i] == systems[i].init && Halted(systems, i, Fold(systems, events, c))
    {
      assert i in order;
      RootsAllHalted(tick, systems, c, s, i);
    }
    forall k | 0 <= k < |events| ensures events[k] in roots {
      assert events[k] in events;
      StartedBelow(tick, s, events[k]);
      PermutationCovers(order, |systems|, events[k]);
    }
    hide RootsTracked, NameOrder, Halted;
  }

  lemma StartedBelow<C(!new)>(tick: Tick<C>, s: State<C>, i: nat)
    requires tick.Shape(s) && RootsStarted(tick, s) && tick.graph.Root(i) && i in s.events
    ensures i < tick.N()
  {
    var y :| 0 <= y < |s.events| && s.events[y] == i;
    assert tick.Started(s, s.events[y]);
  }

  lemma ReachableRoots<L(!new), V(!new)>(
    tick: Tick<Config<L, V>>, systems: seq<System<L, V>>, c: Config<L, V>, run: seq<Action>)
    requires Reading(tick, systems, c) && tick.graph.WellFormed() && tick.Legal(tick.Init(c), run)
    ensures RootsTracked(tick, systems, c, tick.After(tick.Init(c), run))
  {
    tick.InitInv(c);
    assert RootsTracked(tick, systems, c, tick.Init(c));
    RootsTrackedRun(tick, systems, c, tick.Init(c), run);
  }

  lemma AllFinished<C(!new)>(tick: Tick<C>, s: State<C>)
    requires tick.graph.WellFormed() && tick.Sound(s) && tick.Quiescent(s) && s.seeded == tick.N()
    ensures |s.stages| == |s.log| && forall i: nat | i < tick.N() :: Finished(s, i)
  {
    tick.AllDispatched(s);
    tick.CompletedCount(s);
    forall i: nat | i < tick.N() ensures Finished(s, i) {
      assert i in s.log;
      var t: nat :| t < |s.log| && s.log[t] == i;
      assert s.stages[t] == Done;
    }
  }

  /**
   Where every system that has to wait declares no write, seeding twice is harmless to the result: under
   either seed rule and in every interleaving, once all is seeded and the pool has run dry the shared state is
   that of the sequential tick.
   */
  lemma ReadersHarmless<L(!new), V(!new)>(
    systems: seq<System<L, V>>, order: seq<nat>, dependents: seq<seq<nat>>, inDegree: seq<int>,
    rule: SeedRule, workers: nat, c: Config<L, V>, run: seq<Action>, sequential: Config<L, V>)
    requires AllConfined(systems) && Unstarted(systems, c) && SequentialTick(systems, order, c, sequential)
    requires NameOrder(order, Descriptors(systems)) && IsHazardGraph(Descriptors(systems), dependents, inDegree)
    requires var tick := TickOf(systems, order, dependents, inDegree, rule, workers);
             && WaitersRead(tick.graph, systems) && tick.Legal(tick.Init(c), run)
             && var s := tick.After(tick.Init(c), run); tick.Quiescent(s) && s.seeded == |systems|
    ensures var tick := TickOf(systems, order, dependents, inDegree, rule, workers);
            tick.After(tick.Init(c), run).config.store == sequential.store
  {
    var tick := TickOf(systems, order, dependents, inDegree, rule, workers);
    var s := tick.After(tick.Init(c), run);
    hide IsHazardGraph, AllConfined, Tick.Legal, Tick.After, Interleaving, SequentialTick, Tick.Sound, WaitersRead;
    hide OnlyRoots, Tick.Orderly, Graph.WellFormed, Finished;
    ReachableRoots(tick, systems, c, run);
    tick.ReachableSound(c, run);
    AllFinished(tick, s);
    RootsInterleave(systems, order, dependents, inDegree, rule, workers, c, s);
    var g := tick.graph;
    InterleavingIsSequential(systems, OnlyRoots(g, order), OnlyRoots(g, s.events), c);
    SequentialRoots(g, systems, order, c, sequential, c, Fold(systems, OnlyRoots(g, s.events), c));
  }
}
