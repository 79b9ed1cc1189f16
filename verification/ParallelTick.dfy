/**
 The parallel tick of real systems over the graph a scheduler built for them: with exact seeding it is the
 sequential tick, whatever the interleaving; with the live seed loop, exactly on the seed-safe graphs.
 */
module ParallelTick {
  import opened HazardGraph
  import opened Scheduler
  import opened Dispatch
  import opened TicketRuns
  import opened DoubleDispatch
  import opened Serialisability

  ghost function MachineOf<L(!new), V(!new)>(systems: seq<System<L, V>>): Machine<Config<L, V>> {
    Machine((i, c) => Restarted(systems, i, c), (i, c) => Step(systems, i, c), (i, c) => Halted(systems, i, c))
  }

  // ------------------------------------------------------------------ configurations along a run

  ghost predicate FinishedHalted<L(!new), V(!new)>(
    tick: Tick<Config<L, V>>, systems: seq<System<L, V>>, s: State<Config<L, V>>)
    requires tick.Shape(s)
  {
    forall t: nat | t < |s.log| && (s.stages[t].Dropping? || s.stages[t].Done?) :: Halted(systems, s.log[t], s.config)
  }

  /** The configuration is the fold of the micro-steps, none wasted; finished tickets belong to halted systems. */
  ghost predicate Tracks<L(!new), V(!new)>(
    tick: Tick<Config<L, V>>, systems: seq<System<L, V>>, c: Config<L, V>, s: State<Config<L, V>>)
  {
    && tick.Shape(s) && FinishedHalted(tick, systems, s)
    && s.config == Fold(systems, s.events, c) && Productive(systems, s.events, c)
  }

  /** A system whose ticket waits in the queue has taken no micro-step. */
  lemma NotBegun<C(!new)>(tick: Tick<C>, s: State<C>)
    requires tick.graph.WellFormed() && tick.Good(s) && s.next < |s.log| && s.stages[s.next] == Queued
    ensures s.log[s.next] !in s.events
  {
    forall y | 0 <= y < |s.events| ensures s.events[y] != s.log[s.next] {
      var t: nat :| t < |s.log| && s.log[t] == s.events[y] && s.stages[t] != Queued;
    }
  }

  lemma RestartedFresh<L(!new), V(!new)>(systems: seq<System<L, V>>, i: nat, events: seq<nat>, c: Config<L, V>)
    requires Unstarted(systems, c) && i !in events
    ensures Restarted(systems, i, Fold(systems, events, c)) == Fold(systems, events, c)
  {
    if i < |systems| {
      FoldKeepsLocal(systems, events, c, i);
      var d := Fold(systems, events, c);
      assert d.locals[i := systems[i].init] == d.locals;
    }
  }

  lemma TracksExec<L(!new), V(!new)>(
    tick: Tick<Config<L, V>>, systems: seq<System<L, V>>, c: Config<L, V>, s: State<Config<L, V>>, t: nat)
    requires tick.graph.WellFormed() && tick.machine == MachineOf(systems)
    requires Tracks(tick, systems, c, s) && tick.Enabled(s, Exec(t))
    ensures Tracks(tick, systems, c, tick.Apply(s, Exec(t)))
  {
    ProductiveThen(systems, s.events, s.log[t], c);
    FoldLast(systems, s.events, s.log[t], c);
    hide Fold, Productive;
  }

  lemma TracksStart<L(!new), V(!new)>(
    tick: Tick<Config<L, V>>, systems: seq<System<L, V>>, c: Config<L, V>, s: State<Config<L, V>>)
    requires tick.graph.WellFormed() && tick.machine == MachineOf(systems) && Unstarted(systems, c)
    requires tick.Good(s) && Tracks(tick, systems, c, s) && tick.Enabled(s, Start)
    ensures Tracks(tick, systems, c, tick.Apply(s, Start))
  {
    NotBegun(tick, s);
    RestartedFresh(systems, s.log[s.next], s.events, c);
    hide Fold, Productive, Tick.Good;
  }

  lemma TracksOther<L(!new), V(!new)>(
    tick: Tick<Config<L, V>>, systems: seq<System<L, V>>, c: Config<L, V>, s: State<Config<L, V>>, a: Action)
    requires tick.graph.WellFormed() && tick.machine == MachineOf(systems)
    requires Tracks(tick, systems, c, s) && tick.Enabled(s, a) && !a.Exec? && !a.Start?
    ensures Tracks(tick, systems, c, tick.Apply(s, a))
  {
    hide Fold, Productive;
    FinishedKept(tick, systems, s, a);
    hide FinishedHalted;
  }

  lemma FinishedKept<L(!new), V(!new)>(
    tick: Tick<Config<L, V>>, systems: seq<System<L, V>>, s: State<Config<L, V>>, a: Action)
    requires tick.graph.WellFormed() && tick.machine == MachineOf(systems) && tick.Shape(s)
    requires FinishedHalted(tick, systems, s) && tick.Enabled(s, a) && !a.Exec? && !a.Start?
    ensures FinishedHalted(tick, systems, tick.Apply(s, a))
  {
    hide Halted;
  }

  lemma TracksStep<L(!new), V(!new)>(
    tick: Tick<Config<L, V>>, systems: seq<System<L, V>>, c: Config<L, V>, s: State<Config<L, V>>, a: Action)
    requires tick.graph.WellFormed() && tick.machine == MachineOf(systems) && Unstarted(systems, c)
    requires tick.Good(s) && Tracks(tick, systems, c, s) && tick.Enabled(s, a)
    ensures Tracks(tick, systems, c, tick.Apply(s, a))
  {
    assert tick.Shape(s);
    hide Tracks, Tick.Good;
    match a
    case Exec(t) => TracksExec(tick, systems, c, s, t);
    case Start => TracksStart(tick, systems, c, s);
    case _ => TracksOther(tick, systems, c, s, a);
  }

  lemma {:induction false} TracksRun<L(!new), V(!new)>(
    tick: Tick<Config<L, V>>, systems: seq<System<L, V>>, c: Config<L, V>, s: State<Config<L, V>>, run: seq<Action>)
    requires tick.graph.WellFormed() && tick.Exact() && tick.machine == MachineOf(systems) && Unstarted(systems, c)
    requires tick.Good(s) && Tracks(tick, systems, c, s) && tick.Legal(s, run)
    ensures Tracks(tick, systems, c, tick.After(s, run))
    decreases run
  {
    assert tick.Shape(s);
    hide Tracks, Tick.Good, Tick.Exact;
    if run != [] {
      TracksStep(tick, systems, c, s, run[0]);
      tick.GoodStep(s, run[0]);
      TracksRun(tick, systems, c, tick.Apply(s, run[0]), run[1..]);
    }
  }

  lemma ReachableTracks<L(!new), V(!new)>(
    tick: Tick<Config<L, V>>, systems: seq<System<L, V>>, c: Config<L, V>, run: seq<Action>)
    requires tick.graph.WellFormed() && tick.Exact() && tick.machine == MachineOf(systems) && Unstarted(systems, c)
    requires tick.Legal(tick.Init(c), run)
    ensures Tracks(tick, systems, c, tick.After(tick.Init(c), run))
  {
    tick.InitInv(c);
    assert tick.Good(tick.Init(c));
    TracksRun(tick, systems, c, tick.Init(c), run);
  }

  // ------------------------------------------------------------------ the parallel tick is the sequential one

  lemma EventsRespectOrder<L(!new), V(!new)>(
    systems: seq<System<L, V>>, order: seq<nat>, dependents: seq<seq<nat>>, inDegree: seq<int>, events: seq<nat>)
    requires NameOrder(order, Descriptors(systems)) && IsHazardGraph(Descriptors(systems), dependents, inDegree)
    requires forall x, y | 0 <= x < y < |events| :: !GraphOf(order, dependents).Edge(events[y], events[x])
    ensures RespectsOrder(systems, order, events)
  {
    var descriptors := Descriptors(systems);
    forall x, y, p, q | 0 <= x < y < |events| && 0 <= p < q < |order| && events[x] == order[q] && events[y] == order[p]
      ensures Independent(systems, order[p], order[q])
    {
      assert Before(descriptors, order[p], order[q]);
      if HaveHazard(descriptors[order[p]], descriptors[order[q]]) {
        assert HazardEdge(descriptors, order[p], order[q]);
        assert GraphOf(order, dependents).Edge(events[y], events[x]);
      }
    }
  }

  /** The parallel tick over the graph a scheduler built for these systems. */
  ghost function TickOf<L(!new), V(!new)>(
    systems: seq<System<L, V>>, order: seq<nat>, dependents: seq<seq<nat>>, inDegree: seq<int>,
    rule: SeedRule, workers: nat): (tick: Tick<Config<L, V>>)
    requires NameOrder(order, Descriptors(systems)) && IsHazardGraph(Descriptors(systems), dependents, inDegree)
    ensures tick.graph.WellFormed() && tick.N() == |systems|
  {
    Tick(BuiltGraph(Descriptors(systems), order, dependents, inDegree), rule, workers, MachineOf(systems))
  }

  /** The micro-steps of a tick that has counted every system. */
  lemma CompletedRun<L(!new), V(!new)>(
    tick: Tick<Config<L, V>>, systems: seq<System<L, V>>, c: Config<L, V>, run: seq<Action>)
    requires tick.graph.WellFormed() && tick.Exact() && tick.machine == MachineOf(systems) && Unstarted(systems, c)
    requires tick.Legal(tick.Init(c), run) && tick.After(tick.Init(c), run).completed == tick.N()
    ensures var s := tick.After(tick.Init(c), run);
            && s.config == Fold(systems, s.events, c) && Productive(systems, s.events, c)
            && (forall e | e in s.events :: e < tick.N())
            && (forall x, y | 0 <= x < y < |s.events| :: !tick.graph.Edge(s.events[y], s.events[x]))
            && (forall i: nat | i < tick.N() :: Halted(systems, i, s.config))
  {
    var s := tick.After(tick.Init(c), run);
    tick.ReachableGood(c, run);
    tick.CompletedMeansAllOnce(s);
    ReachableTracks(tick, systems, c, run);
    hide Tick.Inv, Tick.Exact, Fold, Productive;
    forall e | e in s.events ensures e < tick.N() {
      var y :| 0 <= y < |s.events| && s.events[y] == e;
      assert tick.Started(s, s.events[y]);
    }
    forall i: nat | i < tick.N() ensures Halted(systems, i, s.config) {
      assert i in s.log;
      var t: nat :| t < |s.log| && s.log[t] == i;
      assert s.stages[t] == Done;
    }
  }

  lemma CompletedInterleaves<L(!new), V(!new)>(
    systems: seq<System<L, V>>, order: seq<nat>, dependents: seq<seq<nat>>, inDegree: seq<int>,
    rule: SeedRule, workers: nat, c: Config<L, V>, run: seq<Action>)
    requires AllConfined(systems) && Unstarted(systems, c)
    requires NameOrder(order, Descriptors(systems)) && IsHazardGraph(Descriptors(systems), dependents, inDegree)
    requires var tick := TickOf(systems, order, dependents, inDegree, rule, workers);
             tick.Exact() && tick.Legal(tick.Init(c), run) && tick.After(tick.Init(c), run).completed == |systems|
    ensures var tick := TickOf(systems, order, dependents, inDegree, rule, workers);
            var s := tick.After(tick.Init(c), run);
            && s.config == Fold(systems, s.events, c) && Productive(systems, s.events, c)
            && Interleaving(systems, order, s.events, c)
  {
    var tick := TickOf(systems, order, dependents, inDegree, rule, workers);
    var s := tick.After(tick.Init(c), run);
    CompletedRun(tick, systems, c, run);
    EventsRespectOrder(systems, order, dependents, inDegree, s.events);
    forall k | 0 <= k < |s.events| ensures s.events[k] in order {
      assert s.events[k] in s.events;
      PermutationCovers(order, |systems|, s.events[k]);
    }
    hide AllConfined, RespectsOrder, IsHazardGraph, Productive, Fold, Tick.Exact, Tick.Legal, Tick.After;
  }

  /**
   Serialisability. A parallel tick over the built hazard graph that has counted every system leaves
   exactly the configuration of the sequential tick in name order, whatever the interleaving.
   */
  lemma ParallelTickIsSequential<L(!new), V(!new)>(
    systems: seq<System<L, V>>, order: seq<nat>, dependents: seq<seq<nat>>, inDegree: seq<int>,
    rule: SeedRule, workers: nat, c: Config<L, V>, run: seq<Action>)
    requires AllConfined(systems) && Unstarted(systems, c)
    requires NameOrder(order, Descriptors(systems)) && IsHazardGraph(Descriptors(systems), dependents, inDegree)
    requires var tick := TickOf(systems, order, dependents, inDegree, rule, workers);
             tick.Exact() && tick.Legal(tick.Init(c), run) && tick.After(tick.Init(c), run).completed == |systems|
    ensures var tick := TickOf(systems, order, dependents, inDegree, rule, workers);
            var final := tick.After(tick.Init(c), run).config;
            && SequentialTick(systems, order, c, final)
            && forall c' | SequentialTick(systems, order, c, c') :: c' == final
  {
    var tick := TickOf(systems, order, dependents, inDegree, rule, workers);
    var s := tick.After(tick.Init(c), run);
    CompletedInterleaves(systems, order, dependents, inDegree, rule, workers, c, run);
    hide Interleaving, IsHazardGraph, Tick.Exact, Tick.Legal, Tick.After, AllConfined, NameOrder;
    InterleavingIsSequential(systems, order, s.events, c);
    forall c' | SequentialTick(systems, order, c, c') ensures c' == s.config {
      SequentialTickDeterministic(systems, order, c, c', s.config);
    }
  }

  // ------------------------------------------------------------------ systems that end their ticks

  lemma {:induction false} AloneFromStep<L(!new), V(!new)>(
    systems: seq<System<L, V>>, i: nat, c: Config<L, V>, k: nat)
    requires k > 0
    ensures Alone(systems, i, c, k) == Alone(systems, i, Step(systems, i, c), k - 1)
  {
    if k > 1 {
      AloneFromStep(systems, i, c, k - 1);
    }
  }

  lemma {:induction false} IterateIsAlone<L(!new), V(!new)>(
    systems: seq<System<L, V>>, i: nat, c: Config<L, V>, k: nat)
    ensures Iterate(MachineOf(systems), i, c, k) == Alone(systems, i, c, k)
    decreases k
  {
    if k > 0 {
      IterateIsAlone(systems, i, Step(systems, i, c), k - 1);
      AloneFromStep(systems, i, c, k);
    }
  }

  /** One private state for each system. */
  ghost function Sized<L(!new), V(!new)>(systems: seq<System<L, V>>): Config<L, V> -> bool {
    (c: Config<L, V>) => |c.locals| == |systems|
  }

  lemma SystemsTerminate<L(!new), V(!new)>(systems: seq<System<L, V>>)
    requires AlwaysHalts(systems)
    ensures Terminating(MachineOf(systems), |systems|, Sized(systems))
  {
    var m, good := MachineOf(systems), Sized(systems);
    forall i: nat, c: Config<L, V> | i < |systems| && good(c)
      ensures Halts(m, i, c) && good(m.start(i, c)) && good(m.step(i, c))
    {
      assert HaltsAlone(systems, i, c);
      var k: nat :| Halted(systems, i, Alone(systems, i, c, k));
      IterateIsAlone(systems, i, c, k);
      assert m.halted(i, Iterate(m, i, c, k));
    }
  }

  // ------------------------------------------------------------------ total correctness

  lemma {:induction false} RunLength<C(!new)>(tick: Tick<C>, s: State<C>, run: seq<Action>)
    requires tick.graph.WellFormed() && tick.Shape(s) && tick.Legal(s, run)
    ensures |run| + |s.events| == tick.Overhead(run) + |tick.After(s, run).events|
    ensures tick.Overhead(run) <= |run|
    decreases run
  {
    if run != [] {
      RunLength(tick, tick.Apply(s, run[0]), run[1..]);
    }
  }

  /** A completed tick has taken exactly as many micro-steps as the sequential one. */
  lemma CompletedCost<L(!new), V(!new)>(
    systems: seq<System<L, V>>, order: seq<nat>, dependents: seq<seq<nat>>, inDegree: seq<int>,
    rule: SeedRule, workers: nat, c: Config<L, V>, run: seq<Action>)
    requires AllConfined(systems) && AlwaysHalts(systems) && Unstarted(systems, c)
    requires NameOrder(order, Descriptors(systems)) && IsHazardGraph(Descriptors(systems), dependents, inDegree)
    requires var tick := TickOf(systems, order, dependents, inDegree, rule, workers);
             tick.Exact() && tick.Legal(tick.Init(c), run) && tick.After(tick.Init(c), run).completed == |systems|
    ensures var tick := TickOf(systems, order, dependents, inDegree, rule, workers);
            |tick.After(tick.Init(c), run).events| == SequentialCost(systems, order, c)
  {
    var tick := TickOf(systems, order, dependents, inDegree, rule, workers);
    CompletedInterleaves(systems, order, dependents, inDegree, rule, workers, c, run);
    hide Interleaving, IsHazardGraph, Tick.Exact, Tick.Legal, Tick.After, AllConfined, AlwaysHalts;
    InterleavingCost(systems, order, tick.After(tick.Init(c), run).events, c);
  }

  /** No run takes more micro-steps than the sequential tick. */
  lemma EventsBounded<L(!new), V(!new)>(
    systems: seq<System<L, V>>, order: seq<nat>, dependents: seq<seq<nat>>, inDegree: seq<int>,
    rule: SeedRule, workers: nat, c: Config<L, V>, run: seq<Action>)
    requires AllConfined(systems) && AlwaysHalts(systems) && Unstarted(systems, c) && workers > 0
    requires NameOrder(order, Descriptors(systems)) && IsHazardGraph(Descriptors(systems), dependents, inDegree)
    requires var tick := TickOf(systems, order, dependents, inDegree, rule, workers);
             tick.Exact() && tick.Legal(tick.Init(c), run)
    ensures var tick := TickOf(systems, order, dependents, inDegree, rule, workers);
            |tick.After(tick.Init(c), run).events| <= SequentialCost(systems, order, c)
  {
    var tick := TickOf(systems, order, dependents, inDegree, rule, workers);
    var s := tick.After(tick.Init(c), run);
    SystemsTerminate(systems);
    tick.ReachableGood(c, run);
    hide Tick.Good, IsHazardGraph, AllConfined, AlwaysHalts, Terminating, Tick.Exact;
    RunGood(tick, Sized(systems), tick.Init(c), run);
    var more := CanComplete(tick, Sized(systems), s);
    tick.Append(tick.Init(c), run, more);
    RunLength(tick, s, more);
    CompletedCost(systems, order, dependents, inDegree, rule, workers, c, run + more);
  }

  /**
   Total correctness. With exact seeding, systems that touch only what they declare and always halt: every
   run is bounded by N(N+4) actions of the scheduler and the micro-steps of the sequential tick, and a run
   that can go no further has counted every system and left the state of the sequential tick.
   */
  lemma TotalCorrectness<L(!new), V(!new)>(
    systems: seq<System<L, V>>, order: seq<nat>, dependents: seq<seq<nat>>, inDegree: seq<int>,
    rule: SeedRule, workers: nat, c: Config<L, V>, run: seq<Action>)
    requires AllConfined(systems) && AlwaysHalts(systems) && Unstarted(systems, c) && workers > 0
    requires NameOrder(order, Descriptors(systems)) && IsHazardGraph(Descriptors(systems), dependents, inDegree)
    requires var tick := TickOf(systems, order, dependents, inDegree, rule, workers);
             tick.Exact() && tick.Legal(tick.Init(c), run)
    ensures |run| <= |systems| * (|systems| + 4) + SequentialCost(systems, order, c)
    ensures var tick := TickOf(systems, order, dependents, inDegree, rule, workers);
            var s := tick.After(tick.Init(c), run);
            (forall a :: !tick.Enabled(s, a)) ==>
              s.completed == |systems| && SequentialTick(systems, order, c, s.config)
  {
    var tick := TickOf(systems, order, dependents, inDegree, rule, workers);
    var s := tick.After(tick.Init(c), run);
    EventsBounded(systems, order, dependents, inDegree, rule, workers, c, run);
    RunLength(tick, tick.Init(c), run);
    tick.TickTerminates(c, run);
    if forall a :: !tick.Enabled(s, a) {
      NothingLeft(tick, c, run);
      ParallelTickIsSequential(systems, order, dependents, inDegree, rule, workers, c, run);
    }
    hide Tick.Good, IsHazardGraph, AllConfined, AlwaysHalts, Tick.Exact, Tick.Legal, Tick.After, SequentialTick;
  }

  lemma NothingLeft<C(!new)>(tick: Tick<C>, c: C, run: seq<Action>)
    requires tick.graph.WellFormed() && tick.Exact() && tick.workers > 0 && tick.Legal(tick.Init(c), run)
    requires forall a :: !tick.Enabled(tick.After(tick.Init(c), run), a)
    ensures tick.After(tick.Init(c), run).completed == tick.N()
  {
    var s := tick.After(tick.Init(c), run);
    tick.ReachableGood(c, run);
    tick.InvSound(s);
    WithinBound(tick, s);
    tick.CompletedCount(s);
    hide Tick.Sound, Tick.Inv, Tick.Legal;
    if s.completed < tick.N() {
      tick.Progress(s);
    }
  }

  // ------------------------------------------------------------------ overlap

  /** Two systems in execution at the same time are different systems without a hazard. */
  ghost predicate OverlapFree<L(!new), V(!new)>(systems: seq<System<L, V>>, s: State<Config<L, V>>)
    requires |s.stages| == |s.log| && forall t | 0 <= t < |s.log| :: s.log[t] < |systems|
  {
    forall t: nat, u: nat | t < u < |s.log| && s.stages[t] == Executing && s.stages[u] == Executing ::
      Independent(systems, s.log[t], s.log[u])
  }

  /** With exact seeding, in every interleaving, two systems in execution at the same time never have a hazard. */
  lemma HazardsNeverOverlap<L(!new), V(!new)>(
    systems: seq<System<L, V>>, order: seq<nat>, dependents: seq<seq<nat>>, inDegree: seq<int>,
    rule: SeedRule, workers: nat, c: Config<L, V>, run: seq<Action>)
    requires NameOrder(order, Descriptors(systems)) && IsHazardGraph(Descriptors(systems), dependents, inDegree)
    requires var tick := TickOf(systems, order, dependents, inDegree, rule, workers);
             tick.Exact() && tick.Legal(tick.Init(c), run)
    ensures var tick := TickOf(systems, order, dependents, inDegree, rule, workers);
            OverlapFree(systems, tick.After(tick.Init(c), run))
  {
    var tick := TickOf(systems, order, dependents, inDegree, rule, workers);
    var s := tick.After(tick.Init(c), run);
    tick.ReachableGood(c, run);
    BuiltGraphWellFormed(Descriptors(systems), order, dependents, inDegree);
    hide IsHazardGraph, Tick.Exact, Tick.Legal, Tick.After;
    forall t: nat, u: nat | t < u < |s.log| && s.stages[t] == Executing && s.stages[u] == Executing
      ensures Independent(systems, s.log[t], s.log[u])
    {
      tick.NoOverlap(s, t, u);
      tick.NoOverlap(s, u, t);
      var i, j := s.log[t], s.log[u];
      assert i != j;
      assert Descriptors(systems)[i] == systems[i].descriptor && Descriptors(systems)[j] == systems[j].descriptor;
    }
  }

  /**
   For a built scheduler whose systems' ticks all end: under the live seed loop systems that conflict, or one
   system with itself, never overlap in any interleaving exactly when the graph is seed-safe or the pool has
   a single worker.
   */
  lemma OverlapFreeIff<L(!new), V(!new)>(
    systems: seq<System<L, V>>, order: seq<nat>, dependents: seq<seq<nat>>, inDegree: seq<int>,
    workers: nat, c: Config<L, V>)
    requires AlwaysHalts(systems) && |c.locals| == |systems| && workers > 0
    requires NameOrder(order, Descriptors(systems)) && IsHazardGraph(Descriptors(systems), dependents, inDegree)
    ensures var tick := TickOf(systems, order, dependents, inDegree, Live, workers);
            tick.graph.SeedSafe() || workers < 2 <==>
            forall run | tick.Legal(tick.Init(c), run) :: OverlapFree(systems, tick.After(tick.Init(c), run))
  {
    var tick := TickOf(systems, order, dependents, inDegree, Live, workers);
    SystemsTerminate(systems);
    NeverItselfIff(tick, Sized(systems), c);
    hide IsHazardGraph, NameOrder, AlwaysHalts, Terminating;
    if tick.graph.SeedSafe() || workers < 2 {
      forall run | tick.Legal(tick.Init(c), run) ensures OverlapFree(systems, tick.After(tick.Init(c), run)) {
        if tick.graph.SeedSafe() {
          HazardsNeverOverlap(systems, order, dependents, inDegree, Live, workers, c, run);
        } else {
          AloneOverlapFree(tick, systems, c, run);
        }
      }
    } else {
      var run :| tick.Legal(tick.Init(c), run) && !NeverItself(tick, tick.After(tick.Init(c), run));
      ItselfOverlaps(tick, systems, tick.After(tick.Init(c), run));
    }
  }

  lemma AloneOverlapFree<L(!new), V(!new)>(
    tick: Tick<Config<L, V>>, systems: seq<System<L, V>>, c: Config<L, V>, run: seq<Action>)
    requires tick.graph.WellFormed() && tick.N() == |systems| && tick.workers < 2 && tick.Legal(tick.Init(c), run)
    ensures OverlapFree(systems, tick.After(tick.Init(c), run))
  {
    var s := tick.After(tick.Init(c), run);
    if t: nat, u: nat :| t < u < |s.log| && s.stages[t] == Executing && s.stages[u] == Executing {
      OneWorkerAlone(tick, c, run, t, u);
    }
  }

  lemma ItselfOverlaps<L(!new), V(!new)>(
    tick: Tick<Config<L, V>>, systems: seq<System<L, V>>, s: State<Config<L, V>>)
    requires tick.Shape(s) && tick.N() == |systems| && !NeverItself(tick, s)
    ensures !OverlapFree(systems, s)
  {
    var t: nat, u: nat :| tick.InStage(s, t, Executing) && tick.InStage(s, u, Executing) && t != u
      && s.log[t] == s.log[u];
    var a, b := if t < u then t else u, if t < u then u else t;
    assert !Independent(systems, s.log[a], s.log[b]);
  }

  // ------------------------------------------------------------------ the live seed loop over real systems

  /**
   For a built scheduler whose systems' ticks all end: the live seed loop dispatches each system at most
   once in every interleaving, and the tick returns only when all is done in every interleaving, each
   exactly when the built graph is seed-safe.
   */
  lemma LiveLoopRightIffSeedSafe<L(!new), V(!new)>(
    systems: seq<System<L, V>>, order: seq<nat>, dependents: seq<seq<nat>>, inDegree: seq<int>,
    workers: nat, c: Config<L, V>)
    requires AlwaysHalts(systems) && |c.locals| == |systems| && workers > 0
    requires NameOrder(order, Descriptors(systems)) && IsHazardGraph(Descriptors(systems), dependents, inDegree)
    ensures var tick := TickOf(systems, order, dependents, inDegree, Live, workers);
            && (tick.graph.SeedSafe() <==>
                  forall run | tick.Legal(tick.Init(c), run) :: Distinct(tick.After(tick.Init(c), run).log))
            && (tick.graph.SeedSafe() <==>
                  forall run | tick.Legal(tick.Init(c), run) :: EndsRight(tick, tick.After(tick.Init(c), run)))
  {
    var tick := TickOf(systems, order, dependents, inDegree, Live, workers);
    var good := Sized(systems);
    SystemsTerminate(systems);
    DispatchedOnceIffSeedSafe(tick, good, c);
    WaitRightIffSeedSafe(tick, good, c);
  }

  /** For any other built graph some interleaving leaves the ticking thread waiting for ever. */
  lemma LiveLoopMayNeverReturn<L(!new), V(!new)>(
    systems: seq<System<L, V>>, order: seq<nat>, dependents: seq<seq<nat>>, inDegree: seq<int>,
    workers: nat, c: Config<L, V>) returns (run: seq<Action>)
    requires AlwaysHalts(systems) && |c.locals| == |systems| && workers > 0
    requires NameOrder(order, Descriptors(systems)) && IsHazardGraph(Descriptors(systems), dependents, inDegree)
    requires !TickOf(systems, order, dependents, inDegree, Live, workers).graph.SeedSafe()
    ensures var tick := TickOf(systems, order, dependents, inDegree, Live, workers);
            && tick.Legal(tick.Init(c), run)
            && var s := tick.After(tick.Init(c), run);
               && s.seeded == |systems| && s.completed > |systems|
               && forall more | tick.Legal(s, more) :: tick.After(s, more).completed != |systems|
  {
    var tick := TickOf(systems, order, dependents, inDegree, Live, workers);
    SystemsTerminate(systems);
    var s;
    run, s := MissedReturn(tick, Sized(systems), c);
  }
}
