/**
 When the live seed loop dispatches a system twice. The loop reads counters that workers are already
 decrementing, so a system released by a worker before the loop reaches it is dispatched again.
 */
module DoubleDispatch {
  import opened Counting
  import opened Dispatch
  import opened HazardGraph
  import opened TicketRuns

  /** The run takes the tick from its start in c to s. */
  ghost predicate Reaches<C(!new)>(tick: Tick<C>, c: C, run: seq<Action>, s: State<C>)
    requires tick.graph.WellFormed()
  {
    tick.Legal(tick.Init(c), run) && tick.After(tick.Init(c), run) == s
  }

  lemma ReachesThen<C(!new)>(tick: Tick<C>, c: C, a: seq<Action>, m: State<C>, b: seq<Action>, s: State<C>)
    requires tick.graph.WellFormed() && Reaches(tick, c, a, m)
    requires tick.Shape(m) && tick.Legal(m, b) && tick.After(m, b) == s
    ensures Reaches(tick, c, a + b, s)
  {
    tick.Append(tick.Init(c), a, b);
  }

  /** The loop comes to a waiting system that fires before it: a graph without one is seed-safe. */
  ghost predicate Released(g: Graph, j: nat)
    requires g.WellFormed()
  {
    j < g.Size() && !g.Root(j) && g.Fires(j, j)
  }

  lemma SomeReleased(g: Graph) returns (j: nat)
    requires g.WellFormed() && !g.SeedSafe()
    ensures Released(g, j)
  {
    g.SeedSafeIffNoneFires();
    j :| j < g.Size() && !g.Root(j) && g.Fires(j, j);
  }

  /** Before the loop comes to j, workers can bring j to the head of the queue. */
  lemma ReleasedEarly<C(!new)>(tick: Tick<C>, good: C -> bool, c: C, j: nat)
    returns (run: seq<Action>, s: State<C>)
    requires Runnable(tick, good) && good(c) && Released(tick.graph, j)
    ensures Reaches(tick, c, run, s) && tick.Inv(s) && s.seeded == j
    ensures Ready(tick, good, s, {}) && s.next < |s.log| && s.log[s.next] == j
    ensures Ran(tick.machine, s.log, 0, s.next, c, s.config)
  {
    var run1, s1 := SeedUpTo(tick, c, j);
    tick.InvSound(s1);
    var run2, s2 := RunToSystem(tick, good, s1, j);
    StillReady(tick, good, {}, s1, run2, s2);
    hide Tick.Inv, Tick.Sound, Ran, Graph.Fires;
    ReachesThen(tick, c, run1, s1, run2, s2);
    run, s := run1 + run2, s2;
  }

  /** The live loop dispatches again a waiting system that workers have already released. */
  lemma SecondDispatch<C(!new)>(tick: Tick<C>, s: State<C>) returns (s': State<C>)
    requires tick.graph.WellFormed() && tick.rule.Live? && tick.Inv(s)
    requires s.seeded < tick.N() && !tick.graph.Root(s.seeded) && s.seeded in s.log
    ensures tick.Legal(s, [Seed]) && tick.After(s, [Seed]) == s' && tick.Sound(s')
    ensures s'.log == s.log + [s.seeded] && s'.stages == s.stages + [Queued]
    ensures s'.config == s.config && s'.next == s.next
  {
    s' := tick.Apply(s, Seed);
    tick.Single(s, Seed);
    tick.InvSound(s);
    tick.SeedSound(s);
  }

  /**
   A graph that is not seed-safe has an interleaving in which some waiting system is dispatched a second
   time when everything dispatched before, its first ticket included, is done.
   */
  lemma UnsafeGraphDispatchesTwice<C(!new)>(tick: Tick<C>, good: C -> bool, c: C, j: nat)
    returns (run: seq<Action>, s: State<C>)
    requires Runnable(tick, good) && tick.rule.Live? && good(c) && Released(tick.graph, j)
    ensures Reaches(tick, c, run, s) && Ready(tick, good, s, {}) && s.next <= tick.N()
    ensures s.next + 1 == |s.log| && s.log[s.next] == j && j in s.log[..s.next] && !Distinct(s.log)
    ensures Ran(tick.machine, s.log, 0, s.next, c, s.config)
  {
    var run1, s1 := ReleasedEarly(tick, good, c, j);
    var run2, s2 := Drain(tick, good, s1);
    var s3 := SecondDispatch(tick, s2);
    SeedKeepsReady(tick, good, s2, s3, {});
    hide Tick.Inv, Tick.Sound, Ready, Graph.Fires, Tick.Legal, Tick.After;
    ReachesThen(tick, c, run1, s1, run2, s2);
    ReachesThen(tick, c, run1 + run2, s2, [Seed], s3);
    run, s := run1 + run2 + [Seed], s3;
    RanJoin(tick.machine, s1.log, s2.log, 0, s1.next, s2.next, c, s1.config, s2.config);
    RanNothing(tick.machine, s3.log, s2.next, s2.config);
    RanJoin(tick.machine, s2.log, s3.log, 0, s2.next, s2.next, c, s2.config, s2.config);
    assert s3.log[s1.next] == j == s3.log[s3.next];
    assert s3.log[..s3.next][s1.next] == j;
  }

  lemma RanNothing<C(!new)>(m: Machine<C>, log: seq<nat>, a: nat, c: C)
    requires a <= |log|
    ensures Ran(m, log, a, a, c, c)
  {
  }

  /** The workers can run the pool dry while the seed loop stands still. */
  lemma Drain<C(!new)>(tick: Tick<C>, good: C -> bool, s: State<C>) returns (run: seq<Action>, s': State<C>)
    requires Ready(tick, good, s, {}) && tick.Inv(s)
    ensures tick.Legal(s, run) && tick.After(s, run) == s' && tick.Shape(s) && tick.Shape(s')
    ensures tick.Inv(s') && Ready(tick, good, s', {}) && s'.seeded == s.seeded && s.log <= s'.log
    ensures s.next <= s'.next == |s'.log| <= tick.N()
    ensures Ran(tick.machine, s'.log, s.next, s'.next, s.config, s'.config)
  {
    DistinctBelow(s.log, tick.N());
    run, s' := RunUntil(tick, good, s, {}, tick.N() + 1);
    StillReady(tick, good, {}, s, run, s');
    WorkKeepsInv(tick, s, run);
    DistinctBelow(s'.log, tick.N());
    hide Ran, Tick.Sound;
  }

  /**
   The live seed loop dispatches every system at most once, in every interleaving, exactly when each
   system that has to wait descends from a root registered after it.
   */
  lemma DispatchedOnceIffSeedSafe<C(!new)>(tick: Tick<C>, good: C -> bool, c: C)
    requires Runnable(tick, good) && tick.rule.Live? && good(c)
    ensures tick.graph.SeedSafe() <==>
            forall run | tick.Legal(tick.Init(c), run) :: Distinct(tick.After(tick.Init(c), run).log)
  {
    if tick.graph.SeedSafe() {
      forall run | tick.Legal(tick.Init(c), run) ensures Distinct(tick.After(tick.Init(c), run).log) {
        tick.ReachableGood(c, run);
      }
    } else {
      var j := SomeReleased(tick.graph);
      var run, s := UnsafeGraphDispatchesTwice(tick, good, c, j);
      assert tick.Legal(tick.Init(c), run) && !Distinct(tick.After(tick.Init(c), run).log);
    }
    hide Tick.Inv, Tick.Sound, Ready, Graph.SeedSafe;
  }

  // ------------------------------------------------------------------ a system overlapping itself

  /** With two workers, the second ticket of a released system can be started while the first is in execution. */
  lemma OverlapsItself<C(!new)>(tick: Tick<C>, good: C -> bool, c: C, j: nat)
    returns (run: seq<Action>, s: State<C>, t: nat, u: nat)
    requires Runnable(tick, good) && tick.rule.Live? && good(c) && Released(tick.graph, j) && tick.workers >= 2
    ensures Reaches(tick, c, run, s) && t != u && t < |s.log| && u < |s.log| && s.log[t] == s.log[u] == j
    ensures tick.InStage(s, t, Executing) && tick.InStage(s, u, Executing)
  {
    var run1, s1 := ReleasedEarly(tick, good, c, j);
    t := s1.next;
    var s2 := HoldFirst(tick, good, s1);
    var s3 := SecondDispatch(tick, s2);
    SeedKeepsReady(tick, good, s2, s3, {t});
    u := |s2.log|;
    hide Tick.Inv, Tick.Sound, Graph.Fires;
    var run4, s4 := RunUntil(tick, good, s3, {t}, u);
    StillReady(tick, good, {t}, s3, run4, s4);
    assert s4.next == u && s4.stages[t] == Executing && s4.log[u] == j;
    var s5 := StartTicket(tick, good, s4, {t});
    hide Ready, Ran, Idle, Tick.Legal, Tick.After;
    ReachesThen(tick, c, run1, s1, [Start], s2);
    ReachesThen(tick, c, run1 + [Start], s2, [Seed], s3);
    ReachesThen(tick, c, run1 + [Start] + [Seed], s3, run4, s4);
    ReachesThen(tick, c, run1 + [Start] + [Seed] + run4, s4, [Start], s5);
    run, s := run1 + [Start] + [Seed] + run4 + [Start], s5;
  }

  /** Starting the head ticket and holding it there. */
  lemma HoldFirst<C(!new)>(tick: Tick<C>, good: C -> bool, s: State<C>) returns (s': State<C>)
    requires Ready(tick, good, s, {}) && tick.Inv(s) && s.next < |s.log| && tick.workers >= 2
    ensures tick.Legal(s, [Start]) && tick.After(s, [Start]) == s' && tick.Shape(s) && tick.Shape(s')
    ensures tick.Inv(s') && Ready(tick, good, s', {s.next}) && s'.seeded == s.seeded && s'.log == s.log
    ensures s'.stages == s.stages[s.next := Executing]
  {
    s' := StartTicket(tick, good, s, {});
    WorkKeepsInv(tick, s, [Start]);
    assert {} + {s.next} == {s.next};
  }

  /** Tickets in execution never outnumber the workers. */
  lemma {:induction false} Capacity<C(!new)>(tick: Tick<C>, s: State<C>, run: seq<Action>)
    requires tick.graph.WellFormed() && tick.Shape(s) && tick.Legal(s, run)
    requires s.next <= s.completed + tick.workers
    ensures tick.After(s, run).next <= tick.After(s, run).completed + tick.workers
    decreases run
  {
    if run != [] {
      Capacity(tick, tick.Apply(s, run[0]), run[1..]);
    }
  }

  /** A single worker never has two tickets in execution. */
  lemma OneWorkerAlone<C(!new)>(tick: Tick<C>, c: C, run: seq<Action>, t: nat, u: nat)
    requires tick.graph.WellFormed() && tick.workers < 2 && tick.Legal(tick.Init(c), run)
    requires tick.InStage(tick.After(tick.Init(c), run), t, Executing)
    requires tick.InStage(tick.After(tick.Init(c), run), u, Executing)
    ensures t == u
  {
    Capacity(tick, tick.Init(c), run);
    tick.ReachableSound(c, run);
    hide Tick.Sound;
    if t != u {
      TwoUndone(tick, tick.After(tick.Init(c), run), t, u);
    }
  }

  lemma TwoUndone<C(!new)>(tick: Tick<C>, s: State<C>, t: nat, u: nat)
    requires tick.graph.WellFormed() && tick.Sound(s) && t != u
    requires tick.InStage(s, t, Executing) && tick.InStage(s, u, Executing)
    ensures s.completed + 2 <= s.next
  {
    var taken := Below(s.next);
    assert {t, u} <= taken && tick.DoneTickets(s) <= taken - {t, u};
    SubsetCardinality(tick.DoneTickets(s), taken - {t, u});
  }

  /** No two tickets of one system are in execution at the same time. */
  ghost predicate NeverItself<C(!new)>(tick: Tick<C>, s: State<C>)
    requires tick.Shape(s)
  {
    forall t: nat, u: nat | tick.InStage(s, t, Executing) && tick.InStage(s, u, Executing) && t != u ::
      s.log[t] != s.log[u]
  }

  /** No system overlaps itself, in all interleavings, exactly when the graph is seed-safe or one worker does it all. */
  lemma NeverItselfIff<C(!new)>(tick: Tick<C>, good: C -> bool, c: C)
    requires Runnable(tick, good) && tick.rule.Live? && good(c)
    ensures tick.graph.SeedSafe() || tick.workers < 2 <==>
            forall run | tick.Legal(tick.Init(c), run) :: NeverItself(tick, tick.After(tick.Init(c), run))
  {
    if tick.graph.SeedSafe() || tick.workers < 2 {
      forall run | tick.Legal(tick.Init(c), run) ensures NeverItself(tick, tick.After(tick.Init(c), run)) {
        var s := tick.After(tick.Init(c), run);
        if tick.graph.SeedSafe() {
          tick.ReachableGood(c, run);
        } else {
          forall t: nat, u: nat | tick.InStage(s, t, Executing) && tick.InStage(s, u, Executing) ensures t == u {
            OneWorkerAlone(tick, c, run, t, u);
          }
        }
      }
    } else {
      var j := SomeReleased(tick.graph);
      var run, s, t, u := OverlapsItself(tick, good, c, j);
      assert tick.Legal(tick.Init(c), run) && !NeverItself(tick, tick.After(tick.Init(c), run));
    }
  }

  // ------------------------------------------------------------------ what a second dispatch does to the wait

  /**
   The wait can end early: a graph that is not seed-safe has an interleaving in which the loop is through
   and N completions are counted, so that the tick returns, while a dispatched ticket is still to run.
   */
  lemma EarlyReturn<C(!new)>(tick: Tick<C>, good: C -> bool, c: C) returns (run: seq<Action>, s: State<C>)
    requires Runnable(tick, good) && tick.rule.Live? && good(c) && !tick.graph.SeedSafe()
    ensures Reaches(tick, c, run, s) && Ready(tick, good, s, {})
    ensures s.seeded == tick.N() && s.completed == tick.N() && s.next < |s.log|
  {
    var j := SomeReleased(tick.graph);
    var run1, s1 := UnsafeGraphDispatchesTwice(tick, good, c, j);
    var run2, s2 := SeedRest(tick, s1);
    SeedKeepsReady(tick, good, s1, s2, {});
    var run3, s3 := RunUntil(tick, good, s2, {}, tick.N());
    StillReady(tick, good, {}, s2, run3, s3);
    StillRepeats(s1.log, s2.log);
    StillRepeats(s2.log, s3.log);
    IdleCount(tick, s3, {});
    if s3.next == |s3.log| {
      tick.AllDispatched(s3);
    }
    hide Tick.Sound, Distinct, Ready, Ran, Idle;
    ReachesThen(tick, c, run1, s1, run2, s2);
    ReachesThen(tick, c, run1 + run2, s2, run3, s3);
    run, s := run1 + run2 + run3, s3;
  }

  lemma StillRepeats(a: seq<nat>, b: seq<nat>)
    requires !Distinct(a) && a <= b
    ensures !Distinct(b)
  {
    var k, l :| 0 <= k < l < |a| && a[k] == a[l];
    assert b[k] == b[l];
  }

  /**
   The wait can never end: such a graph also has an interleaving that counts N + 1 completions before the
   ticking thread tests the counter, and from then on no test ever finds N.
   */
  lemma MissedReturn<C(!new)>(tick: Tick<C>, good: C -> bool, c: C) returns (run: seq<Action>, s: State<C>)
    requires Runnable(tick, good) && tick.rule.Live? && good(c) && !tick.graph.SeedSafe()
    ensures Reaches(tick, c, run, s) && tick.Shape(s)
    ensures s.seeded == tick.N() && s.completed == tick.N() + 1
    ensures forall more | tick.Legal(s, more) :: tick.After(s, more).completed != tick.N()
  {
    var run1, s1 := EarlyReturn(tick, good, c);
    var run2, s2 := RunTicket(tick, good, s1, {});
    IdleCount(tick, s1, {});
    IdleCount(tick, s2, {});
    forall more | tick.Legal(s2, more) ensures tick.After(s2, more).completed != tick.N() {
      tick.RunSound(s2, more);
    }
    hide Tick.Sound, Ready, Ran, Idle;
    ReachesThen(tick, c, run1, s1, run2, s2);
    run, s := run1 + run2, s2;
  }

  /** When the graph is seed-safe no more than N completions are ever counted. */
  lemma SafeCount<C(!new)>(tick: Tick<C>, c: C, run: seq<Action>)
    requires tick.graph.WellFormed() && tick.graph.SeedSafe() && tick.Legal(tick.Init(c), run)
    ensures tick.After(tick.Init(c), run).completed <= tick.N()
  {
    var s := tick.After(tick.Init(c), run);
    tick.ReachableGood(c, run);
    tick.InvSound(s);
    tick.CompletedCount(s);
    DistinctBelow(s.log, tick.N());
    hide Tick.Sound;
  }

  lemma AllDoneAtEnd<C(!new)>(tick: Tick<C>, s: State<C>)
    requires tick.graph.WellFormed() && tick.Good(s)
    ensures s.completed == tick.N() ==> forall t | 0 <= t < |s.log| :: s.stages[t] == Done
  {
    if s.completed == tick.N() {
      tick.CompletedMeansAllOnce(s);
    }
  }

  /** When the graph is seed-safe the wait ends exactly with the last system, in every interleaving. */
  lemma SafeReturn<C(!new)>(tick: Tick<C>, c: C, run: seq<Action>)
    requires tick.graph.WellFormed() && tick.graph.SeedSafe() && tick.Legal(tick.Init(c), run)
    ensures var s := tick.After(tick.Init(c), run);
            && s.completed <= tick.N()
            && (s.completed == tick.N() ==> forall t | 0 <= t < |s.log| :: s.stages[t] == Done)
  {
    SafeCount(tick, c, run);
    tick.ReachableGood(c, run);
    hide Tick.Good, Tick.Legal;
    AllDoneAtEnd(tick, tick.After(tick.Init(c), run));
  }

  /**
   The tick's wait is right, ending only when every dispatched ticket is done, in all interleavings exactly
   when the graph is seed-safe.
   */
  lemma WaitRightIffSeedSafe<C(!new)>(tick: Tick<C>, good: C -> bool, c: C)
    requires Runnable(tick, good) && tick.rule.Live? && good(c)
    ensures tick.graph.SeedSafe() <==>
            forall run | tick.Legal(tick.Init(c), run) :: EndsRight(tick, tick.After(tick.Init(c), run))
  {
    if tick.graph.SeedSafe() {
      forall run | tick.Legal(tick.Init(c), run) ensures EndsRight(tick, tick.After(tick.Init(c), run)) {
        SafeReturn(tick, c, run);
      }
    } else {
      var run, s := EarlyReturn(tick, good, c);
      assert s.stages[s.next] == Queued;
      assert tick.Legal(tick.Init(c), run) && !EndsRight(tick, tick.After(tick.Init(c), run));
    }
  }

  /** If the seed loop is through and the waiter finds N completions, every dispatched ticket is done. */
  ghost predicate EndsRight<C(!new)>(tick: Tick<C>, s: State<C>) {
    s.seeded == tick.N() && s.completed == tick.N() ==> forall t | 0 <= t < |s.stages| :: s.stages[t] == Done
  }
}
