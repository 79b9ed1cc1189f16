/**
 Constructing runs of the pool: executing one ticket after the other, the seed loop standing still, while
 some tickets are held back in execution.
 */
module TicketRuns {
  import opened Counting
  import opened Dispatch
  import opened HazardGraph

  ghost function Iterate<C(!new)>(m: Machine<C>, i: nat, c: C, k: nat): C {
    if k == 0 then c else Iterate(m, i, m.step(i, c), k - 1)
  }

  ghost predicate Halts<C(!new)>(m: Machine<C>, i: nat, c: C) {
    exists k: nat :: m.halted(i, Iterate(m, i, c, k))
  }

  /** Each of the n systems halts from every good configuration, and starts and steps from good to good ones. */
  ghost predicate Terminating<C(!new)>(m: Machine<C>, n: nat, good: C -> bool) {
    forall i: nat, c: C | i < n && good(c) :: Halts(m, i, c) && good(m.start(i, c)) && good(m.step(i, c))
  }

  /** System i, started in c and left alone, halts in c'. */
  ghost predicate Executes<C(!new)>(m: Machine<C>, i: nat, c: C, c': C) {
    m.halted(i, c') && exists k: nat :: c' == Iterate(m, i, m.start(i, c), k)
  }

  /** The systems of tickets a to b, executed one after the other, lead from c to c'. */
  ghost predicate Ran<C(!new)>(m: Machine<C>, log: seq<nat>, a: nat, b: nat, c: C, c': C)
    requires a <= b <= |log|
    decreases b - a
  {
    if a == b then c' == c
    else exists mid: C :: Executes(m, log[a], c, mid) && Ran(m, log, a + 1, b, mid, c')
  }

  /** Stretches of tickets join, in a log that may have grown. */
  lemma {:induction false} RanJoin<C(!new)>(
    m: Machine<C>, log: seq<nat>, log': seq<nat>, a: nat, b: nat, d: nat, c: C, mid: C, c': C)
    requires a <= b <= |log| && log <= log' && b <= d <= |log'|
    requires Ran(m, log, a, b, c, mid) && Ran(m, log', b, d, mid, c')
    ensures Ran(m, log', a, d, c, c')
    decreases b - a
  {
    hide Executes;
    if a < b {
      var next: C :| Executes(m, log[a], c, next) && Ran(m, log, a + 1, b, next, mid);
      RanJoin(m, log, log', a + 1, b, d, next, mid, c');
      assert Executes(m, log'[a], c, next) && Ran(m, log', a + 1, d, next, c');
    }
  }

  lemma RanOne<C(!new)>(m: Machine<C>, log: seq<nat>, a: nat, c: C, c': C)
    requires a < |log| && Executes(m, log[a], c, c')
    ensures Ran(m, log, a, a + 1, c, c')
  {
    assert Ran(m, log, a + 1, a + 1, c', c');
  }

  /** What the constructions below need of a tick. */
  ghost predicate Runnable<C(!new)>(tick: Tick<C>, good: C -> bool) {
    tick.graph.WellFormed() && tick.workers > 0 && Terminating(tick.machine, tick.N(), good)
  }

  /** run leads from s to s' by work of the pool alone. */
  ghost predicate Leads<C(!new)>(tick: Tick<C>, good: C -> bool, s: State<C>, run: seq<Action>, s': State<C>)
    requires tick.graph.WellFormed()
  {
    && tick.Shape(s) && tick.Shape(s')
    && tick.Sound(s) && good(s.config) && tick.Legal(s, run) && tick.After(s, run) == s'
    && tick.Sound(s') && good(s'.config) && s'.seeded == s.seeded && s.log <= s'.log
    && NoSeed(run)
  }

  ghost predicate NoSeed(run: seq<Action>) {
    forall k | 0 <= k < |run| :: !run[k].Seed?
  }

  lemma One<C(!new)>(tick: Tick<C>, good: C -> bool, s: State<C>, a: Action) returns (s': State<C>)
    requires Runnable(tick, good) && tick.Sound(s) && good(s.config) && tick.Enabled(s, a) && !a.Seed?
    ensures s' == tick.Apply(s, a) && Leads(tick, good, s, [a], s')
  {
    s' := tick.Apply(s, a);
    tick.StepSound(s, a);
    OneGood(tick, good, s, a);
    tick.Single(s, a);
  }

  lemma OneGood<C(!new)>(tick: Tick<C>, good: C -> bool, s: State<C>, a: Action)
    requires Runnable(tick, good) && tick.Shape(s) && good(s.config) && tick.Enabled(s, a)
    ensures good(tick.Apply(s, a).config)
  {
    if a.Exec? {
      assert Halts(tick.machine, s.log[a.t], s.config);
    } else if a.Start? {
      assert Halts(tick.machine, s.log[s.next], s.config);
    }
  }

  lemma Chain<C(!new)>(tick: Tick<C>, good: C -> bool, s: State<C>, a: seq<Action>, m: State<C>,
                       b: seq<Action>, s': State<C>)
    requires tick.graph.WellFormed() && Leads(tick, good, s, a, m) && Leads(tick, good, m, b, s')
    ensures Leads(tick, good, s, a + b, s')
  {
    hide Tick.Sound;
    tick.Append(s, a, b);
    hide Tick.Legal, Tick.After;
  }

  /** Every ticket taken is done, but for those held back. */
  ghost predicate Idle<C(!new)>(s: State<C>, held: set<nat>) {
    && s.next <= |s.stages|
    && (forall t: nat | t < s.next && t !in held :: s.stages[t] == Done)
    && (forall t | t in held :: t < s.next && s.stages[t] != Done)
  }

  lemma IdleCount<C(!new)>(tick: Tick<C>, s: State<C>, held: set<nat>)
    requires tick.graph.WellFormed() && tick.Sound(s) && Idle(s, held)
    ensures s.completed + |held| == s.next <= |s.log|
  {
    assert tick.DoneTickets(s) == Below(s.next) - held;
    assert held <= Below(s.next);
  }

  /** A ticket in execution can be run until its system halts. */
  lemma {:induction false} RunToHalt<C(!new)>(tick: Tick<C>, good: C -> bool, s: State<C>, t: nat, k: nat)
    returns (run: seq<Action>, s': State<C>)
    requires Runnable(tick, good) && tick.Sound(s) && good(s.config) && tick.InStage(s, t, Executing)
    requires tick.machine.halted(s.log[t], Iterate(tick.machine, s.log[t], s.config, k))
    ensures Leads(tick, good, s, run, s') && s'.stages == s.stages && s'.log == s.log && s'.next == s.next
    ensures tick.machine.halted(s.log[t], s'.config)
    ensures exists l: nat :: s'.config == Iterate(tick.machine, s.log[t], s.config, l)
    decreases k
  {
    assert tick.Shape(s);
    hide Tick.Sound;
    if tick.machine.halted(s.log[t], s.config) {
      run, s' := [], s;
      assert s'.config == Iterate(tick.machine, s.log[t], s.config, 0);
    } else {
      var m := One(tick, good, s, Exec(t));
      var rest;
      rest, s' := RunToHalt(tick, good, m, t, k - 1);
      var l: nat :| s'.config == Iterate(tick.machine, s.log[t], m.config, l);
      assert s'.config == Iterate(tick.machine, s.log[t], s.config, l + 1);
      run := [Exec(t)] + rest;
      Chain(tick, good, s, [Exec(t)], m, rest, s');
    }
  }

  /** A ticket can decrement all its dependents and be counted. */
  lemma {:induction false} DropAll<C(!new)>(tick: Tick<C>, good: C -> bool, s: State<C>, t: nat)
    returns (run: seq<Action>, s': State<C>)
    requires Runnable(tick, good) && tick.Sound(s) && good(s.config) && t < |s.log| && s.stages[t].Dropping?
    ensures Leads(tick, good, s, run, s') && s'.next == s.next && s'.stages[t] == Done && s'.config == s.config
    ensures forall u: nat | u < |s.log| && u != t :: s'.stages[u] == s.stages[u]
    decreases |tick.graph.dependents[s.log[t]]| - s.stages[t].k
  {
    assert tick.Shape(s);
    var a := if s.stages[t].k == |tick.graph.dependents[s.log[t]]| then Count(t) else Drop(t);
    assert tick.Enabled(s, a);
    hide Tick.Sound, Graph.WellFormed;
    var m := One(tick, good, s, a);
    if a.Count? {
      run, s' := [a], m;
    } else {
      var rest;
      rest, s' := DropAll(tick, good, m, t);
      run := [a] + rest;
      Chain(tick, good, s, [a], m, rest, s');
    }
  }

  /** A ticket in execution can be brought to its end, whatever the others do. */
  lemma FinishTicket<C(!new)>(tick: Tick<C>, good: C -> bool, s: State<C>, t: nat)
    returns (run: seq<Action>, s': State<C>)
    requires Runnable(tick, good) && tick.Sound(s) && good(s.config) && tick.InStage(s, t, Executing)
    ensures Leads(tick, good, s, run, s') && s'.next == s.next && s'.stages[t] == Done
    ensures forall u: nat | u < |s.log| && u != t :: s'.stages[u] == s.stages[u]
    ensures tick.machine.halted(s.log[t], s'.config)
    ensures exists l: nat :: s'.config == Iterate(tick.machine, s.log[t], s.config, l)
  {
    assert Halts(tick.machine, s.log[t], s.config);
    var k: nat :| tick.machine.halted(s.log[t], Iterate(tick.machine, s.log[t], s.config, k));
    hide Tick.Sound, Iterate, Halts;
    var run2, s2 := RunToHalt(tick, good, s, t, k);
    var s3 := One(tick, good, s2, Finish(t));
    var run4, s4 := DropAll(tick, good, s3, t);
    Chain(tick, good, s, run2, s2, [Finish(t)], s3);
    Chain(tick, good, s, run2 + [Finish(t)], s3, run4, s4);
    run, s' := run2 + [Finish(t)] + run4, s4;
  }

  /** Some worker is free: every ticket taken is done, but for fewer held back than there are workers. */
  ghost predicate Ready<C(!new)>(tick: Tick<C>, good: C -> bool, s: State<C>, held: set<nat>) {
    && Runnable(tick, good) && tick.Sound(s) && good(s.config)
    && Idle(s, held) && |held| < tick.workers
  }

  /** run took the tickets up to those of s' and executed them one after the other, leaving the held ones alone. */
  ghost predicate Worked<C(!new)>(
    tick: Tick<C>, good: C -> bool, held: set<nat>, s: State<C>, run: seq<Action>, s': State<C>)
    requires tick.graph.WellFormed()
  {
    && Leads(tick, good, s, run, s') && Idle(s, held) && Idle(s', held)
    && (forall t | t in held :: s'.stages[t] == s.stages[t])
    && s.next <= s'.next && Ran(tick.machine, s'.log, s.next, s'.next, s.config, s'.config)
  }

  lemma WorkedNothing<C(!new)>(tick: Tick<C>, good: C -> bool, s: State<C>, held: set<nat>)
    requires Ready(tick, good, s, held)
    ensures Worked(tick, good, held, s, [], s)
  {
  }

  lemma WorkedChain<C(!new)>(
    tick: Tick<C>, good: C -> bool, held: set<nat>, s: State<C>, a: seq<Action>, m: State<C>,
    b: seq<Action>, s': State<C>)
    requires tick.graph.WellFormed()
    requires Worked(tick, good, held, s, a, m) && Worked(tick, good, held, m, b, s')
    ensures Worked(tick, good, held, s, a + b, s')
  {
    Chain(tick, good, s, a, m, b, s');
    RanJoin(tick.machine, m.log, s'.log, s.next, m.next, s'.next, s.config, m.config, s'.config);
    hide Tick.Sound, Ran, Tick.Legal, Tick.After, NoSeed;
  }

  lemma StillReady<C(!new)>(
    tick: Tick<C>, good: C -> bool, held: set<nat>, s: State<C>, run: seq<Action>, s': State<C>)
    requires Ready(tick, good, s, held) && Worked(tick, good, held, s, run, s')
    ensures Ready(tick, good, s', held)
  {
    hide Tick.Sound, Ran, Tick.Legal, Tick.After, NoSeed;
  }

  /** The worker that takes a ticket starts its system. */
  lemma StartTicket<C(!new)>(tick: Tick<C>, good: C -> bool, s: State<C>, held: set<nat>) returns (s': State<C>)
    requires Ready(tick, good, s, held) && s.next < |s.log|
    ensures Leads(tick, good, s, [Start], s') && Idle(s', held + {s.next}) && s.next !in held
    ensures s'.log == s.log && s'.next == s.next + 1 && s'.stages == s.stages[s.next := Executing]
    ensures s'.config == tick.machine.start(s.log[s.next], s.config)
  {
    IdleCount(tick, s, held);
    s' := One(tick, good, s, Start);
  }

  /** The ticket at the head of the queue can be run to its end by one worker, while others hold theirs. */
  lemma RunTicket<C(!new)>(tick: Tick<C>, good: C -> bool, s: State<C>, held: set<nat>)
    returns (run: seq<Action>, s': State<C>)
    requires Ready(tick, good, s, held) && s.next < |s.log|
    ensures Worked(tick, good, held, s, run, s') && s'.next == s.next + 1
  {
    var s1 := StartTicket(tick, good, s, held);
    var run2, s2 := FinishTicket(tick, good, s1, s.next);
    hide Tick.Sound, Iterate, Tick.Legal, Tick.After, NoSeed;
    Chain(tick, good, s, [Start], s1, run2, s2);
    run, s' := [Start] + run2, s2;
    RanOne(tick.machine, s'.log, s.next, s.config, s'.config);
    hide Executes, Ran;
    StagesKept(s, s1, s', held);
  }

  lemma StagesKept<C(!new)>(s: State<C>, s1: State<C>, s': State<C>, held: set<nat>)
    requires Idle(s, held) && s.next < |s.stages| && s1.stages == s.stages[s.next := Executing]
    requires s'.next == s.next + 1 && |s1.stages| <= |s'.stages| && s'.stages[s.next] == Done
    requires forall u: nat | u < |s1.stages| && u != s.next :: s'.stages[u] == s1.stages[u]
    ensures Idle(s', held) && forall t | t in held :: s'.stages[t] == s.stages[t]
  {
  }

  /** Tickets can be run one by one until a number of them is taken or none is left. */
  lemma {:induction false} RunUntil<C(!new)>(
    tick: Tick<C>, good: C -> bool, s: State<C>, held: set<nat>, target: nat)
    returns (run: seq<Action>, s': State<C>)
    requires Ready(tick, good, s, held) && s.next <= target
    ensures Worked(tick, good, held, s, run, s') && s'.next <= target
    ensures s'.next == target || s'.next == |s'.log|
    decreases target - s.next
  {
    WorkedNothing(tick, good, s, held);
    IdleCount(tick, s, held);
    hide Ready, Worked;
    if s.next == |s.log| || s.next == target {
      run, s' := [], s;
    } else {
      var first, m := RunTicket(tick, good, s, held);
      StillReady(tick, good, held, s, first, m);
      var rest;
      rest, s' := RunUntil(tick, good, m, held, target);
      WorkedChain(tick, good, held, s, first, m, rest, s');
      run := first + rest;
    }
  }

  lemma {:induction false} WorkKeepsInv<C(!new)>(tick: Tick<C>, s: State<C>, run: seq<Action>)
    requires tick.graph.WellFormed() && tick.Inv(s) && tick.Legal(s, run) && NoSeed(run)
    ensures tick.Inv(tick.After(s, run))
    decreases run
  {
    if run != [] {
      assert !run[0].Seed? && forall k | 0 <= k < |run| - 1 :: run[1..][k] == run[k + 1];
      tick.StepInv(s, run[0]);
      WorkKeepsInv(tick, tick.Apply(s, run[0]), run[1..]);
    }
  }

  /** Before any worker moves, the loop can seed everything registered before p. */
  lemma {:induction false} SeedUpTo<C(!new)>(tick: Tick<C>, c: C, p: nat) returns (run: seq<Action>, s: State<C>)
    requires tick.graph.WellFormed() && p <= tick.N()
    ensures tick.Legal(tick.Init(c), run) && tick.After(tick.Init(c), run) == s
    ensures tick.Inv(s) && s.seeded == p && s.next == 0 && s.config == c
    ensures forall j: nat | j < tick.N() :: s.counters[j] == tick.graph.InDegree(j)
  {
    if p == 0 {
      tick.InitInv(c);
      run, s := [], tick.Init(c);
    } else {
      var before, m := SeedUpTo(tick, c, p - 1);
      tick.SeedInv(m);
      s := tick.Apply(m, Seed);
      tick.Single(m, Seed);
      hide Tick.Inv;
      tick.Append(tick.Init(c), before, [Seed]);
      run := before + [Seed];
    }
  }

  /** The loop can finish seeding while the workers stand still. */
  lemma {:induction false} SeedRest<C(!new)>(tick: Tick<C>, s: State<C>) returns (run: seq<Action>, s': State<C>)
    requires tick.graph.WellFormed() && tick.Sound(s)
    ensures tick.Legal(s, run) && tick.After(s, run) == s' && tick.Sound(s') && s'.seeded == tick.N()
    ensures s.log <= s'.log && s.stages <= s'.stages && s'.next == s.next && s'.config == s.config
    decreases tick.N() - s.seeded
  {
    if s.seeded == tick.N() {
      run, s' := [], s;
    } else {
      tick.SeedSound(s);
      hide Tick.Sound;
      var m := tick.Apply(s, Seed);
      var rest;
      rest, s' := SeedRest(tick, m);
      run := [Seed] + rest;
      assert run[0] == Seed && run[1..] == rest;
    }
  }

  lemma SeedKeepsReady<C(!new)>(tick: Tick<C>, good: C -> bool, s: State<C>, s': State<C>, held: set<nat>)
    requires Ready(tick, good, s, held) && tick.Sound(s')
    requires s.stages <= s'.stages && s'.config == s.config && s'.next == s.next
    ensures Ready(tick, good, s', held)
  {
    hide Tick.Sound;
  }

  /** A waiting system that fires is still to be taken: the pool has not run dry. */
  lemma HeadExists<C(!new)>(tick: Tick<C>, s: State<C>, j: nat)
    requires tick.graph.WellFormed() && tick.Inv(s) && tick.Sound(s) && Idle(s, {})
    requires j < tick.N() && tick.graph.Fires(s.seeded, j) && j !in s.log[..s.next]
    ensures s.next < |s.log| <= tick.N()
  {
    IdleCount(tick, s, {});
    DistinctBelow(s.log, tick.N());
    hide Graph.Fires;
    assert s.next == |s.log| ==> s.log[..s.next] == s.log;
    if s.next == |s.log| {
      tick.QuiescentDispatched(s, j);
    }
  }

  lemma WorkedInv<C(!new)>(tick: Tick<C>, good: C -> bool, s: State<C>, run: seq<Action>, s': State<C>)
    requires tick.graph.WellFormed() && tick.Inv(s) && Worked(tick, good, {}, s, run, s') && s'.next == s.next + 1
    ensures tick.Inv(s') && s.next < |s'.log| && s.log <= s'.log && s'.next <= |s'.log|
    ensures s'.seeded == s.seeded
  {
    WorkKeepsInv(tick, s, run);
    hide Tick.Sound, Tick.Inv, Ran, Tick.Legal, Tick.After, NoSeed;
  }

  lemma StillToCome<C(!new)>(s: State<C>, m: State<C>, j: nat)
    requires s.next < |s.log| && s.log <= m.log && m.next == s.next + 1
    requires j !in s.log[..s.next] && s.log[s.next] != j
    ensures j !in m.log[..m.next]
  {
    assert m.log[..m.next] == s.log[..s.next] + [s.log[s.next]];
  }

  /** With the loop standing still, workers can bring a waiting system that fires to the head of the queue. */
  lemma {:induction false} RunToSystem<C(!new)>(tick: Tick<C>, good: C -> bool, s: State<C>, j: nat)
    returns (run: seq<Action>, s': State<C>)
    requires Ready(tick, good, s, {}) && tick.Inv(s)
    requires j < tick.N() && tick.graph.Fires(s.seeded, j) && j !in s.log[..s.next]
    ensures Worked(tick, good, {}, s, run, s') && tick.Inv(s') && s'.next < |s'.log| && s'.log[s'.next] == j
    decreases tick.N() - s.next
  {
    HeadExists(tick, s, j);
    WorkedNothing(tick, good, s, {});
    assert tick.graph.WellFormed();
    hide Tick.Inv, Ready, Worked, Graph.Fires, Graph.WellFormed;
    if s.log[s.next] == j {
      run, s' := [], s;
    } else {
      var first, m := RunTicket(tick, good, s, {});
      StillReady(tick, good, {}, s, first, m);
      WorkedInv(tick, good, s, first, m);
      StillToCome(s, m, j);
      var rest;
      rest, s' := RunToSystem(tick, good, m, j);
      WorkedChain(tick, good, {}, s, first, m, rest, s');
      run := first + rest;
    }
  }

  // ------------------------------------------------------------------ running a tick to its end

  lemma DoneGrows<C(!new)>(tick: Tick<C>, s: State<C>, s': State<C>, t: nat)
    requires tick.graph.WellFormed() && tick.Sound(s) && tick.Sound(s') && |s.stages| <= |s'.stages|
    requires t < |s.stages| && s.stages[t] != Done && s'.stages[t] == Done
    requires forall u: nat | u < |s.stages| && u != t :: s'.stages[u] == s.stages[u]
    ensures s.completed < s'.completed
  {
    DoneMore(tick, s, s', t);
    hide Tick.DoneTickets;
  }

  lemma DoneMore<C(!new)>(tick: Tick<C>, s: State<C>, s': State<C>, t: nat)
    requires |s.stages| <= |s'.stages| && t < |s.stages| && s.stages[t] != Done && s'.stages[t] == Done
    requires forall u: nat | u < |s.stages| && u != t :: s'.stages[u] == s.stages[u]
    ensures |tick.DoneTickets(s)| < |tick.DoneTickets(s')|
  {
    assert tick.DoneTickets(s) + {t} <= tick.DoneTickets(s');
    SubsetCardinality(tick.DoneTickets(s) + {t}, tick.DoneTickets(s'));
  }

  /** Every ticket taken can be brought to its end. */
  lemma {:induction false} FinishAll<C(!new)>(tick: Tick<C>, good: C -> bool, s: State<C>)
    returns (run: seq<Action>, s': State<C>)
    requires Runnable(tick, good) && tick.Sound(s) && good(s.config)
    ensures Leads(tick, good, s, run, s') && Idle(s', {})
    decreases s.next - s.completed
  {
    tick.CompletedCount(s);
    if t: nat :| t < s.next && s.stages[t] != Done {
      assert s.stages[t] != Queued && tick.Shape(s);
      hide Tick.Sound;
      var first, m;
      if s.stages[t].Executing? {
        first, m := FinishTicket(tick, good, s, t);
      } else {
        first, m := DropAll(tick, good, s, t);
      }
      DoneGrows(tick, s, m, t);
      var rest;
      tick.CompletedCount(m);
      rest, s' := FinishAll(tick, good, m);
      run := first + rest;
      Chain(tick, good, s, first, m, rest, s');
    } else {
      run, s' := [], s;
    }
  }

  lemma {:induction false} RunGood<C(!new)>(tick: Tick<C>, good: C -> bool, s: State<C>, run: seq<Action>)
    requires Runnable(tick, good) && tick.Shape(s) && good(s.config) && tick.Legal(s, run)
    ensures good(tick.After(s, run).config)
    decreases run
  {
    if run != [] {
      OneGood(tick, good, s, run[0]);
      RunGood(tick, good, tick.Apply(s, run[0]), run[1..]);
    }
  }

  /** A pool that has run dry, with exact seeding over, has counted every system. */
  lemma DryIsComplete<C(!new)>(tick: Tick<C>, s: State<C>)
    requires tick.graph.WellFormed() && tick.Good(s) && Idle(s, {}) && s.seeded == tick.N()
    requires s.next == |s.log| || s.next > tick.N()
    ensures s.completed == tick.N()
  {
    tick.InvSound(s);
    IdleCount(tick, s, {});
    DistinctBelow(s.log, tick.N());
    hide Tick.Inv, Tick.Sound;
    tick.AllDispatched(s);
  }

  /** Under exact seeding, whatever has happened so far, a tick can still come to its end. */
  lemma CanComplete<C(!new)>(tick: Tick<C>, good: C -> bool, s: State<C>) returns (run: seq<Action>)
    requires Runnable(tick, good) && tick.Exact() && tick.Good(s) && good(s.config)
    ensures tick.Legal(s, run) && tick.After(s, run).completed == tick.N()
  {
    tick.InvSound(s);
    var run1, s1 := FinishAll(tick, good, s);
    tick.GoodRun(s, run1);
    var run2, s2 := SeedRest(tick, s1);
    tick.GoodRun(s1, run2);
    WithinBound(tick, s2);
    hide Tick.Good, Tick.Sound, Tick.Exact, Tick.Legal, Tick.After, NoSeed, Ran;
    SeedKeepsReady(tick, good, s1, s2, {});
    var run3, s3 := RunUntil(tick, good, s2, {}, tick.N() + 1);
    tick.GoodRun(s2, run3);
    DryIsComplete(tick, s3);
    tick.Append(s1, run2, run3);
    tick.Append(s, run1, run2 + run3);
    run := run1 + (run2 + run3);
  }

  lemma WithinBound<C(!new)>(tick: Tick<C>, s: State<C>)
    requires tick.graph.WellFormed() && tick.Inv(s)
    ensures s.next <= |s.log| <= tick.N()
  {
    DistinctBelow(s.log, tick.N());
  }
}
