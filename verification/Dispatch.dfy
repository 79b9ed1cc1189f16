/**
 The parallel tick as a transition system. The ticking thread seeds the systems in registration
 order while pool workers take tasks first in, first out, run them, drop the in-degree counters of
 their dependents and submit those that reach zero. Every dispatch is a ticket in the log.
 */
module Dispatch {
  import opened Counting
  import opened HazardGraph

  /** What running one system does to the configuration: it starts afresh, then one micro-step at a time. */
  datatype Machine<!C(!new)> = Machine(start: (nat, C) -> C, step: (nat, C) -> C, halted: (nat, C) -> bool)

  /** The counter the seed loop tests: the live one, as the code does, or the initial in-degree. */
  datatype SeedRule = Live | Initial

  datatype Stage = Queued | Executing | Dropping(k: nat) | Done

  datatype State<C> = State(
    seeded: nat,          // systems the seed loop has looked at
    counters: seq<int>,   // live in-degree counters
    log: seq<nat>,        // every dispatched system, in submission order
    stages: seq<Stage>,   // progress of each ticket
    next: nat,            // head of the pool's queue: the first ticket not yet taken
    completed: nat,
    config: C,
    events: seq<nat>)     // history: the systems that took a micro-step, in order

  datatype Action = Seed | Start | Exec(t: nat) | Finish(t: nat) | Drop(t: nat) | Count(t: nat)

  datatype Tick<!C(!new)> = Tick(graph: Graph, rule: SeedRule, workers: nat, machine: Machine<C>)
  {
    ghost function N(): nat { graph.Size() }

    ghost predicate Shape(s: State<C>) {
      && |s.counters| == N() && |s.stages| == |s.log|
      && (forall t | 0 <= t < |s.log| :: s.log[t] < N())
    }

    ghost function Init(c: C): (s: State<C>)
      requires graph.WellFormed()
      ensures Shape(s)
    {
      State(0, seq(N(), j requires 0 <= j < N() => graph.InDegree(j)), [], [], 0, 0, c, [])
    }

    ghost predicate InStage(s: State<C>, t: nat, stage: Stage) {
      t < |s.stages| && s.stages[t] == stage
    }

    ghost predicate Enabled(s: State<C>, a: Action)
      requires Shape(s)
    {
      match a
      case Seed => s.seeded < N()
      case Start => s.next < |s.log| && s.next - s.completed < workers && s.stages[s.next] == Queued
      case Exec(t) => InStage(s, t, Executing) && !machine.halted(s.log[t], s.config)
      case Finish(t) => InStage(s, t, Executing) && machine.halted(s.log[t], s.config)
      case Drop(t) => t < |s.log| && s.stages[t].Dropping? && s.stages[t].k < |graph.dependents[s.log[t]]|
      case Count(t) => t < |s.log| && s.stages[t].Dropping? && s.stages[t].k == |graph.dependents[s.log[t]]|
    }

    ghost function Dispatched(s: State<C>, j: nat): State<C> {
      s.(log := s.log + [j], stages := s.stages + [Queued])
    }

    ghost function Apply(s: State<C>, a: Action): (s': State<C>)
      requires graph.WellFormed() && Shape(s) && Enabled(s, a)
      ensures Shape(s')
    {
      match a
      case Seed =>
        var tested := if rule.Live? then s.counters[s.seeded] else graph.InDegree(s.seeded);
        var s1 := if tested == 0 then Dispatched(s, s.seeded) else s;
        s1.(seeded := s.seeded + 1)
      case Start =>
        s.(stages := s.stages[s.next := Executing], next := s.next + 1,
           config := machine.start(s.log[s.next], s.config))
      case Exec(t) => s.(config := machine.step(s.log[t], s.config), events := s.events + [s.log[t]])
      case Finish(t) => s.(stages := s.stages[t := Dropping(0)])
      case Drop(t) =>
        var d := graph.dependents[s.log[t]][s.stages[t].k];
        assert graph.Edge(s.log[t], d);
        var s1 := s.(stages := s.stages[t := Dropping(s.stages[t].k + 1)],
                     counters := s.counters[d := s.counters[d] - 1]);
        if s.counters[d] == 1 then Dispatched(s1, d) else s1
      case Count(t) => s.(stages := s.stages[t := Done], completed := s.completed + 1)
    }

    ghost predicate Legal(s: State<C>, run: seq<Action>)
      requires graph.WellFormed() && Shape(s)
      decreases run
    {
      run == [] || (Enabled(s, run[0]) && Legal(Apply(s, run[0]), run[1..]))
    }

    ghost function After(s: State<C>, run: seq<Action>): (s': State<C>)
      requires graph.WellFormed() && Shape(s) && Legal(s, run)
      ensures Shape(s')
      decreases run
    {
      if run == [] then s else After(Apply(s, run[0]), run[1..])
    }

    lemma {:induction false} Append(s: State<C>, a: seq<Action>, b: seq<Action>)
      requires graph.WellFormed() && Shape(s) && Legal(s, a) && Legal(After(s, a), b)
      ensures Legal(s, a + b) && After(s, a + b) == After(After(s, a), b)
      decreases a
    {
      hide Tick.Apply, Tick.Enabled, Graph.WellFormed;
      if a == [] {
        assert a + b == b;
      } else {
        var s1 := Apply(s, a[0]);
        assert Legal(s1, a[1..]) && After(s1, a[1..]) == After(s, a);
        Append(s1, a[1..], b);
        assert (a + b)[0] == a[0] && (a + b)[1..] == a[1..] + b;
      }
    }

    lemma Single(s: State<C>, a: Action)
      requires graph.WellFormed() && Shape(s) && Enabled(s, a)
      ensures Legal(s, [a]) && After(s, [a]) == Apply(s, a)
    {
      assert [a][1..] == [];
      assert Legal(Apply(s, a), []) && After(Apply(s, a), []) == Apply(s, a);
    }

    /**
     A decrement lowers the counter of one dependent by one, and dispatches that dependent exactly when
     the counter stood at one before: not again when it has already reached zero or passed it.
     */
    lemma DropMeaning(s: State<C>, t: nat)
      requires graph.WellFormed() && Shape(s) && Enabled(s, Drop(t))
      ensures var s' := Apply(s, Drop(t));
        var d := graph.dependents[s.log[t]][s.stages[t].k];
        && graph.Edge(s.log[t], d)
        && (forall j: nat | j < N() :: s'.counters[j] == if j == d then s.counters[j] - 1 else s.counters[j])
        && s'.log == s.log + (if s.counters[d] == 1 then [d] else [])
        && s'.stages[t] == Dropping(s.stages[t].k + 1)
        && (forall u: nat | u < |s.log| && u != t :: s'.stages[u] == s.stages[u])
        && (forall u: nat | |s.log| <= u < |s'.log| :: s'.stages[u] == Queued)
        && s' == s.(counters := s'.counters, log := s'.log, stages := s'.stages)
    {
      var d := graph.dependents[s.log[t]][s.stages[t].k];
      assert graph.Edge(s.log[t], d);
    }

    // ---------------------------------------------------------------- the dispatch invariant

    /** Ticket t, of a system that j waits for, has decremented the counter of j. */
    ghost predicate TicketDropped(s: State<C>, t: nat, j: nat)
      requires Shape(s) && t < |s.log|
    {
      match s.stages[t]
      case Done => true
      case Dropping(k) => k <= |graph.dependents[s.log[t]]| && j in graph.dependents[s.log[t]][..k]
      case _ => false
    }

    ghost predicate Dropped(s: State<C>, i: nat, j: nat)
      requires Shape(s)
    {
      exists t: nat :: t < |s.log| && s.log[t] == i && TicketDropped(s, t, j)
    }

    /** The predecessors of j that have still to decrement its counter. */
    ghost function Waiting(s: State<C>, j: nat): set<nat>
      requires Shape(s)
    {
      set i | i in graph.Predecessors(j) && !Dropped(s, i, j)
    }

    ghost function DoneTickets(s: State<C>): set<nat> {
      set t: nat | t < |s.stages| && s.stages[t] == Done
    }

    /** The tickets before the head of the queue have been taken, and no ticket has dropped more than it has to. */
    ghost predicate Orderly(s: State<C>)
      requires Shape(s)
    {
      && s.seeded <= N() && s.next <= |s.log|
      && (forall t: nat | t < |s.log| :: s.stages[t] == Queued <==> t >= s.next)
      && (forall t: nat | t < |s.log| && s.stages[t].Dropping? :: s.stages[t].k <= |graph.dependents[s.log[t]]|)
    }

    /** The counters count the outstanding predecessors, and exactly the seeded roots and the zeros are dispatched. */
    ghost predicate CountersExact(s: State<C>)
      requires Shape(s)
    {
      && (forall j: nat | j < N() :: s.counters[j] == |Waiting(s, j)|)
      && (forall j: nat | j < N() :: j in s.log <==> if graph.Root(j) then j < s.seeded else s.counters[j] == 0)
    }

    ghost predicate Inv(s: State<C>)
      requires graph.WellFormed()
    {
      && Shape(s) && Orderly(s) && Distinct(s.log) && CountersExact(s)
      && s.completed == |DoneTickets(s)|
    }

    lemma OrderlyStep(s: State<C>, a: Action)
      requires graph.WellFormed() && Shape(s) && Orderly(s) && Enabled(s, a)
      ensures Orderly(Apply(s, a))
    {
    }

    lemma InitInv(c: C)
      requires graph.WellFormed()
      ensures Inv(Init(c))
    {
      var s := Init(c);
      forall j: nat | j < N() ensures Waiting(s, j) == graph.Predecessors(j) {
      }
    }

    /** Seeding is sound when the loop dispatches exactly the roots. */
    ghost predicate SeedsRootsOnly(s: State<C>)
      requires Shape(s)
    {
      s.seeded < N() && !graph.Root(s.seeded) && rule.Live? ==> s.counters[s.seeded] != 0
    }

    lemma SameWaiting(s: State<C>, s': State<C>)
      requires Shape(s) && Shape(s') && s.log <= s'.log
      requires forall t: nat, j: nat | t < |s.log| && j in graph.dependents[s.log[t]] ::
        TicketDropped(s, t, j) == TicketDropped(s', t, j)
      requires forall t: nat | |s.log| <= t < |s'.log| :: s'.stages[t] == Queued
      ensures forall j: nat :: Waiting(s', j) == Waiting(s, j)
    {
      forall i: nat, j: nat | i in graph.Predecessors(j)
        ensures Dropped(s, i, j) == Dropped(s', i, j)
      {
        if Dropped(s, i, j) {
          var t: nat :| t < |s.log| && s.log[t] == i && TicketDropped(s, t, j);
          assert s'.log[t] == i && TicketDropped(s', t, j);
        }
        if Dropped(s', i, j) {
          var t: nat :| t < |s'.log| && s'.log[t] == i && TicketDropped(s', t, j);
          assert s.log[t] == i && TicketDropped(s, t, j);
        }
      }
    }

    lemma SeedInv(s: State<C>)
      requires graph.WellFormed() && Inv(s) && Enabled(s, Seed) && SeedsRootsOnly(s)
      ensures Inv(Apply(s, Seed))
    {
      CompletedStep(s, Seed);
      OrderlyStep(s, Seed);
      hide Tick.DoneTickets, Tick.Orderly;
      var s' := Apply(s, Seed);
      SameWaiting(s, s');
      var p := s.seeded;
      if graph.Root(p) {
        assert Waiting(s, p) == {};
        assert s'.log == s.log + [p];
      }
    }

    /** Completions count the tickets that are done. */
    lemma CompletedStep(s: State<C>, a: Action)
      requires graph.WellFormed() && Shape(s) && Enabled(s, a) && s.completed == |DoneTickets(s)|
      ensures Apply(s, a).completed == |DoneTickets(Apply(s, a))|
    {
      if a.Count? {
        assert DoneTickets(Apply(s, a)) == DoneTickets(s) + {a.t};
      } else {
        SameDone(s, a);
      }
    }

    lemma SameDone(s: State<C>, a: Action)
      requires graph.WellFormed() && Shape(s) && Enabled(s, a) && !a.Count?
      ensures DoneTickets(Apply(s, a)) == DoneTickets(s)
    {
      hide Graph.WellFormed;
      var s' := Apply(s, a);
      assert forall t: nat | t < |s.stages| :: s'.stages[t] == Done <==> s.stages[t] == Done;
      assert forall t: nat | |s.stages| <= t < |s'.stages| :: s'.stages[t] != Done;
    }

    lemma StageInv(s: State<C>, a: Action)
      requires graph.WellFormed() && Inv(s) && Enabled(s, a) && !a.Seed? && !a.Drop?
      ensures Inv(Apply(s, a))
    {
      CompletedStep(s, a);
      OrderlyStep(s, a);
      hide Tick.DoneTickets, Tick.Orderly;
      SameWaiting(s, Apply(s, a));
    }

    lemma DropTicket(s: State<C>, t: nat, u: nat, j: nat)
      requires graph.WellFormed() && Shape(s) && Enabled(s, Drop(t)) && u < |s.log|
      ensures TicketDropped(Apply(s, Drop(t)), u, j) ==
              (TicketDropped(s, u, j) || (u == t && j == graph.dependents[s.log[t]][s.stages[t].k]))
    {
      var i, k := s.log[t], s.stages[t].k;
      var d := graph.dependents[i][k];
      assert graph.dependents[i][..k + 1] == graph.dependents[i][..k] + [d];
    }

    lemma DropDropped(s: State<C>, t: nat, x: nat, j: nat)
      requires graph.WellFormed() && Shape(s) && Enabled(s, Drop(t))
      ensures Dropped(Apply(s, Drop(t)), x, j) ==
              (Dropped(s, x, j) || (x == s.log[t] && j == graph.dependents[s.log[t]][s.stages[t].k]))
    {
      var s' := Apply(s, Drop(t));
      forall u: nat | u < |s.log|
        ensures s'.log[u] == s.log[u]
        ensures TicketDropped(s', u, j) ==
                (TicketDropped(s, u, j) || (u == t && j == graph.dependents[s.log[t]][s.stages[t].k]))
      {
        DropTicket(s, t, u, j);
      }
      assert forall u: nat | |s.log| <= u < |s'.log| :: !TicketDropped(s', u, j);
      if x == s.log[t] && j == graph.dependents[s.log[t]][s.stages[t].k] {
        assert s'.log[t] == x && TicketDropped(s', t, j);
      } else if Dropped(s, x, j) {
        var u: nat :| u < |s.log| && s.log[u] == x && TicketDropped(s, u, j);
        assert s'.log[u] == x && TicketDropped(s', u, j);
      }
    }

    /** A decrement takes the finished system, and no other, out of those its dependent waits for. */
    lemma DropLeaves(s: State<C>, t: nat)
      requires graph.WellFormed() && Shape(s) && Enabled(s, Drop(t))
      ensures var i := s.log[t];
              var d := graph.dependents[i][s.stages[t].k];
              forall j: nat :: Waiting(Apply(s, Drop(t)), j) == if j == d then Waiting(s, j) - {i} else Waiting(s, j)
    {
      var i := s.log[t];
      var d := graph.dependents[i][s.stages[t].k];
      var s' := Apply(s, Drop(t));
      forall x: nat, j: nat
        ensures Dropped(s', x, j) == (Dropped(s, x, j) || (x == i && j == d))
      {
        DropDropped(s, t, x, j);
      }
      hide Tick.Dropped, Tick.Apply, Tick.Enabled;
    }

    lemma DropWaiting(s: State<C>, t: nat)
      requires graph.WellFormed() && Inv(s) && Enabled(s, Drop(t))
      ensures var i := s.log[t];
              var d := graph.dependents[i][s.stages[t].k];
              var s' := Apply(s, Drop(t));
              && i in Waiting(s, d)
              && (forall j: nat :: Waiting(s', j) == if j == d then Waiting(s, j) - {i} else Waiting(s, j))
    {
      DropLeaves(s, t);
      var i, k := s.log[t], s.stages[t].k;
      var d := graph.dependents[i][k];
      assert d in graph.dependents[i] && i in graph.Predecessors(d);
    }

    lemma DropInv(s: State<C>, t: nat)
      requires graph.WellFormed() && Inv(s) && Enabled(s, Drop(t))
      ensures Inv(Apply(s, Drop(t)))
    {
      CompletedStep(s, Drop(t));
      OrderlyStep(s, Drop(t));
      DropWaiting(s, t);
      hide Tick.DoneTickets, Tick.Waiting, Tick.Orderly;
      var i := s.log[t];
      var d := graph.dependents[i][s.stages[t].k];
      assert i in graph.Predecessors(d);
    }

    lemma StepInv(s: State<C>, a: Action)
      requires graph.WellFormed() && Inv(s) && Enabled(s, a) && (a.Seed? ==> SeedsRootsOnly(s))
      ensures Inv(Apply(s, a))
    {
      match a
      case Seed => SeedInv(s);
      case Drop(t) => DropInv(s, t);
      case _ => StageInv(s, a);
    }

    // ---------------------------------------------------------------- what every tick keeps, however it seeds

    /** The dispatch invariant without the promise that nothing is dispatched twice. */
    ghost predicate Sound(s: State<C>)
      requires graph.WellFormed()
    {
      && Shape(s) && Orderly(s) && CountersBelow(s) && ZerosDispatched(s)
      && s.completed == |DoneTickets(s)|
    }

    ghost predicate CountersBelow(s: State<C>)
      requires Shape(s)
    {
      forall j: nat | j < N() :: s.counters[j] <= |Waiting(s, j)|
    }

    ghost predicate ZerosDispatched(s: State<C>)
      requires Shape(s)
    {
      && (forall j: nat | j < N() :: if graph.Root(j) then s.counters[j] == 0 else s.counters[j] > 0 || j in s.log)
      && (forall j: nat | j < s.seeded && j < N() && graph.Root(j) :: j in s.log)
    }

    lemma InvSound(s: State<C>)
      requires graph.WellFormed() && Inv(s)
      ensures Sound(s)
    {
      forall j: nat | j < N() && graph.Root(j) ensures s.counters[j] == 0 {
        assert graph.Predecessors(j) == {} && Waiting(s, j) == {};
      }
    }

    lemma SeedSound(s: State<C>)
      requires graph.WellFormed() && Sound(s) && Enabled(s, Seed)
      ensures Sound(Apply(s, Seed))
    {
      CompletedStep(s, Seed);
      OrderlyStep(s, Seed);
      hide Tick.DoneTickets, Tick.Orderly;
      var s' := Apply(s, Seed);
      SameWaiting(s, s');
      if graph.Root(s.seeded) {
        assert s'.log == s.log + [s.seeded];
      }
    }

    lemma StageSound(s: State<C>, a: Action)
      requires graph.WellFormed() && Sound(s) && Enabled(s, a) && !a.Seed? && !a.Drop?
      ensures Sound(Apply(s, a))
    {
      CompletedStep(s, a);
      OrderlyStep(s, a);
      hide Tick.DoneTickets, Tick.Orderly;
      SameWaiting(s, Apply(s, a));
    }

    lemma DropCounters(s: State<C>, t: nat)
      requires graph.WellFormed() && Shape(s) && CountersBelow(s) && Enabled(s, Drop(t))
      ensures CountersBelow(Apply(s, Drop(t)))
    {
      DropLeaves(s, t);
      hide Tick.Waiting, Graph.WellFormed;
    }

    lemma DropZeros(s: State<C>, t: nat)
      requires graph.WellFormed() && Shape(s) && ZerosDispatched(s) && Enabled(s, Drop(t))
      ensures ZerosDispatched(Apply(s, Drop(t)))
    {
      var i := s.log[t];
      var d := graph.dependents[i][s.stages[t].k];
      assert graph.Edge(i, d) && i in graph.Predecessors(d);
    }

    lemma DropSound(s: State<C>, t: nat)
      requires graph.WellFormed() && Sound(s) && Enabled(s, Drop(t))
      ensures Sound(Apply(s, Drop(t)))
    {
      CompletedStep(s, Drop(t));
      OrderlyStep(s, Drop(t));
      DropCounters(s, t);
      DropZeros(s, t);
      hide Tick.DoneTickets, Tick.Orderly, Tick.CountersBelow, Tick.ZerosDispatched;
    }

    /** Whatever the seed loop does, no step breaks what is left of the invariant. */
    lemma StepSound(s: State<C>, a: Action)
      requires graph.WellFormed() && Sound(s) && Enabled(s, a)
      ensures Sound(Apply(s, a))
    {
      match a
      case Seed => SeedSound(s);
      case Drop(t) => DropSound(s, t);
      case _ => StageSound(s, a);
    }

    lemma {:induction false} RunSound(s: State<C>, run: seq<Action>)
      requires graph.WellFormed() && Sound(s) && Legal(s, run)
      ensures Sound(After(s, run)) && s.completed <= After(s, run).completed
      decreases run
    {
      if run != [] {
        StepSound(s, run[0]);
        RunSound(Apply(s, run[0]), run[1..]);
      }
    }

    /** Under either seed rule and every interleaving the weaker invariant holds. */
    lemma ReachableSound(c: C, run: seq<Action>)
      requires graph.WellFormed() && Legal(Init(c), run)
      ensures Sound(After(Init(c), run))
    {
      InitInv(c);
      InvSound(Init(c));
      RunSound(Init(c), run);
    }

    // ---------------------------------------------------------------- reachable states

    /** The seed loop dispatches exactly the roots: by rule, or because the graph allows nothing else. */
    ghost predicate Exact()
      requires graph.WellFormed()
    {
      rule.Initial? || graph.SeedSafe()
    }

    ghost predicate Started(s: State<C>, i: nat)
      requires Shape(s)
    {
      exists t: nat :: t < |s.log| && s.log[t] == i && s.stages[t] != Queued
    }

    /** The micro-steps so far respect every edge: none of i's comes after one of a dependent of i. */
    ghost predicate EventsOrdered(s: State<C>)
      requires Shape(s)
    {
      && (forall y | 0 <= y < |s.events| :: Started(s, s.events[y]))
      && (forall x, y | 0 <= x < y < |s.events| :: !graph.Edge(s.events[y], s.events[x]))
    }

    ghost predicate Good(s: State<C>)
      requires graph.WellFormed()
    {
      && Inv(s)
      && (forall j | j in s.log :: graph.Fires(s.seeded, j))
      && EventsOrdered(s)
    }

    /** A dispatched system's predecessors have all finished running. */
    lemma PredecessorsFinished(s: State<C>, i: nat, j: nat)
      requires graph.WellFormed() && Inv(s) && graph.Edge(i, j) && j in s.log
      ensures exists t: nat :: t < |s.log| && s.log[t] == i && (s.stages[t].Dropping? || s.stages[t].Done?)
    {
      assert i in graph.Predecessors(j);
      assert i !in Waiting(s, j);
    }

    /** Two conflicting systems never run at the same time. */
    lemma NoOverlap(s: State<C>, t: nat, u: nat)
      requires graph.WellFormed() && Inv(s)
      requires InStage(s, t, Executing) && InStage(s, u, Executing)
      ensures !graph.Edge(s.log[t], s.log[u])
    {
      if graph.Edge(s.log[t], s.log[u]) {
        PredecessorsFinished(s, s.log[t], s.log[u]);
      }
    }

    lemma SafeSeed(s: State<C>)
      requires graph.WellFormed() && Exact() && Good(s) && s.seeded < N()
      ensures SeedsRootsOnly(s)
    {
      var p := s.seeded;
      if !graph.Root(p) && rule.Live? && s.counters[p] == 0 {
        assert p in s.log;
        graph.SeedSafeIffNoneFires();
      }
    }

    lemma FiresDrop(s: State<C>, t: nat, j: nat)
      requires graph.WellFormed() && Inv(s) && Enabled(s, Drop(t))
      requires forall i | i in s.log :: graph.Fires(s.seeded, i)
      requires j in Apply(s, Drop(t)).log && j !in s.log
      ensures graph.Fires(s.seeded, j)
    {
      var s' := Apply(s, Drop(t));
      DropWaiting(s, t);
      DropInv(s, t);
      assert s.log[t] in graph.Predecessors(j);
      assert Waiting(s', j) == {};
      forall i | i in graph.Predecessors(j) ensures graph.Fires(s.seeded, i) {
        assert i !in Waiting(s', j);
      }
    }

    lemma FiresStep(s: State<C>, a: Action, j: nat)
      requires graph.WellFormed() && Inv(s) && Enabled(s, a) && (a.Seed? ==> SeedsRootsOnly(s))
      requires forall i | i in s.log :: graph.Fires(s.seeded, i)
      requires j in Apply(s, a).log
      ensures graph.Fires(Apply(s, a).seeded, j)
    {
      if j in s.log {
        graph.FiresMonotone(s.seeded, Apply(s, a).seeded, j);
      } else if a.Drop? {
        FiresDrop(s, a.t, j);
      }
    }

    lemma StillStarted(s: State<C>, a: Action, i: nat)
      requires graph.WellFormed() && Inv(s) && Enabled(s, a) && Started(s, i)
      ensures Started(Apply(s, a), i)
    {
      var t: nat :| t < |s.log| && s.log[t] == i && s.stages[t] != Queued;
      var s' := Apply(s, a);
      assert s'.log[t] == i && s'.stages[t] != Queued;
    }

    lemma EventsStep(s: State<C>, a: Action)
      requires graph.WellFormed() && Inv(s) && Enabled(s, a) && EventsOrdered(s)
      ensures EventsOrdered(Apply(s, a))
    {
      var s' := Apply(s, a);
      forall y | 0 <= y < |s.events| ensures Started(s', s.events[y]) {
        StillStarted(s, a, s.events[y]);
      }
      if a.Exec? {
        ExecBlocksNothing(s, a.t);
        assert s'.log[a.t] == s.log[a.t] && s'.stages[a.t] != Queued;
      }
      hide Inv, Enabled, Graph.WellFormed;
    }

    /** Whatever has taken a micro-step did not have to wait for a system still in execution. */
    lemma ExecBlocksNothing(s: State<C>, t: nat)
      requires graph.WellFormed() && Inv(s) && EventsOrdered(s) && InStage(s, t, Executing)
      ensures forall x | 0 <= x < |s.events| :: !graph.Edge(s.log[t], s.events[x])
    {
      forall x | 0 <= x < |s.events| ensures !graph.Edge(s.log[t], s.events[x]) {
        if graph.Edge(s.log[t], s.events[x]) {
          PredecessorsFinished(s, s.log[t], s.events[x]);
        }
      }
    }

    lemma GoodStep(s: State<C>, a: Action)
      requires graph.WellFormed() && Exact() && Good(s) && Enabled(s, a)
      ensures Good(Apply(s, a))
    {
      if a.Seed? {
        SafeSeed(s);
      }
      StepInv(s, a);
      EventsStep(s, a);
      forall j | j in Apply(s, a).log ensures graph.Fires(Apply(s, a).seeded, j) {
        FiresStep(s, a, j);
      }
    }

    lemma {:induction false} GoodRun(s: State<C>, run: seq<Action>)
      requires graph.WellFormed() && Exact() && Good(s) && Legal(s, run)
      ensures Good(After(s, run))
      decreases run
    {
      if run != [] {
        GoodStep(s, run[0]);
        GoodRun(Apply(s, run[0]), run[1..]);
      }
    }

    /** Whatever the interleaving, a tick whose seeding is exact keeps the dispatch invariant. */
    lemma ReachableGood(c: C, run: seq<Action>)
      requires graph.WellFormed() && Exact() && Legal(Init(c), run)
      ensures Good(After(Init(c), run))
    {
      InitInv(c);
      GoodRun(Init(c), run);
    }

    // ---------------------------------------------------------------- progress and completion

    lemma CompletedCount(s: State<C>)
      requires graph.WellFormed() && Sound(s)
      ensures s.completed <= s.next
      ensures s.completed == s.next <==> forall t: nat | t < s.next :: s.stages[t] == Done
    {
      DonePrefix(s, s.next);
    }

    lemma DonePrefix(s: State<C>, next: nat)
      requires next <= |s.stages| && forall t: nat | next <= t < |s.stages| :: s.stages[t] != Done
      ensures |DoneTickets(s)| <= next
      ensures |DoneTickets(s)| == next <==> forall t: nat | t < next :: s.stages[t] == Done
    {
      assert DoneTickets(s) <= Below(next);
      SubsetCardinality(DoneTickets(s), Below(next));
      if |DoneTickets(s)| == next {
        forall t: nat | t < next ensures s.stages[t] == Done {
          assert t in Below(next) && DoneTickets(s) == Below(next);
        }
      }
      if forall t: nat | t < next :: s.stages[t] == Done {
        assert DoneTickets(s) == Below(next);
      }
    }

    /** All workers idle and nothing queued. */
    ghost predicate Quiescent(s: State<C>) {
      s.next == |s.log| && s.completed == s.next
    }

    /** Once the pool has run dry, everything the seeded roots lead to has been dispatched. */
    lemma {:induction false} QuiescentDispatched(s: State<C>, j: nat)
      requires graph.WellFormed() && Sound(s) && Quiescent(s) && j < N() && graph.Fires(s.seeded, j)
      ensures j in s.log
      decreases graph.rank[j]
    {
      CompletedCount(s);
      if !graph.Root(j) {
        forall i | i in graph.Predecessors(j) ensures Dropped(s, i, j) {
          assert graph.Edge(i, j);
          QuiescentDispatched(s, i);
          var t: nat :| t < |s.log| && s.log[t] == i;
          assert TicketDropped(s, t, j);
        }
        assert Waiting(s, j) == {};
      }
    }

    /** With everything seeded and the pool run dry, every system has been dispatched at least once. */
    lemma AllDispatched(s: State<C>)
      requires graph.WellFormed() && Sound(s) && Quiescent(s) && s.seeded == N()
      ensures forall j: nat | j < N() :: j in s.log
      ensures s.completed >= N()
      ensures s.completed == N() ==> Distinct(s.log)
    {
      forall j: nat | j < N() ensures j in s.log {
        graph.AllFire(j);
        QuiescentDispatched(s, j);
      }
      CoversBelow(s.log, N());
    }

    /** No state before completion is stuck, whichever counter the seed loop tests. */
    lemma Progress(s: State<C>)
      requires graph.WellFormed() && Sound(s) && workers > 0 && s.completed < N()
      ensures exists a :: Enabled(s, a)
    {
      CompletedCount(s);
      if s.seeded < N() {
        assert Enabled(s, Seed);
      } else if t: nat :| t < s.next && s.stages[t] != Done {
        assert Enabled(s, Exec(t)) || Enabled(s, Finish(t)) || Enabled(s, Drop(t)) || Enabled(s, Count(t));
      } else if s.next < |s.log| {
        assert Enabled(s, Start);
      } else {
        AllDispatched(s);
      }
    }

    /** When the last completion is counted, every system has run, once, to its end. */
    lemma CompletedMeansAllOnce(s: State<C>)
      requires graph.WellFormed() && Inv(s) && s.completed == N()
      ensures |s.log| == N() && Distinct(s.log)
      ensures forall i: nat | i < N() :: i in s.log
      ensures forall t | 0 <= t < |s.log| :: s.stages[t] == Done
    {
      InvSound(s);
      CompletedCount(s);
      DistinctBelow(s.log, N());
    }

    /** How far a ticket has come: every action but a micro-step advances the total by one. */
    ghost function StageNumber(s: State<C>, t: nat): nat
      requires Shape(s) && t < |s.log|
    {
      match s.stages[t]
      case Queued => 0
      case Executing => 1
      case Dropping(k) => 2 + k
      case Done => 3 + |graph.dependents[s.log[t]]|
    }

    ghost function Advance(s: State<C>, n: nat): nat
      requires Shape(s) && n <= |s.log|
    {
      if n == 0 then 0 else Advance(s, n - 1) + StageNumber(s, n - 1)
    }

    lemma {:induction false} AdvanceChange(s: State<C>, s': State<C>, t: nat, n: nat)
      requires Shape(s) && Shape(s') && t < |s.log| && n <= |s.log| && s.log <= s'.log
      requires forall u: nat | u < |s.log| && u != t :: s'.stages[u] == s.stages[u]
      ensures Advance(s', n) == Advance(s, n) + if t < n then StageNumber(s', t) - StageNumber(s, t) else 0
    {
      if n > 0 {
        AdvanceChange(s, s', t, n - 1);
      }
    }

    ghost function Work(s: State<C>): nat
      requires Shape(s)
    {
      s.seeded + Advance(s, |s.log|)
    }

    lemma WorkStep(s: State<C>, a: Action)
      requires graph.WellFormed() && Shape(s) && Enabled(s, a)
      ensures Work(Apply(s, a)) == Work(s) + if a.Exec? then 0 else 1
    {
      var s' := Apply(s, a);
      if a.Seed? || a.Exec? {
        SameAdvance(s, s', |s.log|);
      } else {
        AdvanceChange(s, s', if a.Start? then s.next else a.t, |s.log|);
      }
      assert |s'.log| == |s.log| || (|s'.log| == |s.log| + 1 && s'.stages[|s.log|] == Queued);
    }

    lemma {:induction false} SameAdvance(s: State<C>, s': State<C>, n: nat)
      requires Shape(s) && Shape(s') && n <= |s.log| && s.log <= s'.log
      requires forall u: nat | u < |s.log| :: s'.stages[u] == s.stages[u]
      ensures Advance(s', n) == Advance(s, n)
    {
      if n > 0 {
        SameAdvance(s, s', n - 1);
      }
    }

    lemma {:induction false} AdvanceBound(s: State<C>, n: nat)
      requires graph.WellFormed() && Inv(s) && n <= |s.log|
      ensures Advance(s, n) <= n * (N() + 3)
    {
      if n > 0 {
        AdvanceBound(s, n - 1);
        var i := s.log[n - 1];
        DependentsBound(i);
        assert (n - 1) * (N() + 3) + (N() + 3) == n * (N() + 3);
      }
    }

    lemma DependentsBound(i: nat)
      requires graph.WellFormed() && i < N()
      ensures |graph.dependents[i]| <= N()
    {
      var ds := graph.dependents[i];
      forall k | 0 <= k < |ds| ensures ds[k] < N() {
        assert graph.Edge(i, ds[k]);
      }
      DistinctBelow(ds, N());
    }

    ghost function Overhead(run: seq<Action>): nat {
      if run == [] then 0 else (if run[0].Exec? then 0 else 1) + Overhead(run[1..])
    }

    lemma {:induction false} WorkOfRun(s: State<C>, run: seq<Action>)
      requires graph.WellFormed() && Exact() && Good(s) && Legal(s, run)
      ensures Work(After(s, run)) == Work(s) + Overhead(run)
      decreases run
    {
      if run != [] {
        WorkStep(s, run[0]);
        GoodStep(s, run[0]);
        WorkOfRun(Apply(s, run[0]), run[1..]);
      }
    }

    /** Scheduling itself is bounded: besides the systems' own micro-steps a tick takes at most N(N+4) actions. */
    lemma TickTerminates(c: C, run: seq<Action>)
      requires graph.WellFormed() && Exact() && Legal(Init(c), run)
      ensures Overhead(run) <= N() * (N() + 4)
    {
      InitInv(c);
      WorkOfRun(Init(c), run);
      ReachableGood(c, run);
      var s := After(Init(c), run);
      AdvanceBound(s, |s.log|);
      DistinctBelow(s.log, N());
      Quadratic(Overhead(run), s.seeded, |s.log|, N());
    }

    lemma Quadratic(x: nat, a: nat, l: nat, n: nat)
      requires x <= a + l * (n + 3) && a <= n && l <= n
      ensures x <= n * (n + 4)
    {
      assert l * (n + 3) <= n * (n + 3);
    }
  }
}
