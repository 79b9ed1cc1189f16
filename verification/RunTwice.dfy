/**
 What the live seed loop does to the result of a tick: on a graph that is not seed-safe a system that is run
 twice can leave a state that no continuation turns into that of the sequential tick.
 */
module RunTwice {
  import opened HazardGraph
  import opened Scheduler
  import opened Dispatch
  import opened TicketRuns
  import opened DoubleDispatch
  import opened Serialisability
  import opened ParallelTick

  ghost function Tally(s: Store<nat>, x: Location): nat {
    if x in s then s[x] else 0
  }

  /** A system that, each time it is run, adds one at location x, or does nothing. */
  ghost function Probe(descriptor: Descriptor, x: Location, counts: bool): System<bool, nat> {
    System(descriptor, false,
           (l: bool, s: Store<nat>) => (true, if counts then s[x := Tally(s, x) + 1] else s),
           (l: bool) => l)
  }

  /** Systems with the given descriptors of which j alone does anything. */
  ghost function Probes(descriptors: seq<Descriptor>, j: nat, x: Location): (systems: seq<System<bool, nat>>)
    ensures |systems| == |descriptors| && Descriptors(systems) == descriptors
  {
    var systems := seq(|descriptors|, i requires 0 <= i < |descriptors| => Probe(descriptors[i], x, i == j));
    assert Descriptors(systems) == descriptors;
    systems
  }

  lemma ProbeConfined(descriptor: Descriptor, x: Location, counts: bool)
    requires counts ==> x in descriptor.Writes()
    ensures Confined(Probe(descriptor, x, counts))
  {
    var sys := Probe(descriptor, x, counts);
    forall l: bool, s: Store<nat>, s': Store<nat> | Agree(s, s', descriptor.Touches())
      ensures sys.step(l, s).0 == sys.step(l, s').0
      ensures Agree(sys.step(l, s).1, sys.step(l, s').1, descriptor.Writes())
    {
      forall y | y in descriptor.Writes() ensures SameAt(sys.step(l, s).1, sys.step(l, s').1, y) {
        assert SameAt(s, s', y) && (counts ==> SameAt(s, s', x));
      }
    }
  }

  /** Begun and run alone, a probe halts after one step, j with one more counted. */
  lemma RunsAloneTally(descriptors: seq<Descriptor>, j: nat, x: Location, i: nat, c: Config<bool, nat>, k: nat)
    requires i < |descriptors| == |c.locals|
    ensures var systems := Probes(descriptors, j, x);
            var c' := Alone(systems, i, Restarted(systems, i, c), k);
            && (k == 1 ==> Halted(systems, i, c'))
            && (Halted(systems, i, c') ==> Tally(c'.store, x) == Tally(c.store, x) + if i == j then 1 else 0)
  {
    var systems := Probes(descriptors, j, x);
    var begun := Restarted(systems, i, c);
    assert Alone(systems, i, begun, 0) == begun && !Halted(systems, i, begun);
    assert Alone(systems, i, begun, 1) == Step(systems, i, begun);
    assert Halted(systems, i, Alone(systems, i, begun, 1));
    if k > 0 {
      HaltedIsFinal(systems, i, begun, 1, k);
    }
  }

  lemma ProbesFit(descriptors: seq<Descriptor>, j: nat, x: Location)
    requires j < |descriptors| && x in descriptors[j].Writes()
    ensures AllConfined(Probes(descriptors, j, x)) && AlwaysHalts(Probes(descriptors, j, x))
  {
    var systems := Probes(descriptors, j, x);
    forall i | 0 <= i < |systems| ensures Confined(systems[i]) {
      ProbeConfined(descriptors[i], x, i == j);
    }
    forall i: nat, c: Config<bool, nat> | i < |systems| && |c.locals| == |systems| ensures HaltsAlone(systems, i, c) {
      assert Alone(systems, i, c, 1) == Step(systems, i, c);
      assert Halted(systems, i, Alone(systems, i, c, 1));
    }
  }

  /** A log that has j at position b, and before. */
  lemma HeadAgain(log: seq<nat>, log': seq<nat>, b: nat, j: nat)
    requires b < |log| && log <= log' && log[b] == j && j in log[..b]
    ensures Occurrences(log', 0, b + 1, j) >= 2
  {
    var p: nat :| p < b && log[..b][p] == j;
    assert log'[p] == log'[b] == j;
    OccursTwice(log', 0, b + 1, p, b);
  }

  /** How often j stands in log[a..b]. */
  ghost function Occurrences(log: seq<nat>, a: nat, b: nat, j: nat): nat
    requires a <= b <= |log|
    decreases b - a
  {
    if a == b then 0 else (if log[a] == j then 1 else 0) + Occurrences(log, a + 1, b, j)
  }

  lemma {:induction false} OccursTwice(log: seq<nat>, a: nat, b: nat, p: nat, q: nat)
    requires a <= p < q < b <= |log| && log[p] == log[q]
    ensures Occurrences(log, a, b, log[p]) >= 2
    decreases b - a
  {
    if a < p {
      OccursTwice(log, a + 1, b, p, q);
    } else {
      Occurs(log, a + 1, b, q);
    }
  }

  lemma {:induction false} Occurs(log: seq<nat>, a: nat, b: nat, q: nat)
    requires a <= q < b <= |log|
    ensures Occurrences(log, a, b, log[q]) >= 1
    decreases b - a
  {
    if a < q {
      Occurs(log, a + 1, b, q);
    }
  }

  lemma ExecutesTally(
    descriptors: seq<Descriptor>, j: nat, x: Location, i: nat, c: Config<bool, nat>, c': Config<bool, nat>)
    requires i < |descriptors| == |c.locals| && Executes(MachineOf(Probes(descriptors, j, x)), i, c, c')
    ensures |c'.locals| == |c.locals|
    ensures Tally(c'.store, x) == Tally(c.store, x) + if i == j then 1 else 0
  {
    var systems := Probes(descriptors, j, x);
    var m := MachineOf(systems);
    var k: nat :| c' == Iterate(m, i, m.start(i, c), k);
    IterateIsAlone(systems, i, Restarted(systems, i, c), k);
    RunsAloneTally(descriptors, j, x, i, c, k);
  }

  /** Executing tickets counts those of j. */
  lemma {:induction false} RanTally(
    descriptors: seq<Descriptor>, j: nat, x: Location, log: seq<nat>, a: nat, b: nat,
    c: Config<bool, nat>, c': Config<bool, nat>)
    requires a <= b <= |log| && (forall t | 0 <= t < |log| :: log[t] < |descriptors|) && |c.locals| == |descriptors|
    requires Ran(MachineOf(Probes(descriptors, j, x)), log, a, b, c, c')
    ensures Tally(c'.store, x) == Tally(c.store, x) + Occurrences(log, a, b, j)
    decreases b - a
  {
    if a < b {
      hide Executes;
      var m := MachineOf(Probes(descriptors, j, x));
      var mid: Config<bool, nat> :| Executes(m, log[a], c, mid) && Ran(m, log, a + 1, b, mid, c');
      ExecutesTally(descriptors, j, x, log[a], c, mid);
      RanTally(descriptors, j, x, log, a + 1, b, mid, c');
    }
  }

  /** The sequential tick counts j once. */
  lemma {:induction false} SequentialTally(
    descriptors: seq<Descriptor>, j: nat, x: Location, order: seq<nat>, c: Config<bool, nat>, c': Config<bool, nat>)
    requires Distinct(order) && (forall i | i in order :: i < |descriptors|) && |c.locals| == |descriptors|
    requires SequentialTick(Probes(descriptors, j, x), order, c, c')
    ensures Tally(c'.store, x) == Tally(c.store, x) + if j in order then 1 else 0
  {
    if order != [] {
      var systems := Probes(descriptors, j, x);
      var i, rest := order[0], order[1..];
      assert i in order && i !in rest && forall e :: e in order <==> e == i || e in rest;
      var mid :| RunsAlone(systems, i, c, mid) && SequentialTick(systems, rest, mid, c');
      var k: nat :| mid == Alone(systems, i, Restarted(systems, i, c), k);
      RunsAloneTally(descriptors, j, x, i, c, k);
      SequentialTally(descriptors, j, x, rest, mid, c');
    }
  }

  /** Nothing takes a count back. */
  lemma {:induction false} RunTally(
    tick: Tick<Config<bool, nat>>, descriptors: seq<Descriptor>, j: nat, x: Location,
    s: State<Config<bool, nat>>, run: seq<Action>)
    requires tick.graph.WellFormed() && tick.machine == MachineOf(Probes(descriptors, j, x))
    requires tick.Shape(s) && tick.Legal(s, run)
    ensures Tally(s.config.store, x) <= Tally(tick.After(s, run).config.store, x)
    decreases run
  {
    if run != [] {
      var s' := tick.Apply(s, run[0]);
      assert Tally(s.config.store, x) <= Tally(s'.config.store, x);
      RunTally(tick, descriptors, j, x, s', run[1..]);
    }
  }

  /**
   For every built graph in which some released system declares a write there are systems that touch only
   what they declare and always halt, and an interleaving under the live seed loop after which, however it
   goes on, the shared state is never that of the sequential tick.
   */
  lemma LiveLoopChangesResult(
    descriptors: seq<Descriptor>, order: seq<nat>, dependents: seq<seq<nat>>, inDegree: seq<int>,
    workers: nat, c: Config<bool, nat>, j: nat, x: Location)
    returns (systems: seq<System<bool, nat>>, run: seq<Action>, sequential: Config<bool, nat>)
    requires NameOrder(order, descriptors) && IsHazardGraph(descriptors, dependents, inDegree)
    requires workers > 0 && |c.locals| == |descriptors|
    requires Released(BuiltGraph(descriptors, order, dependents, inDegree), j) && x in descriptors[j].Writes()
    ensures Descriptors(systems) == descriptors && AllConfined(systems) && AlwaysHalts(systems)
    ensures SequentialTick(systems, order, c, sequential)
    ensures var tick := TickOf(systems, order, dependents, inDegree, Live, workers);
            && tick.Legal(tick.Init(c), run)
            && var s := tick.After(tick.Init(c), run);
               forall more | tick.Legal(s, more) :: tick.After(s, more).config.store != sequential.store
  {
    systems := Probes(descriptors, j, x);
    ProbesFit(descriptors, j, x);
    SystemsTerminate(systems);
    var tick := TickOf(systems, order, dependents, inDegree, Live, workers);
    var s;
    run, s := TwoCounted(tick, descriptors, j, x, c);
    PermutationCovers(order, |descriptors|, j);
    hide IsHazardGraph, AllConfined, Released, Terminating;
    sequential := SequentialTickExists(systems, order, c);
    SequentialTally(descriptors, j, x, order, c, sequential);
    forall more | tick.Legal(s, more) ensures tick.After(s, more).config.store != sequential.store {
      RunTally(tick, descriptors, j, x, s, more);
    }
  }

  lemma TwoCounted(
    tick: Tick<Config<bool, nat>>, descriptors: seq<Descriptor>, j: nat, x: Location, c: Config<bool, nat>)
    returns (run: seq<Action>, s: State<Config<bool, nat>>)
    requires Runnable(tick, Sized(Probes(descriptors, j, x))) && tick.rule.Live? && Released(tick.graph, j)
    requires tick.machine == MachineOf(Probes(descriptors, j, x)) && tick.N() == |descriptors| == |c.locals|
    ensures Reaches(tick, c, run, s) && tick.Shape(s) && Tally(s.config.store, x) >= Tally(c.store, x) + 2
  {
    var good := Sized(Probes(descriptors, j, x));
    var run1, s1 := UnsafeGraphDispatchesTwice(tick, good, c, j);
    var run2, s2 := RunTicket(tick, good, s1, {});
    hide Tick.Sound, Released, Terminating, Ready, Tick.Legal, Tick.After, Ran, Probes, NoSeed, Idle;
    ReachesThen(tick, c, run1, s1, run2, s2);
    run, s := run1 + run2, s2;
    RanJoin(tick.machine, s1.log, s2.log, 0, s1.next, s2.next, c, s1.config, s2.config);
    RanTally(descriptors, j, x, s2.log, 0, s2.next, c, s2.config);
    HeadAgain(s1.log, s2.log, s1.next, j);
  }
}
