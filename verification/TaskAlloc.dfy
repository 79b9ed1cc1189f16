/** Role allocation by response thresholds, the stability window, and the merge window that suspends it. */
module TaskAlloc {
  import opened Bytes
  import opened Rotation

  const MAX_TRACKED_ROLES := 8

  type Reals8 = s: seq<real> | |s| == 8 witness [0.0, 0.0, 0.0, 0.0, 0.0, 0.0, 0.0, 0.0]

  datatype Params = Params(desiredRatios: Reals8, thresholds: Reals8, stabilityWindow: real, stimulusGain: real)

  // ------------------------------------------------------------------ which role is wanted

  /** How many robots hold role r. */
  function Count(roles: seq<nat>, r: nat): nat {
    if roles == [] then 0
    else Count(roles[..|roles| - 1], r) + if roles[|roles| - 1] == r then 1 else 0
  }

  /** How far role r falls short of its share of the observed swarm. */
  function Deficit(p: Params, roles: seq<nat>, r: nat): real
    requires r < MAX_TRACKED_ROLES
  {
    p.desiredRatios[r] * |roles| as real - Count(roles, r) as real
  }

  function Margin(p: Params, roles: seq<nat>, r: nat): real
    requires r < MAX_TRACKED_ROLES
  {
    Deficit(p, roles, r) * p.stimulusGain - p.thresholds[r]
  }

  /** A managed role in deficit whose stimulus exceeds its threshold. */
  predicate Wanted(p: Params, roles: seq<nat>, r: nat) {
    r < MAX_TRACKED_ROLES && p.desiredRatios[r] > 0.0 && Deficit(p, roles, r) > 0.0 && Margin(p, roles, r) > 0.0
  }

  lemma {:induction false} CountMeaning(roles: seq<nat>, r: nat)
    ensures Count(roles, r) == |set k | 0 <= k < |roles| && roles[k] == r|
  {
    if roles != [] {
      CountMeaning(roles[..|roles| - 1], r);
      OneMore(roles, r);
    }
  }

  lemma OneMore(roles: seq<nat>, r: nat)
    requires roles != []
    ensures var n := |roles| - 1;
            |set k | 0 <= k < |roles| && roles[k] == r|
            == |set k | 0 <= k < n && roles[..n][k] == r| + if roles[n] == r then 1 else 0
  {
    var n := |roles| - 1;
    var before := set k | 0 <= k < n && roles[..n][k] == r;
    assert (set k | 0 <= k < |roles| && roles[k] == r) == if roles[n] == r then before + {n} else before;
  }

  /** What a role's margin is and when it is wanted, from the robots that hold it and the parameters alone. */
  lemma WantedMeaning(p: Params, roles: seq<nat>, r: nat)
    requires r < 8
    ensures var held := |set k | 0 <= k < |roles| && roles[k] == r|;
            var deficit := p.desiredRatios[r] * |roles| as real - held as real;
            && Margin(p, roles, r) == deficit * p.stimulusGain - p.thresholds[r]
            && (Wanted(p, roles, r) <==>
                  p.desiredRatios[r] > 0.0 && deficit > 0.0 && deficit * p.stimulusGain > p.thresholds[r])
  {
    CountMeaning(roles, r);
    hide Count;
  }

  /** The lowest-numbered role of maximal positive margin. */
  ghost predicate Best(p: Params, roles: seq<nat>, r: nat) {
    && Wanted(p, roles, r)
    && forall q | Wanted(p, roles, q) ::
         Margin(p, roles, q) < Margin(p, roles, r) || (Margin(p, roles, q) == Margin(p, roles, r) && r <= q)
  }

  lemma BestUnique(p: Params, roles: seq<nat>, a: nat, b: nat)
    requires Best(p, roles, a) && Best(p, roles, b)
    ensures a == b
  {
    hide Wanted, Margin;
  }

  /** The choice is the best role, if any role is wanted. */
  ghost predicate Chosen(p: Params, roles: seq<nat>, choice: Option<nat>) {
    match choice
    case None => forall r :: !Wanted(p, roles, r)
    case Some(r) => Best(p, roles, r)
  }

  lemma ChosenUnique(p: Params, roles: seq<nat>, a: Option<nat>, b: Option<nat>)
    requires Chosen(p, roles, a) && Chosen(p, roles, b)
    ensures a == b
  {
    hide Wanted, Margin;
    if a.Some? && b.Some? {
      BestUnique(p, roles, a.value, b.value);
    }
  }

  // ------------------------------------------------------------------ the two systems

  class PartitionMergeSystem {
    const healThreshold: nat
    const mergeWindow: real
    var lastPeerCount: nat
    var healEvents: nat

    constructor (healThreshold: nat, mergeWindow: real)
      ensures this.healThreshold == healThreshold && this.mergeWindow == mergeWindow
      ensures lastPeerCount == 0 && healEvents == 0
    {
      this.healThreshold, this.mergeWindow := healThreshold, mergeWindow;
      lastPeerCount, healEvents := 0, 0;
    }

    /** Opens the merge window when the table has grown by enough peers since the last tick. */
    method Tick<Entry>(world: World, table: seq<Entry>)
      requires world.Valid()
      modifies this, world`mergeWindow
      ensures world.Valid() && lastPeerCount == |table|
      ensures var heal := |table| > old(lastPeerCount) && |table| >= old(lastPeerCount) + healThreshold;
              healEvents == old(healEvents) + (if heal then 1 else 0)
              && world.mergeWindow == if heal then mergeWindow else old(world.mergeWindow)
    {
      var count := 0;
      for k := 0 to |table|
        invariant count == k
      {
        count := count + 1;
      }
      if count > lastPeerCount && count - lastPeerCount >= healThreshold {
        world.SetMergeWindow(mergeWindow);
        healEvents := healEvents + 1;
      }
      lastPeerCount := count;
    }
  }

  predicate Heals(last: nat, count: nat, threshold: nat) {
    count > last && count - last >= threshold
  }

  class TaskAllocSystem {
    const params: Params
    var sinceSwitch: real
    var totalSwitches: nat

    constructor (params: Params)
      ensures this.params == params && sinceSwitch == 0.0 && totalSwitches == 0
    {
      this.params := params;
      sinceSwitch, totalSwitches := 0.0, 0;
    }

    /** The role distribution over self and neighbours. */
    method CountRoles(self: nat, neighbours: seq<nat>) returns (counts: array<nat>, total: nat)
      ensures fresh(counts) && counts.Length == MAX_TRACKED_ROLES && total == |neighbours| + 1
      ensures forall r | 0 <= r < MAX_TRACKED_ROLES :: counts[r] == Count([self] + neighbours, r)
    {
      counts := new nat[MAX_TRACKED_ROLES](i => 0);
      total := 1;
      if self < counts.Length {
        counts[self] := counts[self] + 1;
      }
      ghost var roles := [self] + neighbours;
      assert roles[..1] == [self] && [self][..0] == [];
      for k := 0 to |neighbours|
        invariant total == k + 1
        invariant forall r | 0 <= r < MAX_TRACKED_ROLES :: counts[r] == Count(roles[..k + 1], r)
      {
        var r := neighbours[k];
        if r < counts.Length {
          counts[r] := counts[r] + 1;
        }
        total := total + 1;
        assert roles[..k + 2][..k + 1] == roles[..k + 1] && roles[k + 1] == r;
      }
      assert roles[..|neighbours| + 1] == roles;
    }

    /** Scans the tracked roles for the largest positive margin; the first of equals stays. */
    method Choose(roles: seq<nat>, counts: array<nat>, total: nat) returns (choice: Option<nat>)
      requires counts.Length == MAX_TRACKED_ROLES && total == |roles|
      requires forall r | 0 <= r < MAX_TRACKED_ROLES :: counts[r] == Count(roles, r)
      ensures Chosen(params, roles, choice) && forall other | Chosen(params, roles, other) :: other == choice
      ensures choice.None? ==> forall q: nat :: !Wanted(params, roles, q)
      ensures choice.Some? ==> Wanted(params, roles, choice.value) && forall q: nat | Wanted(params, roles, q) ::
                if q < choice.value then Margin(params, roles, q) < Margin(params, roles, choice.value)
                else Margin(params, roles, q) <= Margin(params, roles, choice.value)
    {
      hide Count;
      choice := None;
      var bestMargin := 0.0;
      for r := 0 to MAX_TRACKED_ROLES
        invariant choice.None? ==> forall q | 0 <= q < r :: !Wanted(params, roles, q)
        invariant choice.Some? ==>
                    BestBelow(roles, choice.value, r) && bestMargin == Margin(params, roles, choice.value)
      {
        var ratio := params.desiredRatios[r];
        if ratio <= 0.0 {
          assert !Wanted(params, roles, r);
          continue;
        }
        var deficit := ratio * total as real - counts[r] as real;
        assert deficit == Deficit(params, roles, r);
        if deficit <= 0.0 {
          assert !Wanted(params, roles, r);
          continue;
        }
        var margin := deficit * params.stimulusGain - params.thresholds[r];
        assert margin == Margin(params, roles, r);
        if margin <= 0.0 {
          assert !Wanted(params, roles, r);
          continue;
        }
        assert Wanted(params, roles, r);
        if choice.None? || margin > bestMargin {
          choice, bestMargin := Some(r), margin;
        }
      }
      forall other | Chosen(params, roles, other) ensures other == choice {
        ChosenUnique(params, roles, other, choice);
      }
    }

    /** The best of the roles below r. */
    ghost predicate BestBelow(roles: seq<nat>, best: nat, r: nat) {
      && best < r && Wanted(params, roles, best)
      && forall q | 0 <= q < r && Wanted(params, roles, q) ::
           Margin(params, roles, q) < Margin(params, roles, best)
           || (Margin(params, roles, q) == Margin(params, roles, best) && best <= q)
    }

    /** One tick: the switch, if a better role exists and the window in force has passed. */
    method Tick(world: World, role: nat, neighbours: seq<nat>, dt: real)
      returns (newRole: nat, ghost choice: Option<nat>)
      modifies this
      ensures Chosen(params, [role] + neighbours, choice)
      ensures var window := if world.mergeWindow > 0.0 then 0.0 else params.stabilityWindow;
              var switches := choice.Some? && choice.value != role && old(sinceSwitch) + dt >= window;
              && newRole == (if switches then choice.value else role)
              && sinceSwitch == (if switches then 0.0 else old(sinceSwitch) + dt)
              && totalSwitches == old(totalSwitches) + if switches then 1 else 0
    {
      sinceSwitch := sinceSwitch + dt;
      var counts, total := CountRoles(role, neighbours);
      var candidate := Choose([role] + neighbours, counts, total);
      choice := candidate;
      var window := if world.IsMerging() then 0.0 else params.stabilityWindow;
      newRole := role;
      if candidate.Some? && candidate.value != role && sinceSwitch >= window {
        newRole := candidate.value;
        sinceSwitch := 0.0;
        totalSwitches := totalSwitches + 1;
      }
    }
  }

  predicate Switches(choice: Option<nat>, role: nat, since: real, window: real) {
    choice.Some? && choice.value != role && since >= window
  }

  // ------------------------------------------------------------------ runs of the sequential scheduler

  datatype Config = Config(params: Params, healThreshold: nat, mergeWindow: real, dt: real)

  /** merged counts the switches made while a merge window was open. */
  datatype State = State(
    role: nat, since: real, switches: nat, merged: nat, lastPeerCount: nat, heals: nat, window: real, ticks: nat)

  /** What a tick sees: the roles in the neighbour table, and the role it finds best. */
  datatype Seen = Seen(neighbours: seq<nat>, choice: Option<nat>)

  ghost predicate Possible(c: Config, s: State, t: Seen) {
    Chosen(c.params, [s.role] + t.neighbours, t.choice)
  }

  /** A tick: the window decays, then heal detection, then role allocation. */
  function Next(c: Config, s: State, t: Seen): State {
    var heal := Heals(s.lastPeerCount, |t.neighbours|, c.healThreshold);
    var window := if heal then c.mergeWindow else Decayed(s.window, c.dt);
    var merging := window > 0.0;
    var switches := Switches(t.choice, s.role, s.since + c.dt, if merging then 0.0 else c.params.stabilityWindow);
    State(if switches then t.choice.value else s.role,
          if switches then 0.0 else s.since + c.dt,
          s.switches + (if switches then 1 else 0),
          s.merged + (if switches && merging then 1 else 0),
          |t.neighbours|, s.heals + (if heal then 1 else 0), window, s.ticks + 1)
  }

  /** The three systems of a tick, in name order, do what Next says. */
  method SequentialTick(world: World, merge: PartitionMergeSystem, alloc: TaskAllocSystem, role: nat,
                        neighbours: seq<nat>, ghost s: State)
    returns (newRole: nat, ghost t: Seen)
    requires world.Valid()
    requires s.role == role && s.since == alloc.sinceSwitch && s.switches == alloc.totalSwitches
    requires s.lastPeerCount == merge.lastPeerCount && s.heals == merge.healEvents && s.window == world.mergeWindow
    modifies world, merge, alloc
    ensures world.Valid()
    ensures var c := Config(alloc.params, merge.healThreshold, merge.mergeWindow, world.tickPeriod);
            && t.neighbours == neighbours && Possible(c, s, t)
            && var s' := Next(c, s, t);
               && s'.role == newRole && s'.since == alloc.sinceSwitch && s'.switches == alloc.totalSwitches
               && s'.lastPeerCount == merge.lastPeerCount && s'.heals == merge.healEvents
               && s'.window == world.mergeWindow
  {
    hide World.Valid, Chosen;
    ghost var choice;
    world.BeginTick();
    merge.Tick(world, neighbours);
    newRole, choice := alloc.Tick(world, role, neighbours, world.tickPeriod);
    t := Seen(neighbours, choice);
  }

  ghost predicate Legal(c: Config, s: State, run: seq<Seen>)
    decreases |run|, 0
  {
    run == [] || (Legal(c, s, run[..|run| - 1]) && Possible(c, After(c, s, run[..|run| - 1]), run[|run| - 1]))
  }

  ghost function After(c: Config, s: State, run: seq<Seen>): State
    decreases |run|, 1
  {
    if run == [] then s else Next(c, After(c, s, run[..|run| - 1]), run[|run| - 1])
  }

  /** A world just started: nothing seen, switched or opened. */
  predicate Initial(s: State) {
    s == State(s.role, 0.0, 0, 0, 0, 0, 0.0, 0)
  }

  // ------------------------------------------------------------------ the bound on switching

  /** The least whole number of ticks that covers a time, zero for none. */
  function CeilTicks(time: real, dt: real): nat
    requires dt > 0.0
  {
    if time <= 0.0 then 0 else -(-(time / dt)).Floor
  }

  lemma CeilTicksMeaning(time: real, dt: real)
    requires dt > 0.0 && time > 0.0
    ensures var n := CeilTicks(time, dt); n >= 1 && (n - 1) as real * dt < time <= n as real * dt
  {
    var n, x := CeilTicks(time, dt), time / dt;
    assert x > 0.0 && x * dt == time;
    assert (n - 1) as real < x <= n as real;
    assert (n - 1) as real * dt < x * dt by { Scale((n - 1) as real, x, dt); }
    assert x * dt <= n as real * dt by { if x < n as real { Scale(x, n as real, dt); } }
  }

  lemma Scale(a: real, b: real, d: real)
    requires a < b && d > 0.0
    ensures a * d < b * d
  {
    assert (b - a) * d > 0.0;
    assert (b - a) * d == b * d - a * d;
  }

  lemma CeilTicksStep(time: real, dt: real)
    requires dt > 0.0 && time > dt
    ensures CeilTicks(time - dt, dt) == CeilTicks(time, dt) - 1
  {
    var x := time / dt;
    assert x * dt == time;
    assert (x - 1.0) * dt == x * dt - dt;
    Quotient(time - dt, dt, x - 1.0);
  }

  lemma Quotient(a: real, d: real, q: real)
    requires d > 0.0 && a == q * d
    ensures a / d == q
  {
    var r := a / d;
    assert r * d == a;
    if r < q {
      Scale(r, q, d);
    } else if q < r {
      Scale(q, r, d);
    }
  }

  lemma AtLeastOne(k: nat, dt: real)
    requires dt > 0.0
    ensures k >= 1 ==> k as real * dt >= dt
  {
    assert k >= 1 ==> (k as real - 1.0) * dt >= 0.0;
    assert (k as real - 1.0) * dt == k as real * dt - dt;
  }

  /** In how many later ticks a window would still be open if no heal came. */
  function OpenTicks(window: real, dt: real): nat
    requires dt > 0.0
  {
    if window <= 0.0 then 0
    else
      CeilTicksMeaning(window, dt);
      CeilTicks(window, dt) - 1
  }

  lemma OpenTicksStep(window: real, dt: real)
    requires dt > 0.0
    ensures var w := Decayed(window, dt);
            OpenTicks(window, dt) == if w > 0.0 then 1 + OpenTicks(w, dt) else 0
  {
    if window > dt {
      CeilTicksStep(window, dt);
      CeilTicksMeaning(window - dt, dt);
    } else if window > 0.0 {
      CeilTicksMeaning(window, dt);
      AtLeastOne(CeilTicks(window, dt) - 1, dt);
    }
  }

  /** Switches outside merge windows cost a stability window each; those inside fit in the windows heals opened. */
  ghost predicate Bounded(c: Config, s: State) {
    && c.dt > 0.0 && s.merged <= s.switches && s.since >= 0.0
    && (s.switches - s.merged) as real * c.params.stabilityWindow + s.since <= s.ticks as real * c.dt
    && s.merged + OpenTicks(s.window, c.dt) <= s.heals * CeilTicks(c.mergeWindow, c.dt)
  }

  lemma StepBounded(c: Config, s: State, t: Seen)
    requires Bounded(c, s) && c.params.stabilityWindow >= 0.0
    ensures Bounded(c, Next(c, s, t))
  {
    var s' := Next(c, s, t);
    MergedStep(c, s, t);
    hide CeilTicks, OpenTicks;
    var w, n := c.params.stabilityWindow, s.switches - s.merged;
    assert (n + 1) as real * w == n as real * w + w;
    assert (s.ticks + 1) as real * c.dt == s.ticks as real * c.dt + c.dt;
  }

  lemma MergedStep(c: Config, s: State, t: Seen)
    requires c.dt > 0.0 && s.merged + OpenTicks(s.window, c.dt) <= s.heals * CeilTicks(c.mergeWindow, c.dt)
    ensures var s' := Next(c, s, t);
            s'.merged + OpenTicks(s'.window, c.dt) <= s'.heals * CeilTicks(c.mergeWindow, c.dt)
  {
    OpenTicksStep(s.window, c.dt);
    HealOpens(c.mergeWindow, c.dt);
    var perHeal := CeilTicks(c.mergeWindow, c.dt);
    assert (s.heals + 1) * perHeal == s.heals * perHeal + perHeal;
    hide CeilTicks, OpenTicks;
  }

  /** A heal's own tick and those its window covers later are as many as cover the window. */
  lemma HealOpens(window: real, dt: real)
    requires dt > 0.0
    ensures CeilTicks(window, dt) == if window > 0.0 then 1 + OpenTicks(window, dt) else 0
  {
    if window > 0.0 {
      CeilTicksMeaning(window, dt);
    }
  }

  lemma {:induction false} RunBounded(c: Config, s: State, run: seq<Seen>)
    requires Initial(s) && c.dt > 0.0 && c.params.stabilityWindow >= 0.0
    ensures Bounded(c, After(c, s, run)) && After(c, s, run).ticks == |run|
    decreases |run|
  {
    hide Bounded;
    if run == [] {
      InitialBounded(c, s);
    } else {
      RunBounded(c, s, run[..|run| - 1]);
      StepBounded(c, After(c, s, run[..|run| - 1]), run[|run| - 1]);
    }
  }

  lemma InitialBounded(c: Config, s: State)
    requires Initial(s) && c.dt > 0.0
    ensures Bounded(c, s)
  {
  }

  /** Over any run of total time T: at most T/W switches, plus the ticks that the heals' merge windows cover. */
  lemma SwitchBound(c: Config, s: State, run: seq<Seen>)
    requires Initial(s) && Legal(c, s, run) && c.dt > 0.0 && c.params.stabilityWindow > 0.0
    ensures var end, total := After(c, s, run), |run| as real * c.dt;
            end.switches as real
              <= total / c.params.stabilityWindow + (end.heals * CeilTicks(c.mergeWindow, c.dt)) as real
  {
    hide CeilTicks, OpenTicks, After, Legal, Bounded;
    RunBounded(c, s, run);
    FromBound(c, After(c, s, run), |run|);
  }

  lemma FromBound(c: Config, s: State, ticks: nat)
    requires Bounded(c, s) && c.params.stabilityWindow > 0.0 && s.ticks == ticks
    ensures s.switches as real
         <= ticks as real * c.dt / c.params.stabilityWindow + (s.heals * CeilTicks(c.mergeWindow, c.dt)) as real
  {
    AtMost(s.switches - s.merged, c.params.stabilityWindow, ticks as real * c.dt);
    hide CeilTicks, OpenTicks;
    assert s.switches as real == (s.switches - s.merged) as real + s.merged as real;
  }

  lemma AtMost(n: nat, w: real, total: real)
    requires w > 0.0 && n as real * w <= total
    ensures n as real <= total / w
  {
    var q := total / w;
    assert q * w == total;
    if q < n as real {
      Scale(q, n as real, w);
    }
  }
}
