/** Fault-driven degradation with hysteresis, and how it gates the actions a robot performs. */
module FaultMonitor {
  import opened Actions
  import opened Bytes
  import opened Counting

  const NORMAL_STATE: nat := 0
  const DEGRADED_STATE: nat := 1

  datatype Params = Params(threshold: nat, hysteresis: nat, decrement: nat)

  /** The components and fields a tick of the monitor reads and writes. */
  datatype Monitor = Monitor(health: nat, mask: Mask, state: nat, saved: Mask, degraded: bool)

  /** Health after some faults: it saturates at zero. */
  function Drop(health: nat, faults: nat, decrement: nat): nat {
    if faults * decrement >= health then 0 else health - faults * decrement
  }

  function Transition(m: Monitor, p: Params): Monitor {
    if !m.degraded && m.health < p.threshold then
      Monitor(m.health, DEGRADED_MASK, DEGRADED_STATE, m.mask, true)
    else if m.degraded && m.health >= p.threshold + p.hysteresis then
      Monitor(m.health, m.saved, NORMAL_STATE, m.saved, false)
    else m
  }

  function Step(m: Monitor, p: Params, faults: nat): Monitor {
    Transition(m.(health := Drop(m.health, faults, p.decrement)), p)
  }

  class FaultMonitorSystem {
    const params: Params
    var health: nat
    var mask: Mask
    var state: nat
    var lastFaultCount: nat
    var saved: Mask
    var degraded: bool

    ghost function View(): Monitor
      reads this
    {
      Monitor(health, mask, state, saved, degraded)
    }

    constructor (params: Params, health: nat, mask: Mask)
      ensures this.params == params && lastFaultCount == 0
      ensures View() == Monitor(health, mask, NORMAL_STATE, DEFAULT_MASK, false)
    {
      this.params := params;
      this.health, this.mask, state := health, mask, NORMAL_STATE;
      lastFaultCount, saved, degraded := 0, DEFAULT_MASK, false;
    }

    /** One tick, faultCount being the total reported so far. */
    method Tick(faultCount: nat)
      requires faultCount >= lastFaultCount
      modifies this
      ensures View() == Step(old(View()), params, faultCount - old(lastFaultCount)) && lastFaultCount == faultCount
      ensures var loss := (faultCount - old(lastFaultCount)) * params.decrement;
              health == if old(health) <= loss then 0 else old(health) - loss
      ensures !old(degraded) && health < params.threshold ==>
                degraded && mask == Mask(33, false) && state == 1 && saved == old(mask)
      ensures old(degraded) && health >= params.threshold + params.hysteresis ==>
                !degraded && mask == saved == old(saved) && state == 0
      ensures (if old(degraded) then health < params.threshold + params.hysteresis else health >= params.threshold) ==>
                degraded == old(degraded) && mask == old(mask) && state == old(state) && saved == old(saved)
    {
      BitsOf33(0);
      var newFaults := faultCount - lastFaultCount;
      lastFaultCount := faultCount;
      if newFaults > 0 {
        var totalDrop := newFaults * params.decrement;
        if totalDrop >= health {
          health := 0;
        } else {
          health := health - totalDrop;
        }
      }
      if !degraded && health < params.threshold {
        saved := mask;
        mask := DEGRADED_MASK;
        state := DEGRADED_STATE;
        degraded := true;
      } else if degraded && health >= params.threshold + params.hysteresis {
        mask := saved;
        state := NORMAL_STATE;
        degraded := false;
      }
    }
  }

  // ------------------------------------------------------------------ runs

  /** A tick that sees some new faults, or somebody else setting the health. */
  datatype Event = Tick(faults: nat) | SetHealth(health: nat)

  function Happen(m: Monitor, p: Params, e: Event): Monitor {
    match e
    case Tick(faults) => Step(m, p, faults)
    case SetHealth(h) => m.(health := h)
  }

  function After(m: Monitor, p: Params, events: seq<Event>): Monitor {
    if events == [] then m else Happen(After(m, p, events[..|events| - 1]), p, events[|events| - 1])
  }

  /** The baseline mask when normal, idle and regroup only when degraded. */
  ghost predicate Consistent(m: Monitor, baseline: Mask) {
    if m.degraded then m.mask == DEGRADED_MASK && m.saved == baseline && m.state == DEGRADED_STATE
    else m.mask == baseline && m.state == NORMAL_STATE
  }

  /** In every run in which only the monitor writes them, mask and state follow the mode. */
  lemma {:induction false} MaskFollowsMode(m: Monitor, p: Params, events: seq<Event>, baseline: Mask)
    requires Consistent(m, baseline)
    ensures Consistent(After(m, p, events), baseline)
  {
    if events != [] {
      MaskFollowsMode(m, p, events[..|events| - 1], baseline);
    }
  }

  /** A tick leaves a robot degraded exactly if its health is below the threshold, or it was and is not well above. */
  lemma Hysteresis(m: Monitor, p: Params, faults: nat)
    ensures var m' := Step(m, p, faults);
            && (m'.degraded <==> m'.health < p.threshold || (m.degraded && m'.health < p.threshold + p.hysteresis))
            && (m.degraded && !m'.degraded ==> m'.health >= p.threshold + p.hysteresis)
            && m'.health <= m.health
  {
  }

  /** A degraded robot whose health was raised to the recovery level, before the tick that notices. */
  predicate Poised(m: Monitor, p: Params) {
    m.degraded && m.health >= p.threshold + p.hysteresis
  }

  /** No tick leaves a robot poised: only raising its health from outside does. */
  lemma StepNotPoised(m: Monitor, p: Params, faults: nat)
    ensures !Poised(Step(m, p, faults), p)
  {
  }

  /** The event at k is a tick that finds the robot degraded and lets it recover, at the recovery level or above. */
  ghost predicate RecoversAt(m: Monitor, p: Params, events: seq<Event>, k: nat) {
    && k < |events| && events[k].Tick?
    && After(m, p, events[..k]).degraded && !After(m, p, events[..k + 1]).degraded
    && After(m, p, events[..k + 1]).health >= p.threshold + p.hysteresis
  }

  /** In every run, between being degraded and being normal again lies a tick at the recovery level or above. */
  lemma {:induction false} RecoveryNeedsHealth(m: Monitor, p: Params, events: seq<Event>, i: nat)
    requires i <= |events| && After(m, p, events[..i]).degraded && !After(m, p, events).degraded
    ensures exists k: nat :: i <= k && RecoversAt(m, p, events, k)
  {
    hide Step;
    assert events[..|events|] == events;
    var n := |events| - 1;
    var init := events[..n];
    assert init[..i] == events[..i];
    if After(m, p, init).degraded {
      assert events[..n + 1] == events;
      if events[n].Tick? {
        Hysteresis(After(m, p, init), p, events[n].faults);
      }
      assert RecoversAt(m, p, events, n);
    } else {
      RecoveryNeedsHealth(m, p, init, i);
      var k: nat :| i <= k && RecoversAt(m, p, init, k);
      assert init[..k] == events[..k] && init[..k + 1] == events[..k + 1];
      assert RecoversAt(m, p, events, k);
    }
  }

  function Ticks(batches: seq<nat>): (events: seq<Event>)
    ensures |events| == |batches|
  {
    seq(|batches|, i requires 0 <= i < |batches| => Tick(batches[i]))
  }

  lemma DropAdds(health: nat, a: nat, b: nat, decrement: nat)
    ensures Drop(Drop(health, a, decrement), b, decrement) == Drop(health, a + b, decrement)
  {
    assert (a + b) * decrement == a * decrement + b * decrement;
  }

  lemma BatchedPrefix(m: Monitor, p: Params, batches: seq<nat>)
    requires batches != []
    ensures After(m, p, Ticks(batches))
         == Step(After(m, p, Ticks(batches[..|batches| - 1])), p, batches[|batches| - 1])
  {
    assert Ticks(batches)[..|batches| - 1] == Ticks(batches[..|batches| - 1]);
    hide Step;
  }

  /** However faults are batched into ticks, they cost the same health. */
  lemma {:induction false} HealthIgnoresBatching(m: Monitor, p: Params, batches: seq<nat>)
    ensures After(m, p, Ticks(batches)).health == Drop(m.health, Total(batches), p.decrement)
  {
    if batches == [] {
      assert After(m, p, []) == m;
      assert Drop(m.health, 0, p.decrement) == m.health;
    } else {
      var init, last := batches[..|batches| - 1], batches[|batches| - 1];
      HealthIgnoresBatching(m, p, init);
      BatchedPrefix(m, p, batches);
      DropAdds(m.health, Total(init), last, p.decrement);
      hide Drop;
    }
  }

  /** Unless the robot is poised to recover, the whole outcome is that of one tick with all the faults. */
  lemma {:induction false} OutcomeIgnoresBatching(m: Monitor, p: Params, batches: seq<nat>)
    requires !Poised(m, p) && batches != []
    ensures After(m, p, Ticks(batches)) == Step(m, p, Total(batches))
  {
    var init, last := batches[..|batches| - 1], batches[|batches| - 1];
    BatchedPrefix(m, p, batches);
    if init == [] {
      assert After(m, p, Ticks(init)) == m && Total(init) == 0;
    } else {
      OutcomeIgnoresBatching(m, p, init);
      StepSplits(m, p, Total(init), last);
      hide Step;
    }
  }

  /** A degraded robot below the recovery level never recovers by itself, however many ticks pass. */
  lemma NoSelfRecovery(m: Monitor, p: Params, batches: seq<nat>)
    requires m.degraded && !Poised(m, p)
    ensures After(m, p, Ticks(batches)).degraded
  {
    if batches == [] {
      assert After(m, p, Ticks(batches)) == m;
    } else {
      OutcomeIgnoresBatching(m, p, batches);
      Hysteresis(m, p, Total(batches));
    }
  }

  lemma StepSplits(m: Monitor, p: Params, a: nat, b: nat)
    requires !Poised(m, p)
    ensures Step(Step(m, p, a), p, b) == Step(m, p, a + b)
  {
    DropAdds(m.health, a, b, p.decrement);
    DropLowers(m.health, a, p.decrement);
    DropLowers(Drop(m.health, a, p.decrement), b, p.decrement);
    hide Drop;
  }

  lemma DropLowers(health: nat, faults: nat, decrement: nat)
    ensures Drop(health, faults, decrement) <= health
  {
  }

  lemma {:induction false} TotalCons(batches: seq<nat>)
    requires batches != []
    ensures Total(batches) == batches[0] + Total(batches[1..])
  {
    if |batches| > 1 {
      var n := |batches| - 1;
      TotalCons(batches[..n]);
      assert batches[..n][1..] == batches[1..][..n - 1];
    }
  }

  lemma {:induction false} AfterCons(m: Monitor, p: Params, batches: seq<nat>)
    requires batches != []
    ensures After(m, p, Ticks(batches)) == After(Step(m, p, batches[0]), p, Ticks(batches[1..]))
  {
    hide Step;
    var n := |batches| - 1;
    BatchedPrefix(m, p, batches);
    if n == 0 {
      assert After(m, p, Ticks(batches[..0])) == m;
    } else {
      AfterCons(m, p, batches[..n]);
      assert batches[..n][1..] == batches[1..][..n - 1];
      BatchedPrefix(Step(m, p, batches[0]), p, batches[1..]);
    }
  }

  /** A degraded robot that the first faults leave fit to recover and all of them do not. */
  predicate RecoversBetween(m: Monitor, p: Params, first: nat, all: nat) {
    && m.degraded && Drop(m.health, first, p.decrement) >= p.threshold + p.hysteresis
    && p.threshold <= Drop(m.health, all, p.decrement) < p.threshold + p.hysteresis
  }

  lemma SplitExact(m: Monitor, p: Params, baseline: Mask, a: nat, b: nat)
    requires Consistent(m, baseline)
    ensures Step(Step(m, p, a), p, b) == Step(m, p, a + b) <==> !RecoversBetween(m, p, a, a + b)
  {
    DropAdds(m.health, a, b, p.decrement);
    DropLowers(m.health, a, p.decrement);
    DropLowers(Drop(m.health, a, p.decrement), b, p.decrement);
    hide Drop;
  }

  /**
   Exactly when batching matters: any batches end where one tick with all the faults ends, unless the robot
   is degraded, fit to recover after the first batch, and after all of them below the recovery level but not
   below the threshold.
   */
  lemma BatchingExact(m: Monitor, p: Params, baseline: Mask, batches: seq<nat>)
    requires Consistent(m, baseline) && batches != []
    ensures After(m, p, Ticks(batches)) == Step(m, p, Total(batches))
       <==> !RecoversBetween(m, p, batches[0], Total(batches))
  {
    var first, rest := batches[0], batches[1..];
    AfterCons(m, p, batches);
    TotalCons(batches);
    var m1 := Step(m, p, first);
    if rest == [] {
      assert After(m1, p, Ticks(rest)) == m1 && Total(rest) == 0;
    } else {
      StepNotPoised(m, p, first);
      OutcomeIgnoresBatching(m1, p, rest);
      SplitExact(m, p, baseline, first, Total(rest));
    }
    hide Step, Drop;
  }

  // ------------------------------------------------------------------ the gated robot

  const VALIDATOR_NAME: seq<byte> :=  // "ActionValidatorSystem"
    [0x41, 0x63, 0x74, 0x69, 0x6F, 0x6E, 0x56, 0x61, 0x6C, 0x69, 0x64, 0x61, 0x74, 0x6F, 0x72,
     0x53, 0x79, 0x73, 0x74, 0x65, 0x6D]
  const MONITOR_NAME: seq<byte> :=  // "FaultMonitorSystem"
    [0x46, 0x61, 0x75, 0x6C, 0x74, 0x4D, 0x6F, 0x6E, 0x69, 0x74, 0x6F, 0x72, 0x53, 0x79, 0x73, 0x74, 0x65, 0x6D]

  /** Name order runs the validator before the monitor. */
  lemma ValidatorRunsFirst()
    ensures Less(VALIDATOR_NAME, MONITOR_NAME) && !Less(MONITOR_NAME, VALIDATOR_NAME)
  {
  }

  /** One robot: what is queued, the faults not yet seen, the monitor and what the last tick validated. */
  datatype Robot = Robot(queued: seq<Action>, pending: nat, monitor: Monitor, validated: seq<Action>)

  datatype Input = Push(action: Action) | Report | Heal(health: nat) | RunTick

  function React(r: Robot, p: Params, i: Input): Robot {
    match i
    case Push(a) => if |r.queued| < CAPACITY then r.(queued := r.queued + [a]) else r
    case Report => r.(pending := r.pending + 1)
    case Heal(h) => r.(monitor := r.monitor.(health := h))
    case RunTick => Robot([], 0, Step(r.monitor, p, r.pending), Filter(r.queued, r.monitor.mask))
  }

  function Run(r: Robot, p: Params, inputs: seq<Input>): Robot {
    if inputs == [] then r else React(Run(r, p, inputs[..|inputs| - 1]), p, inputs[|inputs| - 1])
  }

  ghost predicate Fresh(r: Robot, baseline: Mask) {
    !r.monitor.degraded && r.monitor.mask == baseline && r.monitor.state == NORMAL_STATE && |r.queued| <= CAPACITY
  }

  lemma {:induction false} RobotConsistent(r: Robot, p: Params, inputs: seq<Input>, baseline: Mask)
    requires Fresh(r, baseline)
    ensures Consistent(Run(r, p, inputs).monitor, baseline) && |Run(r, p, inputs).queued| <= CAPACITY
  {
    if inputs != [] {
      RobotConsistent(r, p, inputs[..|inputs| - 1], baseline);
    }
  }

  /**
   * In every run: a tick that begins degraded validates only idle and regroup; one that begins normal
   * validates by the baseline mask, even if its own faults degrade it.
   */
  lemma TickIsGated(r: Robot, p: Params, inputs: seq<Input>, baseline: Mask)
    requires Fresh(r, baseline)
    ensures var before := Run(r, p, inputs);
            var after := React(before, p, RunTick);
            && after.queued == []
            && (before.monitor.degraded ==> forall a | a in after.validated :: a.kind == IDLE || a.kind == REGROUP)
            && (before.monitor.degraded ==>
                  forall a | a in before.queued && (a.kind == IDLE || a.kind == REGROUP) :: a in after.validated)
            && (!before.monitor.degraded ==> after.validated == Filter(before.queued, baseline))
  {
    RobotConsistent(r, p, inputs, baseline);
    var before := Run(r, p, inputs);
    hide Mask.Allows;
    if before.monitor.degraded {
      forall a | a in before.queued
        ensures a in Filter(before.queued, DEGRADED_MASK) <==> a.kind == IDLE || a.kind == REGROUP
      {
        DegradedAllows(a.kind);
      }
    }
  }

  /** Queueing an action is that input: behind the others, or refused when eight are queued, which keeps those. */
  method PushAction(actions: ActionQueue, a: Action) returns (taken: bool)
    requires actions.Valid()
    modifies actions.queue, actions.queue.buffer
    ensures actions.Valid() && (taken <==> |old(actions.queue.contents)| < 8)
    ensures actions.queue.contents == old(actions.queue.contents) + if taken then [a] else []
    ensures forall m: Monitor, p: Params, validated: seq<Action> ::
              Robot(actions.queue.contents, 0, m, validated)
              == React(Robot(old(actions.queue.contents), 0, m, validated), p, Push(a))
  {
    taken := actions.queue.Push(a);
  }

  /** The two systems of a tick in name order: the validator sees the mask as the tick found it. */
  method RobotTick(actions: ActionQueue, monitor: FaultMonitorSystem, faultCount: nat, tick: nat)
    requires actions.Valid() && faultCount >= monitor.lastFaultCount
    modifies actions, actions.queue, actions.queue.buffer, actions.validated, monitor
    ensures actions.Valid() && monitor.lastFaultCount == faultCount
    ensures Robot(actions.queue.contents, 0, monitor.View(), actions.validated[..actions.validatedCount])
         == React(Robot(old(actions.queue.contents), faultCount - old(monitor.lastFaultCount), old(monitor.View()), []),
                  monitor.params, RunTick)
  {
    actions.Validate(monitor.mask, tick);
    monitor.Tick(faultCount);
  }
}
