/**
 Serialisability: systems that touch only what they declare leave, under every interleaving of their
 micro-steps that keeps conflicting systems in name order, the state of the sequential tick, and take as
 many micro-steps.
 */
module Serialisability {
  import opened Bytes
  import opened HazardGraph
  import opened Scheduler

  /** The registry and the World resources; an absent location is an absent component. */
  type Store<V> = map<Location, V>

  /** A system's tick as a machine over the shared store and private state L, which is init when the tick begins. */
  datatype System<!L(!new), !V(!new)> = System(
    descriptor: Descriptor,
    init: L,
    step: (L, Store<V>) -> (L, Store<V>),
    halted: L -> bool)

  datatype Config<L, V> = Config(locals: seq<L>, store: Store<V>)

  ghost predicate SameAt<V(!new)>(s: Store<V>, s': Store<V>, x: Location) {
    (x in s <==> x in s') && (x in s ==> s[x] == s'[x])
  }

  ghost predicate Agree<V(!new)>(s: Store<V>, s': Store<V>, xs: set<Location>) {
    forall x | x in xs :: SameAt(s, s', x)
  }

  /** The system changes only what it declares it writes, and what it does depends only on what it declares. */
  ghost predicate Confined<L(!new), V(!new)>(sys: System<L, V>) {
    && (forall l: L, s: Store<V>, x :: x !in sys.descriptor.Writes() ==> SameAt(s, sys.step(l, s).1, x))
    && (forall l: L, s: Store<V>, s': Store<V> :: Agree(s, s', sys.descriptor.Touches()) ==>
          sys.step(l, s).0 == sys.step(l, s').0 && Agree(sys.step(l, s).1, sys.step(l, s').1, sys.descriptor.Writes()))
  }

  ghost predicate AllConfined<L(!new), V(!new)>(systems: seq<System<L, V>>) {
    forall i | 0 <= i < |systems| :: Confined(systems[i])
  }

  ghost function Descriptors<L(!new), V(!new)>(systems: seq<System<L, V>>): seq<Descriptor> {
    seq(|systems|, i requires 0 <= i < |systems| => systems[i].descriptor)
  }

  ghost predicate Halted<L(!new), V(!new)>(systems: seq<System<L, V>>, i: nat, c: Config<L, V>) {
    i < |systems| && i < |c.locals| && systems[i].halted(c.locals[i])
  }

  /** One micro-step of system i; a halted system stays as it is. */
  ghost function Step<L(!new), V(!new)>(systems: seq<System<L, V>>, i: nat, c: Config<L, V>): (c': Config<L, V>)
    ensures |c'.locals| == |c.locals|
    ensures forall j | 0 <= j < |c.locals| && j != i :: c'.locals[j] == c.locals[j]
  {
    if i >= |systems| || i >= |c.locals| || systems[i].halted(c.locals[i]) then c
    else
      var (l, s) := systems[i].step(c.locals[i], c.store);
      Config(c.locals[i := l], s)
  }

  /** System i begins its tick: its private state is fresh. */
  ghost function Restarted<L(!new), V(!new)>(systems: seq<System<L, V>>, i: nat, c: Config<L, V>): (c': Config<L, V>)
    ensures |c'.locals| == |c.locals| && c'.store == c.store
  {
    if i >= |systems| || i >= |c.locals| then c else c.(locals := c.locals[i := systems[i].init])
  }

  /** No system has begun. */
  ghost predicate Unstarted<L(!new), V(!new)>(systems: seq<System<L, V>>, c: Config<L, V>) {
    |c.locals| == |systems| && forall i | 0 <= i < |systems| :: c.locals[i] == systems[i].init
  }

  ghost function Fold<L(!new), V(!new)>(
    systems: seq<System<L, V>>, events: seq<nat>, c: Config<L, V>): (c': Config<L, V>)
    ensures |c'.locals| == |c.locals|
  {
    if events == [] then c
    else Step(systems, events[|events| - 1], Fold(systems, events[..|events| - 1], c))
  }

  ghost predicate Independent<L(!new), V(!new)>(systems: seq<System<L, V>>, i: nat, j: nat) {
    i < |systems| && j < |systems| && i != j && !HaveHazard(systems[i].descriptor, systems[j].descriptor)
  }

  lemma IndependentLocations<L(!new), V(!new)>(systems: seq<System<L, V>>, i: nat, j: nat)
    requires Independent(systems, i, j)
    ensures systems[i].descriptor.Writes() !! systems[j].descriptor.Touches()
    ensures systems[j].descriptor.Writes() !! systems[i].descriptor.Touches()
  {
    HazardMeaning(systems[i].descriptor, systems[j].descriptor);
  }

  /** Micro-steps of systems without a hazard commute. */
  lemma StepsCommute<L(!new), V(!new)>(systems: seq<System<L, V>>, i: nat, j: nat, c: Config<L, V>)
    requires AllConfined(systems) && Independent(systems, i, j)
    ensures Step(systems, i, Step(systems, j, c)) == Step(systems, j, Step(systems, i, c))
  {
    if i < |c.locals| && j < |c.locals| && !Halted(systems, i, c) && !Halted(systems, j, c) {
      IndependentLocations(systems, i, j);
      var si, sj := systems[i], systems[j];
      var (li, s1) := si.step(c.locals[i], c.store);
      var (lj, s2) := sj.step(c.locals[j], c.store);
      StoresCommute(si, sj, c.locals[i], c.locals[j], c.store);
      assert c.locals[i := li][j := lj] == c.locals[j := lj][i := li];
    }
  }

  lemma StoresCommute<L(!new), V(!new)>(a: System<L, V>, b: System<L, V>, la: L, lb: L, s: Store<V>)
    requires Confined(a) && Confined(b)
    requires a.descriptor.Writes() !! b.descriptor.Touches() && b.descriptor.Writes() !! a.descriptor.Touches()
    ensures a.step(la, b.step(lb, s).1).0 == a.step(la, s).0
    ensures b.step(lb, a.step(la, s).1).0 == b.step(lb, s).0
    ensures a.step(la, b.step(lb, s).1).1 == b.step(lb, a.step(la, s).1).1
  {
    var sa, sb := a.step(la, s).1, b.step(lb, s).1;
    assert Agree(s, sb, a.descriptor.Touches()) && Agree(s, sa, b.descriptor.Touches());
    var sba, sab := a.step(la, sb).1, b.step(lb, sa).1;
    forall x ensures SameAt(sba, sab, x) {
      if x in a.descriptor.Writes() {
        assert SameAt(sa, sba, x) && SameAt(sa, sab, x);
      } else if x in b.descriptor.Writes() {
        assert SameAt(sb, sba, x) && SameAt(sb, sab, x);
      } else {
        assert SameAt(s, sa, x) && SameAt(s, sb, x) && SameAt(sb, sba, x) && SameAt(sa, sab, x);
      }
    }
    assert forall x :: x in sba <==> x in sab by {
      forall x ensures x in sba <==> x in sab {
        assert SameAt(sba, sab, x);
      }
    }
    assert forall x | x in sba :: sba[x] == sab[x] by {
      forall x | x in sba ensures sba[x] == sab[x] {
        assert SameAt(sba, sab, x);
      }
    }
  }

  ghost function Without(events: seq<nat>, m: nat): seq<nat> {
    if events == [] then []
    else Without(events[..|events| - 1], m) + (if events[|events| - 1] == m then [] else [events[|events| - 1]])
  }

  ghost function Only(events: seq<nat>, m: nat): seq<nat> {
    if events == [] then []
    else Only(events[..|events| - 1], m) + (if events[|events| - 1] == m then [m] else [])
  }

  lemma {:induction false} WithoutElements(events: seq<nat>, m: nat)
    ensures forall e :: e in Without(events, m) <==> e in events && e != m
  {
    if events != [] {
      var r, last := events[..|events| - 1], events[|events| - 1];
      WithoutElements(r, m);
      assert forall e :: e in events <==> e in r || e == last;
    }
  }

  /** A step of m slides in front of steps of systems m has no hazard with. */
  lemma {:induction false} SlideLeft<L(!new), V(!new)>(systems: seq<System<L, V>>, m: nat, w: seq<nat>, c: Config<L, V>)
    requires AllConfined(systems) && forall e | e in w :: Independent(systems, m, e)
    ensures Step(systems, m, Fold(systems, w, c)) == Fold(systems, w, Step(systems, m, c))
  {
    if w != [] {
      var r, last := w[..|w| - 1], w[|w| - 1];
      assert last in w && forall e | e in r :: e in w;
      SlideLeft(systems, m, r, c);
      StepsCommute(systems, m, last, Fold(systems, r, c));
    }
  }

  lemma FoldLast<L(!new), V(!new)>(systems: seq<System<L, V>>, r: seq<nat>, e: nat, c: Config<L, V>)
    ensures Fold(systems, r + [e], c) == Step(systems, e, Fold(systems, r, c))
  {
    assert (r + [e])[..|r|] == r;
  }

  /** Every system that ran before a step of m is independent of m. */
  ghost predicate Unblocked<L(!new), V(!new)>(systems: seq<System<L, V>>, m: nat, events: seq<nat>) {
    forall x, y | 0 <= x < y < |events| && events[x] != m && events[y] == m :: Independent(systems, m, events[x])
  }

  lemma UnblockedRest<L(!new), V(!new)>(systems: seq<System<L, V>>, m: nat, events: seq<nat>)
    requires events != [] && Unblocked(systems, m, events)
    ensures Unblocked(systems, m, events[..|events| - 1])
    ensures events[|events| - 1] == m ==>
              forall e | e in Without(events[..|events| - 1], m) :: Independent(systems, m, e)
  {
    var r, last := events[..|events| - 1], events[|events| - 1];
    if last == m {
      WithoutElements(r, m);
      forall e | e in Without(r, m) ensures Independent(systems, m, e) {
        var x :| 0 <= x < |r| && r[x] == e;
        assert events[x] == e && events[|events| - 1] == m;
      }
    }
  }

  /** All steps of m move to the front when every system that ran before one of them is independent of m. */
  lemma {:induction false} MoveToFront<L(!new), V(!new)>(
    systems: seq<System<L, V>>, m: nat, events: seq<nat>, c: Config<L, V>)
    requires AllConfined(systems) && Unblocked(systems, m, events)
    ensures Fold(systems, events, c) == Fold(systems, Without(events, m), Fold(systems, Only(events, m), c))
  {
    if events != [] {
      var r, last := events[..|events| - 1], events[|events| - 1];
      UnblockedRest(systems, m, events);
      hide Unblocked, AllConfined, Fold;
      MoveToFront(systems, m, r, c);
      var w, k := Without(r, m), Only(r, m);
      assert events == r + [last];
      FoldLast(systems, r, last, c);
      if last == m {
        SlideLeft(systems, m, w, Fold(systems, k, c));
        FoldLast(systems, k, m, c);
        assert Only(events, m) == k + [m] && Without(events, m) == w;
      } else {
        FoldLast(systems, w, last, Fold(systems, k, c));
        assert Only(events, m) == k && Without(events, m) == w + [last];
      }
    }
  }

  lemma {:induction false} OnlyElements(events: seq<nat>, m: nat)
    ensures forall e | e in Only(events, m) :: e == m
  {
    if events != [] {
      OnlyElements(events[..|events| - 1], m);
    }
  }

  lemma {:induction false} FoldKeepsLocal<L(!new), V(!new)>(
    systems: seq<System<L, V>>, w: seq<nat>, c: Config<L, V>, m: nat)
    requires m < |c.locals| && m !in w
    ensures Fold(systems, w, c).locals[m] == c.locals[m]
  {
    if w != [] {
      FoldKeepsLocal(systems, w[..|w| - 1], c, m);
    }
  }

  // ------------------------------------------------------------------ the sequential tick

  /** System i, run alone from c for k micro-steps. */
  ghost function Alone<L(!new), V(!new)>(
    systems: seq<System<L, V>>, i: nat, c: Config<L, V>, k: nat): (c': Config<L, V>)
    ensures |c'.locals| == |c.locals|
  {
    if k == 0 then c else Step(systems, i, Alone(systems, i, c, k - 1))
  }

  /** System i, begun in c and run alone, halts in c'. */
  ghost predicate RunsAlone<L(!new), V(!new)>(systems: seq<System<L, V>>, i: nat, c: Config<L, V>, c': Config<L, V>) {
    Halted(systems, i, c') && exists k: nat :: c' == Alone(systems, i, Restarted(systems, i, c), k)
  }

  /** The sequential tick: the systems listed in order run one after the other, each to its end. */
  ghost predicate SequentialTick<L(!new), V(!new)>(
    systems: seq<System<L, V>>, order: seq<nat>, c: Config<L, V>, c': Config<L, V>)
  {
    if order == [] then c' == c
    else exists mid :: RunsAlone(systems, order[0], c, mid) && SequentialTick(systems, order[1..], mid, c')
  }

  lemma {:induction false} HaltedIsFinal<L(!new), V(!new)>(
    systems: seq<System<L, V>>, i: nat, c: Config<L, V>, k: nat, l: nat)
    requires k <= l && Halted(systems, i, Alone(systems, i, c, k))
    ensures Alone(systems, i, c, l) == Alone(systems, i, c, k)
  {
    if k < l {
      HaltedIsFinal(systems, i, c, k, l - 1);
    }
  }

  lemma HaltsOnce<L(!new), V(!new)>(systems: seq<System<L, V>>, i: nat, c: Config<L, V>, k: nat, l: nat)
    requires Halted(systems, i, Alone(systems, i, c, k)) && Halted(systems, i, Alone(systems, i, c, l))
    ensures Alone(systems, i, c, k) == Alone(systems, i, c, l)
  {
    if k <= l {
      HaltedIsFinal(systems, i, c, k, l);
    } else {
      HaltedIsFinal(systems, i, c, l, k);
    }
  }

  /** The sequential tick has at most one outcome. */
  lemma {:induction false} SequentialTickDeterministic<L(!new), V(!new)>(
    systems: seq<System<L, V>>, order: seq<nat>, c: Config<L, V>, a: Config<L, V>, b: Config<L, V>)
    requires SequentialTick(systems, order, c, a) && SequentialTick(systems, order, c, b)
    ensures a == b
  {
    if order != [] {
      var i := order[0];
      var ma :| RunsAlone(systems, i, c, ma) && SequentialTick(systems, order[1..], ma, a);
      var mb :| RunsAlone(systems, i, c, mb) && SequentialTick(systems, order[1..], mb, b);
      var ka: nat :| ma == Alone(systems, i, Restarted(systems, i, c), ka);
      var kb: nat :| mb == Alone(systems, i, Restarted(systems, i, c), kb);
      HaltsOnce(systems, i, Restarted(systems, i, c), ka, kb);
      SequentialTickDeterministic(systems, order[1..], ma, a, b);
    }
  }

  /** System i, run alone from c, halts some time. */
  ghost predicate HaltsAlone<L(!new), V(!new)>(systems: seq<System<L, V>>, i: nat, c: Config<L, V>) {
    exists k: nat :: Halted(systems, i, Alone(systems, i, c, k))
  }

  ghost predicate AlwaysHalts<L(!new), V(!new)>(systems: seq<System<L, V>>) {
    forall i: nat, c: Config<L, V> | i < |systems| && |c.locals| == |systems| :: HaltsAlone(systems, i, c)
  }

  /** One system's tick, run to its end. */
  method RunSystem<L(!new), V(!new)>(systems: seq<System<L, V>>, i: nat, c: Config<L, V>) returns (c': Config<L, V>)
    requires i < |systems| == |c.locals| && HaltsAlone(systems, i, Restarted(systems, i, c))
    ensures RunsAlone(systems, i, c, c') && |c'.locals| == |c.locals|
  {
    ghost var begun := Restarted(systems, i, c);
    ghost var bound: nat :| Halted(systems, i, Alone(systems, i, begun, bound));
    c' := c.(locals := c.locals[i := systems[i].init]);
    ghost var k := 0;
    while !systems[i].halted(c'.locals[i])
      invariant k <= bound && c' == Alone(systems, i, begun, k) && |c'.locals| == |c.locals|
      decreases bound - k
    {
      var (l, store) := systems[i].step(c'.locals[i], c'.store);
      c', k := Config(c'.locals[i := l], store), k + 1;
    }
  }

  lemma {:induction false} SequentialThen<L(!new), V(!new)>(
    systems: seq<System<L, V>>, order: seq<nat>, i: nat, c: Config<L, V>, mid: Config<L, V>, c': Config<L, V>)
    requires SequentialTick(systems, order, c, mid) && RunsAlone(systems, i, mid, c')
    ensures SequentialTick(systems, order + [i], c, c')
  {
    if order == [] {
      assert ([i])[1..] == [] && [] + [i] == [i];
      assert SequentialTick(systems, [], c', c');
    } else {
      var first :| RunsAlone(systems, order[0], c, first) && SequentialTick(systems, order[1..], first, mid);
      SequentialThen(systems, order[1..], i, first, mid, c');
      assert (order + [i])[1..] == order[1..] + [i];
    }
  }

  /** The Sequential branch of a tick: every system in the resolved order. */
  method TickSequential<L(!new), V(!new)>(systems: seq<System<L, V>>, order: seq<nat>, c: Config<L, V>)
    returns (c': Config<L, V>)
    requires AlwaysHalts(systems) && |c.locals| == |systems| && forall k | 0 <= k < |order| :: order[k] < |systems|
    ensures SequentialTick(systems, order, c, c')
  {
    hide RunsAlone;
    c' := c;
    for k := 0 to |order|
      invariant SequentialTick(systems, order[..k], c, c') && |c'.locals| == |systems|
    {
      ghost var mid := c';
      c' := RunSystem(systems, order[k], c');
      SequentialThen(systems, order[..k], order[k], c, mid, c');
      assert order[..k + 1] == order[..k] + [order[k]];
    }
    assert order[..|order|] == order;
  }

  /** Systems that always halt have a sequential tick. */
  lemma {:induction false} SequentialTickExists<L(!new), V(!new)>(
    systems: seq<System<L, V>>, order: seq<nat>, c: Config<L, V>) returns (c': Config<L, V>)
    requires AlwaysHalts(systems) && |c.locals| == |systems| && forall i | i in order :: i < |systems|
    ensures SequentialTick(systems, order, c, c')
  {
    if order == [] {
      c' := c;
    } else {
      var i := order[0];
      assert i in order && forall e | e in order[1..] :: e in order;
      var begun := Restarted(systems, i, c);
      assert HaltsAlone(systems, i, begun);
      var k: nat :| Halted(systems, i, Alone(systems, i, begun, k));
      c' := SequentialTickExists(systems, order[1..], Alone(systems, i, begun, k));
    }
  }

  /** The first of the micro-steps up to k after which system i has halted. */
  ghost function FirstHalt<L(!new), V(!new)>(systems: seq<System<L, V>>, i: nat, c: Config<L, V>, k: nat): (n: nat)
    requires Halted(systems, i, Alone(systems, i, c, k))
    ensures Halted(systems, i, Alone(systems, i, c, n))
    ensures forall l: nat | l < n :: !Halted(systems, i, Alone(systems, i, c, l))
  {
    if k > 0 && Halted(systems, i, Alone(systems, i, c, k - 1)) then FirstHalt(systems, i, c, k - 1)
    else
      assert forall l: nat | l < k :: !Halted(systems, i, Alone(systems, i, c, l)) by {
        forall l: nat | l < k ensures !Halted(systems, i, Alone(systems, i, c, l)) {
          if Halted(systems, i, Alone(systems, i, c, l)) {
            HaltedIsFinal(systems, i, c, l, k - 1);
          }
        }
      }
      k
  }

  /** How many micro-steps system i takes alone from c. */
  ghost function Cost<L(!new), V(!new)>(systems: seq<System<L, V>>, i: nat, c: Config<L, V>): (n: nat)
    requires HaltsAlone(systems, i, c)
    ensures Halted(systems, i, Alone(systems, i, c, n))
    ensures forall l: nat | l < n :: !Halted(systems, i, Alone(systems, i, c, l))
  {
    var k: nat :| Halted(systems, i, Alone(systems, i, c, k));
    FirstHalt(systems, i, c, k)
  }

  /** How many micro-steps the sequential tick takes. */
  ghost function SequentialCost<L(!new), V(!new)>(systems: seq<System<L, V>>, order: seq<nat>, c: Config<L, V>): nat
    requires AlwaysHalts(systems) && |c.locals| == |systems| && forall i | i in order :: i < |systems|
  {
    if order == [] then 0
    else
      assert order[0] in order && forall i | i in order[1..] :: i in order;
      var begun := Restarted(systems, order[0], c);
      assert HaltsAlone(systems, order[0], begun);
      var n := Cost(systems, order[0], begun);
      n + SequentialCost(systems, order[1..], Alone(systems, order[0], begun, n))
  }

  // ------------------------------------------------------------------ interleavings

  lemma {:induction false} OnlyIsAlone<L(!new), V(!new)>(
    systems: seq<System<L, V>>, k: seq<nat>, m: nat, c: Config<L, V>)
    requires forall e | e in k :: e == m
    ensures Fold(systems, k, c) == Alone(systems, m, c, |k|)
  {
    if k != [] {
      var r := k[..|k| - 1];
      assert k[|k| - 1] in k;
      forall e | e in r ensures e == m {
        assert e in k;
      }
      OnlyIsAlone(systems, r, m, c);
    }
  }

  /** Conflicting systems' steps come in the order in which the systems are listed. */
  ghost predicate RespectsOrder<L(!new), V(!new)>(systems: seq<System<L, V>>, order: seq<nat>, events: seq<nat>)
  {
    forall x, y, p, q |
      0 <= x < y < |events| && 0 <= p < q < |order| && events[x] == order[q] && events[y] == order[p] ::
      Independent(systems, order[p], order[q])
  }

  lemma {:induction false} WithoutRespects<L(!new), V(!new)>(
    systems: seq<System<L, V>>, order: seq<nat>, events: seq<nat>, m: nat)
    requires RespectsOrder(systems, order, events)
    ensures RespectsOrder(systems, order, Without(events, m))
  {
    if events != [] {
      var r, last := events[..|events| - 1], events[|events| - 1];
      WithoutRespects(systems, order, r, m);
      WithoutElements(r, m);
      var w := Without(r, m);
      forall x, y, p, q | 0 <= x < y < |Without(events, m)| && 0 <= p < q < |order|
        && Without(events, m)[x] == order[q] && Without(events, m)[y] == order[p]
        ensures Independent(systems, order[p], order[q])
      {
        if y == |w| {
          assert w[x] in w;
          var x' :| 0 <= x' < |r| && r[x'] == w[x];
          assert events[x'] == order[q] && events[|events| - 1] == order[p];
        }
      }
    }
  }

  lemma RestRespects<L(!new), V(!new)>(systems: seq<System<L, V>>, order: seq<nat>, events: seq<nat>)
    requires order != [] && RespectsOrder(systems, order, events)
    ensures RespectsOrder(systems, order[1..], events)
  {
    var rest := order[1..];
    forall x, y, p, q | 0 <= x < y < |events| && 0 <= p < q < |rest| && events[x] == rest[q] && events[y] == rest[p]
      ensures Independent(systems, rest[p], rest[q])
    {
      assert rest[p] == order[p + 1] && rest[q] == order[q + 1];
    }
  }

  /** Systems that have not begun. */
  ghost predicate Fresh<L(!new), V(!new)>(systems: seq<System<L, V>>, order: seq<nat>, c: Config<L, V>) {
    |c.locals| == |systems| && forall i | i in order :: i < |systems| && c.locals[i] == systems[i].init
  }

  ghost predicate AllHalted<L(!new), V(!new)>(systems: seq<System<L, V>>, order: seq<nat>, c: Config<L, V>) {
    forall i | i in order :: Halted(systems, i, c)
  }

  ghost predicate Among(events: seq<nat>, order: seq<nat>) {
    forall k | 0 <= k < |events| :: events[k] in order
  }

  /** Micro-steps of the listed systems, none of them begun in c, that keep their order and leave them all halted. */
  ghost predicate Interleaving<L(!new), V(!new)>(
    systems: seq<System<L, V>>, order: seq<nat>, events: seq<nat>, c: Config<L, V>)
  {
    && AllConfined(systems) && Distinct(order) && Fresh(systems, order, c)
    && Among(events, order) && RespectsOrder(systems, order, events)
    && AllHalted(systems, order, Fold(systems, events, c))
  }

  lemma FirstIsFree<L(!new), V(!new)>(systems: seq<System<L, V>>, order: seq<nat>, events: seq<nat>)
    requires order != [] && RespectsOrder(systems, order, events) && Among(events, order)
    ensures Unblocked(systems, order[0], events)
  {
    forall x, y | 0 <= x < y < |events| && events[x] != order[0] && events[y] == order[0]
      ensures Independent(systems, order[0], events[x])
    {
      var q :| 0 <= q < |order| && order[q] == events[x];
    }
  }

  /** The first system in order can go first, alone and to its end. */
  lemma FirstGoesFirst<L(!new), V(!new)>(systems: seq<System<L, V>>, order: seq<nat>, events: seq<nat>, c: Config<L, V>)
    requires order != [] && Interleaving(systems, order, events, c)
    ensures var m := order[0];
            var (k, w) := (Only(events, m), Without(events, m));
            var mid := Fold(systems, k, c);
            && mid == Alone(systems, m, c, |k|) && Halted(systems, m, mid) && c == Restarted(systems, m, c)
            && Fold(systems, events, c) == Fold(systems, w, mid)
  {
    var m := order[0];
    var k, w := Only(events, m), Without(events, m);
    assert m in order;
    FirstIsFree(systems, order, events);
    MoveToFront(systems, m, events, c);
    OnlyElements(events, m);
    OnlyIsAlone(systems, k, m, c);
    WithoutElements(events, m);
    FoldKeepsLocal(systems, w, Fold(systems, k, c), m);
    assert c.locals[m := systems[m].init] == c.locals;
    hide RespectsOrder, AllConfined, Among, Unblocked;
  }

  /** The others have not begun when the first is through. */
  lemma OthersFresh<L(!new), V(!new)>(systems: seq<System<L, V>>, order: seq<nat>, k: seq<nat>, c: Config<L, V>)
    requires order != [] && Distinct(order) && Fresh(systems, order, c) && forall e | e in k :: e == order[0]
    ensures Distinct(order[1..]) && Fresh(systems, order[1..], Fold(systems, k, c))
  {
    forall i | i in order[1..] ensures i < |systems| && Fold(systems, k, c).locals[i] == systems[i].init {
      assert i in order && i != order[0];
      FoldKeepsLocal(systems, k, c, i);
    }
  }

  lemma OthersAmong(events: seq<nat>, order: seq<nat>)
    requires order != [] && Among(events, order)
    ensures Among(Without(events, order[0]), order[1..])
  {
    var w := Without(events, order[0]);
    WithoutElements(events, order[0]);
    forall k | 0 <= k < |w| ensures w[k] in order[1..] {
      assert w[k] in w && w[k] in events;
    }
  }

  lemma OthersHalted<L(!new), V(!new)>(systems: seq<System<L, V>>, order: seq<nat>, c: Config<L, V>)
    requires order != [] && AllHalted(systems, order, c)
    ensures AllHalted(systems, order[1..], c)
  {
    assert forall i | i in order[1..] :: i in order;
  }

  /** What is left is an interleaving of the others. */
  lemma OthersInterleave<L(!new), V(!new)>(
    systems: seq<System<L, V>>, order: seq<nat>, events: seq<nat>, c: Config<L, V>)
    requires order != [] && Interleaving(systems, order, events, c)
    ensures Interleaving(systems, order[1..], Without(events, order[0]), Fold(systems, Only(events, order[0]), c))
  {
    var m := order[0];
    FirstGoesFirst(systems, order, events, c);
    OnlyElements(events, m);
    OthersFresh(systems, order, Only(events, m), c);
    OthersAmong(events, order);
    WithoutRespects(systems, order, events, m);
    RestRespects(systems, order, Without(events, m));
    OthersHalted(systems, order, Fold(systems, events, c));
    hide RespectsOrder, AllConfined, Fold, Only, Without, Alone, Restarted, Halted, Fresh, Among, AllHalted, Distinct;
  }

  /** Any order-respecting interleaving in which every system halts is the sequential tick. */
  lemma {:induction false} InterleavingIsSequential<L(!new), V(!new)>(
    systems: seq<System<L, V>>, order: seq<nat>, events: seq<nat>, c: Config<L, V>)
    requires Interleaving(systems, order, events, c)
    ensures SequentialTick(systems, order, c, Fold(systems, events, c))
  {
    if order == [] {
    } else {
      var m := order[0];
      FirstGoesFirst(systems, order, events, c);
      OthersInterleave(systems, order, events, c);
      hide Interleaving;
      var mid := Fold(systems, Only(events, m), c);
      assert RunsAlone(systems, m, c, mid);
      InterleavingIsSequential(systems, order[1..], Without(events, m), mid);
    }
  }

  // ------------------------------------------------------------------ the number of micro-steps

  /** No system steps once it has halted. */
  ghost predicate Productive<L(!new), V(!new)>(systems: seq<System<L, V>>, events: seq<nat>, c: Config<L, V>) {
    events == [] ||
    (var r := events[..|events| - 1];
     Productive(systems, r, c) && !Halted(systems, events[|events| - 1], Fold(systems, r, c)))
  }

  lemma ProductiveThen<L(!new), V(!new)>(systems: seq<System<L, V>>, events: seq<nat>, e: nat, c: Config<L, V>)
    requires Productive(systems, events, c) && !Halted(systems, e, Fold(systems, events, c))
    ensures Productive(systems, events + [e], c)
  {
    assert (events + [e])[..|events|] == events;
  }

  lemma {:induction false} ProductiveSlide<L(!new), V(!new)>(
    systems: seq<System<L, V>>, m: nat, w: seq<nat>, c: Config<L, V>)
    requires AllConfined(systems) && (forall e | e in w :: Independent(systems, m, e))
    requires Productive(systems, w, c) && |c.locals| == |systems|
    ensures Productive(systems, w, Step(systems, m, c))
  {
    if w != [] {
      var r, last := w[..|w| - 1], w[|w| - 1];
      assert last in w && forall e | e in r :: e in w;
      hide AllConfined;
      ProductiveSlide(systems, m, r, c);
      SlideLeft(systems, m, r, c);
    }
  }

  /** Moving the steps of m to the front wastes none. */
  lemma {:induction false} ProductiveSplit<L(!new), V(!new)>(
    systems: seq<System<L, V>>, m: nat, events: seq<nat>, c: Config<L, V>)
    requires AllConfined(systems) && |c.locals| == |systems| && m < |systems| && Unblocked(systems, m, events)
    requires Productive(systems, events, c)
    ensures Productive(systems, Only(events, m), c)
    ensures Productive(systems, Without(events, m), Fold(systems, Only(events, m), c))
    ensures |events| == |Only(events, m)| + |Without(events, m)|
  {
    if events != [] {
      var r, last := events[..|events| - 1], events[|events| - 1];
      var w, k := Without(r, m), Only(r, m);
      UnblockedRest(systems, m, events);
      hide Unblocked, AllConfined;
      ProductiveSplit(systems, m, r, c);
      MoveToFront(systems, m, r, c);
      if last == m {
        hide Productive;
        OwnStepFirst(systems, m, r, c);
        assert Only(events, m) == k + [m] && Without(events, m) == w;
      } else {
        ProductiveThen(systems, w, last, Fold(systems, k, c));
        assert Only(events, m) == k && Without(events, m) == w + [last];
      }
    }
  }

  lemma OwnStepFirst<L(!new), V(!new)>(systems: seq<System<L, V>>, m: nat, r: seq<nat>, c: Config<L, V>)
    requires AllConfined(systems) && |c.locals| == |systems| && m < |systems|
    requires var (k, w) := (Only(r, m), Without(r, m));
             && Productive(systems, k, c) && Productive(systems, w, Fold(systems, k, c))
             && Fold(systems, r, c) == Fold(systems, w, Fold(systems, k, c)) && !Halted(systems, m, Fold(systems, r, c))
             && forall e | e in w :: Independent(systems, m, e)
    ensures var (k, w) := (Only(r, m), Without(r, m));
            Productive(systems, k + [m], c) && Productive(systems, w, Fold(systems, k + [m], c))
  {
    hide AllConfined, Independent;
    var k, w := Only(r, m), Without(r, m);
    var mid := Fold(systems, k, c);
    WithoutElements(r, m);
    FoldKeepsLocal(systems, w, mid, m);
    ProductiveThen(systems, k, m, c);
    ProductiveSlide(systems, m, w, mid);
    FoldLast(systems, k, m, c);
  }

  lemma {:induction false} ProductiveAlone<L(!new), V(!new)>(
    systems: seq<System<L, V>>, k: seq<nat>, m: nat, c: Config<L, V>, l: nat)
    requires (forall e | e in k :: e == m) && Productive(systems, k, c) && l < |k|
    ensures !Halted(systems, m, Alone(systems, m, c, l))
  {
    var r := k[..|k| - 1];
    assert k[|k| - 1] in k && forall e | e in r :: e in k;
    if l == |r| {
      OnlyIsAlone(systems, r, m, c);
    } else {
      ProductiveAlone(systems, r, m, c, l);
    }
  }

  /** Such an interleaving takes exactly as many micro-steps as the sequential tick. */
  lemma {:induction false} InterleavingCost<L(!new), V(!new)>(
    systems: seq<System<L, V>>, order: seq<nat>, events: seq<nat>, c: Config<L, V>)
    requires AlwaysHalts(systems) && Interleaving(systems, order, events, c) && Productive(systems, events, c)
    ensures |events| == SequentialCost(systems, order, c)
  {
    if order == [] {
    } else {
      var m := order[0];
      assert m in order;
      var k, w := Only(events, m), Without(events, m);
      FirstGoesFirst(systems, order, events, c);
      OthersInterleave(systems, order, events, c);
      FirstIsFree(systems, order, events);
      ProductiveSplit(systems, m, events, c);
      OnlyElements(events, m);
      forall l: nat | l < |k| ensures !Halted(systems, m, Alone(systems, m, c, l)) {
        ProductiveAlone(systems, k, m, c, l);
      }
      assert HaltsAlone(systems, m, c) && Cost(systems, m, c) == |k|;
      InterleavingCost(systems, order[1..], w, Fold(systems, k, c));
    }
  }
}
