/** The permission mask, the action queue and the validator that drains it. */
module Actions {
  import opened Bits
  import opened Bytes
  import opened BoundedQueue

  const IDLE: nat := 0
  const REGROUP: nat := 5
  const BUILTIN_MAX: nat := 31
  const CUSTOM: nat := 0x1000
  const CAPACITY: nat := 8

  /** An action: its type and whatever else it carries. */
  datatype Action = Action(kind: nat, payload: seq<byte>)

  datatype Mask = Mask(allowedBuiltins: nat, allowUserActions: bool) {
    predicate Allows(t: nat) {
      if t >= CUSTOM then allowUserActions
      else if t > BUILTIN_MAX then false
      else And(allowedBuiltins, Pow2(t)) != 0
    }
  }

  const DEFAULT_MASK: Mask := Mask(0xFFFF_FFFF, true)

  /** The mask of a degraded robot: the bits of two actions, no user actions. */
  const DEGRADED_MASK: Mask := Mask(Pow2(IDLE) + Pow2(REGROUP), false)

  /** A mask lets through exactly the built-ins whose bit is set, and user actions only by their flag. */
  lemma MaskMeaning(m: Mask, t: nat)
    ensures m.Allows(t) <==> if t < 32 then Bit(m.allowedBuiltins, t) else t >= 0x1000 && m.allowUserActions
  {
    if t < 32 {
      AndBit(m.allowedBuiltins, t);
    }
  }

  /** A degraded robot may only idle and regroup. */
  lemma DegradedAllows(t: nat)
    ensures DEGRADED_MASK.Allows(t) <==> t == 0 || t == 5
  {
    MaskMeaning(DEGRADED_MASK, t);
    if t < 32 {
      BitsOf33(t);
    }
  }

  lemma BitsOf33(t: nat)
    ensures Pow2(IDLE) + Pow2(REGROUP) == 33
    ensures Bit(33, t) <==> t == 0 || t == 5
  {
    assert Pow2(5) == 32 by { assert Pow2(3) == 8; }
    if t > 0 {
      assert Bit(33, t) == Bit(16, t - 1);
    }
    if t > 1 {
      assert Bit(16, t - 1) == Bit(8, t - 2);
    }
    if t > 2 {
      assert Bit(8, t - 2) == Bit(4, t - 3);
    }
    if t > 3 {
      assert Bit(4, t - 3) == Bit(2, t - 4);
    }
    if t > 4 {
      assert Bit(2, t - 4) == Bit(1, t - 5);
    }
    if t > 5 {
      assert Bit(1, t - 5) == Bit(0, t - 6);
      NoBits(t - 6);
    }
  }

  lemma {:induction false} NoBits(t: nat)
    ensures !Bit(0, t)
  {
    if t > 0 {
      NoBits(t - 1);
    }
  }

  /** The default mask forbids only the reserved range. */
  lemma DefaultAllows(t: nat)
    ensures DEFAULT_MASK.Allows(t) <==> t < 32 || t >= 0x1000
  {
    MaskMeaning(DEFAULT_MASK, t);
    if t < 32 {
      AllOnes(32, t);
      assert Pow2(32) - 1 == 0xFFFF_FFFF by {
        assert Pow2(8) == 256;
        assert Pow2(16) == 65536;
        assert Pow2(24) == 0x100_0000;
      }
    }
  }

  lemma {:induction false} AllOnes(n: nat, t: nat)
    requires t < n
    ensures Bit(Pow2(n) - 1, t)
  {
    assert Pow2(n) == 2 * Pow2(n - 1);
    if t > 0 {
      AllOnes(n - 1, t - 1);
      assert (Pow2(n) - 1) / 2 == Pow2(n - 1) - 1;
    }
  }

  // ------------------------------------------------------------------ the validator

  /** The allowed actions, in order. */
  function Filter(actions: seq<Action>, m: Mask): (kept: seq<Action>)
    ensures |kept| <= |actions|
    ensures forall a :: a in kept <==> a in actions && m.Allows(a.kind)
  {
    if actions == [] then []
    else if m.Allows(actions[0].kind) then [actions[0]] + Filter(actions[1..], m)
    else Filter(actions[1..], m)
  }

  lemma FilterOne(x: Action, m: Mask)
    ensures Filter([x], m) == if m.Allows(x.kind) then [x] else []
  {
    hide Mask.Allows;
    assert [x][1..] == [] && Filter([], m) == [];
  }

  /** Filtering keeps the order: what is queued later comes later, each action judged for itself. */
  lemma {:induction false} FilterConcat(a: seq<Action>, b: seq<Action>, m: Mask)
    ensures Filter(a + b, m) == Filter(a, m) + Filter(b, m)
    ensures forall x :: Filter([x], m) == if m.Allows(x.kind) then [x] else []
  {
    hide Mask.Allows;
    forall x ensures Filter([x], m) == if m.Allows(x.kind) then [x] else [] {
      FilterOne(x, m);
    }
    if a == [] {
      assert a + b == b;
    } else {
      assert (a + b)[0] == a[0] && (a + b)[1..] == a[1..] + b;
      FilterConcat(a[1..], b, m);
      assert [a[0]] + (Filter(a[1..], m) + Filter(b, m)) == [a[0]] + Filter(a[1..], m) + Filter(b, m);
    }
  }

  class ActionQueue {
    const queue: BoundedQueue<Action>
    const validated: array<Action>
    var validatedCount: nat
    var rejections: nat
    var lastRejectionTick: nat

    ghost predicate Valid()
      reads this, queue, queue.buffer, validated
    {
      && queue.Valid() && queue.policy == DropNewest && queue.buffer.Length == CAPACITY
      && validated.Length == CAPACITY && validated != queue.buffer && validatedCount <= CAPACITY
    }

    constructor ()
      ensures Valid() && queue.contents == [] && validatedCount == 0 && rejections == 0 && lastRejectionTick == 0
      ensures fresh(queue) && fresh(queue.buffer) && fresh(validated)
    {
      var q := new BoundedQueue<Action>(CAPACITY, DropNewest);
      queue := q;
      validated := new Action[CAPACITY](i => Action(IDLE, []));
      validatedCount, rejections, lastRejectionTick := 0, 0, 0;
    }

    /**
     * Drains the queue: the allowed actions in the order they were queued, every other one counted.
     * The guard on the validated buffer never drops an allowed action.
     */
    method Validate(m: Mask, tick: nat)
      requires Valid()
      modifies this, queue, queue.buffer, validated
      ensures Valid() && queue.contents == []
      ensures validated[..validatedCount] == Filter(old(queue.contents), m)
      ensures validatedCount + (rejections - old(rejections)) == |old(queue.contents)| <= 8
      ensures lastRejectionTick == if rejections > old(rejections) then tick else old(lastRejectionTick)
    {
      ghost var queued, rejected, before := queue.contents, rejections, lastRejectionTick;
      assert |queued| <= 8;
      hide BoundedQueue.Valid, Mask.Allows, Underway, Filter;
      validatedCount := 0;
      var popped := First(m, tick);
      while popped.Some?
        invariant Underway(popped, queued, m, tick, rejected, before)
        decreases |Left(popped)|
      {
        popped := Next(popped.value, m, tick, queued, rejected, before);
      }
      DrainingEnds(queued, m, tick, rejected, before);
    }

    /** What was popped last and what is still queued. */
    ghost function Left(popped: Option<Action>): seq<Action>
      reads queue
    {
      if popped.Some? then [popped.value] + queue.contents else []
    }

    ghost predicate Underway(
      popped: Option<Action>, queued: seq<Action>, m: Mask, tick: nat, rejected: nat, before: nat)
      reads this, queue, queue.buffer, validated
    {
      && Valid() && Draining(queued, Left(popped), m, tick, rejected, before)
      && (popped.None? ==> queue.contents == [])
    }

    method First(m: Mask, tick: nat) returns (popped: Option<Action>)
      requires Valid() && validatedCount == 0 && |queue.contents| <= 8
      modifies queue
      ensures Underway(popped, old(queue.contents), m, tick, rejections, lastRejectionTick)
    {
      hide BoundedQueue.Valid, Mask.Allows, Draining, Filter;
      DrainingStarts(queue.contents, m, tick);
      popped := queue.Pop();
      assert Left(popped) == old(queue.contents);
    }

    /** The body of the loop: one action judged, the next one popped. */
    method Next(a: Action, m: Mask, tick: nat, ghost queued: seq<Action>, ghost rejected: nat, ghost before: nat)
      returns (popped: Option<Action>)
      requires Underway(Some(a), queued, m, tick, rejected, before)
      modifies queue, this`validatedCount, this`rejections, this`lastRejectionTick, validated
      ensures Underway(popped, queued, m, tick, rejected, before)
      ensures |Left(popped)| < |old(Left(Some(a)))|
    {
      hide BoundedQueue.Valid, Mask.Allows, Draining, Filter;
      ghost var left := queue.contents;
      Consider(a, m, tick, queued, left, rejected, before);
      popped := queue.Pop();
      assert Left(popped) == left;
    }

    /** What is left of the queued actions to consider, and what became of the others. */
    ghost predicate Draining(queued: seq<Action>, left: seq<Action>, m: Mask, tick: nat, rejected: nat, before: nat)
      reads this, validated
    {
      && validatedCount <= validated.Length && rejections >= rejected
      && validatedCount + (rejections - rejected) + |left| == |queued| <= CAPACITY
      && validated[..validatedCount] + Filter(left, m) == Filter(queued, m)
      && lastRejectionTick == if rejections > rejected then tick else before
    }

    lemma DrainingStarts(queued: seq<Action>, m: Mask, tick: nat)
      requires validatedCount == 0 && |queued| <= CAPACITY
      ensures Draining(queued, queued, m, tick, rejections, lastRejectionTick)
    {
      hide Filter;
      assert validated[..0] + Filter(queued, m) == Filter(queued, m);
    }

    lemma DrainingEnds(queued: seq<Action>, m: Mask, tick: nat, rejected: nat, before: nat)
      requires Underway(None, queued, m, tick, rejected, before)
      ensures Valid() && queue.contents == []
      ensures validated[..validatedCount] == Filter(queued, m)
      ensures validatedCount + (rejections - rejected) == |queued|
      ensures lastRejectionTick == if rejections > rejected then tick else before
    {
      assert validated[..validatedCount] + [] == validated[..validatedCount];
    }

    /** Keeps an allowed action, counts any other. */
    method Consider(a: Action, m: Mask, tick: nat,
                    ghost queued: seq<Action>, ghost left: seq<Action>, ghost rejected: nat, ghost before: nat)
      requires Valid() && Draining(queued, [a] + left, m, tick, rejected, before)
      modifies this`validatedCount, this`rejections, this`lastRejectionTick, validated
      ensures Valid() && Draining(queued, left, m, tick, rejected, before)
    {
      hide BoundedQueue.Valid, Mask.Allows, Filter;
      FilterStep(validated[..validatedCount], a, left, m);
      if m.Allows(a.kind) {
        if validatedCount < CAPACITY {
          validated[validatedCount] := a;
          validatedCount := validatedCount + 1;
        }
      } else {
        rejections := rejections + 1;
        lastRejectionTick := tick;
      }
    }

    static lemma FilterStep(done: seq<Action>, a: Action, rest: seq<Action>, m: Mask)
      ensures done + Filter([a] + rest, m) == (if m.Allows(a.kind) then done + [a] else done) + Filter(rest, m)
    {
      hide Mask.Allows;
      assert ([a] + rest)[1..] == rest;
    }
  }
}
