/** The bounded ring queue and its three overflow policies. */
module BoundedQueue {
  import opened Bytes

  datatype Policy = DropOldest | DropNewest | FaultTrigger

  /** Slot i behind head in a ring of n. */
  function SlotAt(head: nat, i: nat, n: nat): (slot: nat)
    requires head < n && i < n
    ensures slot < n
  {
    if head + i < n then head + i else head + i - n
  }

  /** The next slot round the ring. */
  function NextIndex(i: nat, n: nat): (j: nat)
    requires i < n
    ensures j == if i + 1 == n then 0 else i + 1
  {
    (i + 1) % n
  }

  /** The slots from head on hold the items in order. */
  ghost predicate Ring<T>(slots: seq<T>, head: nat, items: seq<T>) {
    && head < |slots| && |items| <= |slots|
    && forall i | 0 <= i < |items| :: slots[SlotAt(head, i, |slots|)] == items[i]
  }

  /** The slot an item is pushed to. */
  function TailOf(head: nat, size: nat, n: nat): (tail: nat)
    requires head < n && size <= n
    ensures tail < n
  {
    if size == n then head else SlotAt(head, size, n)
  }

  lemma RingPush<T>(slots: seq<T>, head: nat, items: seq<T>, item: T)
    requires Ring(slots, head, items) && |items| < |slots|
    ensures var tail := TailOf(head, |items|, |slots|);
            Ring(slots[tail := item], head, items + [item])
            && NextIndex(tail, |slots|) == TailOf(head, |items| + 1, |slots|)
  {
  }

  lemma RingPop<T>(slots: seq<T>, head: nat, items: seq<T>)
    requires Ring(slots, head, items) && items != []
    ensures slots[head] == items[0] && Ring(slots, NextIndex(head, |slots|), items[1..])
    ensures TailOf(NextIndex(head, |slots|), |items| - 1, |slots|) == TailOf(head, |items|, |slots|)
  {
    assert slots[SlotAt(head, 0, |slots|)] == items[0];
    forall i | 0 <= i < |items| - 1
      ensures slots[SlotAt(NextIndex(head, |slots|), i, |slots|)] == items[1..][i]
    {
      assert SlotAt(NextIndex(head, |slots|), i, |slots|) == SlotAt(head, i + 1, |slots|);
    }
  }

  /** In a full ring the slot behind the newest item is the oldest one's. */
  lemma Overwrite<T>(slots: seq<T>, head: nat, items: seq<T>, item: T)
    requires Ring(slots, head, items) && |items| == |slots|
    ensures var tail := TailOf(head, |items|, |slots|);
            Ring(slots[tail := item], NextIndex(head, |slots|), items[1..] + [item])
            && NextIndex(tail, |slots|) == TailOf(NextIndex(head, |slots|), |slots|, |slots|)
  {
    RingPop(slots, head, items);
    var next := NextIndex(head, |slots|);
    RingPush(slots, next, items[1..], item);
    assert TailOf(next, |items| - 1, |slots|) == head;
  }

  class BoundedQueue<T(0)> {
    const buffer: array<T>
    const policy: Policy
    var head: nat
    var tail: nat
    var size: nat
    var droppedCount: nat
    var overflowEvents: nat
    ghost var contents: seq<T>
    ghost var accepted: seq<T>
    ghost var gone: seq<T>
    ghost var attempts: nat
    ghost var pops: nat

    /**
     * The ring holds the contents from head on; what was accepted has left in order or is still held;
     * an overflow costs one item, the oldest held or the one offered.
     */
    ghost predicate Valid()
      reads this, buffer
    {
      var n := buffer.Length;
      && head < n && Ring(buffer[..], head, contents) && size == |contents| <= n
      && tail == TailOf(head, size, n)
      && accepted == gone + contents
      && overflowEvents == droppedCount
      && attempts == |accepted| + (if policy == DropOldest then 0 else droppedCount)
      && |gone| == pops + (if policy == DropOldest then droppedCount else 0)
    }

    constructor (n: nat, policy: Policy)
      requires n > 0
      ensures Valid() && fresh(buffer) && buffer.Length == n && this.policy == policy
      ensures contents == [] && attempts == 0 && pops == 0 && droppedCount == 0
    {
      buffer := new T[n];
      this.policy := policy;
      head, tail, size, droppedCount, overflowEvents := 0, 0, 0, 0, 0;
      contents, accepted, gone, attempts, pops := [], [], [], 0, 0;
    }

    /** Every attempted push is accounted for: popped, still held or dropped. */
    lemma Conserved()
      requires Valid()
      ensures attempts == pops + size + droppedCount
    {
      assert |accepted| == |gone| + |contents|;
    }

    method Push(item: T) returns (taken: bool)
      requires Valid()
      modifies this`head, this`tail, this`size, this`droppedCount, this`overflowEvents, buffer
      modifies this`contents, this`accepted, this`gone, this`attempts
      ensures Valid() && attempts == old(attempts) + 1
      ensures old(size) < buffer.Length ==>
                taken && contents == old(contents) + [item] && droppedCount == old(droppedCount) && gone == old(gone)
      ensures old(size) == buffer.Length && policy == DropOldest ==>
                && taken && contents == old(contents)[1..] + [item]
                && droppedCount == old(droppedCount) + 1 && gone == old(gone) + [old(contents)[0]]
      ensures old(size) == buffer.Length && policy != DropOldest ==>
                && !taken && contents == old(contents)
                && droppedCount == old(droppedCount) + 1 && gone == old(gone)
    {
      hide Ring, TailOf, NextIndex;
      attempts := attempts + 1;
      if size == buffer.Length {
        overflowEvents := overflowEvents + 1;
        droppedCount := droppedCount + 1;
        if policy == DropOldest {
          Overwrite(buffer[..], head, contents, item);
          Evicted(gone, contents, item);
          buffer[tail] := item;
          tail := NextIndex(tail, buffer.Length);
          head := NextIndex(head, buffer.Length);
          gone, contents, accepted := gone + [contents[0]], contents[1..] + [item], accepted + [item];
          return true;
        }
        return false;
      }
      RingPush(buffer[..], head, contents, item);
      Held(gone, contents, item);
      buffer[tail] := item;
      tail := NextIndex(tail, buffer.Length);
      size := size + 1;
      contents, accepted := contents + [item], accepted + [item];
      taken := true;
    }

    static lemma Evicted(gone: seq<T>, contents: seq<T>, item: T)
      requires contents != []
      ensures gone + contents + [item] == (gone + [contents[0]]) + (contents[1..] + [item])
    {
    }

    static lemma Held(gone: seq<T>, contents: seq<T>, item: T)
      ensures gone + contents + [item] == gone + (contents + [item])
    {
    }

    method Pop() returns (item: Option<T>)
      requires Valid()
      modifies this`head, this`size, this`contents, this`gone, this`pops
      ensures Valid() && droppedCount == old(droppedCount)
      ensures old(contents) == [] ==> item == None && contents == [] && gone == old(gone)
      ensures old(contents) != [] ==>
                && item == Some(old(contents)[0]) && contents == old(contents)[1..]
                && gone == old(gone) + [old(contents)[0]]
    {
      if size == 0 {
        return None;
      }
      hide Ring, TailOf, NextIndex;
      RingPop(buffer[..], head, contents);
      item := Some(buffer[head]);
      head := NextIndex(head, buffer.Length);
      size := size - 1;
      assert accepted == gone + [contents[0]] + contents[1..];
      gone, contents, pops := gone + [contents[0]], contents[1..], pops + 1;
    }
  }
}
