/** The binary trace sink: a byte ring of fixed-size frames with its counters. */
module TraceRing {
  import opened Bytes
  import opened Bits
  import opened TraceFrame

  const WORD := 0x1_0000_0000_0000_0000

  /** The largest power of two not above n, for n a 64-bit size; 1 for 0. */
  method FloorPow2(n: nat) returns (p: nat, ghost k: nat)
    requires n < WORD
    ensures p == Pow2(k) && (if n == 0 then p == 1 else p <= n < 2 * p)
  {
    if n == 0 {
      return 1, 0;
    }
    p, k := 1, 0;
    while p * 2 % WORD > p && p * 2 % WORD <= n
      invariant p == Pow2(k) && p <= n
      decreases n - p
    {
      p, k := p * 2 % WORD, k + 1;
    }
    if p * 2 >= WORD {
      assert p * 2 % WORD == p * 2 - WORD;
    }
  }

  /** The slot of the i-th oldest of size frames, when head is the next slot to write. */
  function SlotOf(head: nat, capacity: nat, size: nat, i: nat): (slot: nat)
    requires head < capacity && i < size <= capacity
    ensures slot < capacity
  {
    (head + capacity - size + i) % capacity
  }

  lemma SlotOnce(head: nat, capacity: nat, size: nat, i: nat)
    requires head < capacity && i < size <= capacity
    ensures var at := head + capacity - size + i;
            SlotOf(head, capacity, size, i) == if at >= capacity then at - capacity else at
  {
    var at := head + capacity - size + i;
    if at >= capacity {
      Unique(at, capacity, 1, at - capacity);
    } else {
      Unique(at, capacity, 0, at);
    }
  }

  /** Writing at head keeps every frame but the evicted one in its slot, and the new one comes last. */
  lemma SlotsAdvance(head: nat, capacity: nat, size: nat, i: nat)
    requires head < capacity && size <= capacity
    requires i < if size == capacity then capacity else size + 1
    ensures var size', evicted := if size == capacity then capacity else size + 1, if size == capacity then 1 else 0;
            var slot := SlotOf((head + 1) % capacity, capacity, size', i);
            if i == size' - 1 then slot == head
            else slot == SlotOf(head, capacity, size, i + evicted) && slot != head
  {
    var size', evicted := if size == capacity then capacity else size + 1, if size == capacity then 1 else 0;
    if head + 1 == capacity {
      Unique(head + 1, capacity, 1, 0);
    } else {
      Unique(head + 1, capacity, 0, head + 1);
    }
    SlotOnce((head + 1) % capacity, capacity, size', i);
    if i < size' - 1 {
      SlotOnce(head, capacity, size, i + evicted);
    }
    hide SlotOf;
  }

  /** The bytes of one slot. */
  ghost function FrameAt(ring: seq<byte>, slot: nat): seq<byte>
    requires FRAME_BYTES * slot + FRAME_BYTES <= |ring|
  {
    ring[FRAME_BYTES * slot..FRAME_BYTES * slot + FRAME_BYTES]
  }

  /** The slots up to head hold the frames of held, oldest first. */
  ghost predicate Window(ring: seq<byte>, capacity: nat, head: nat, held: seq<seq<byte>>) {
    && |ring| == FRAME_BYTES * capacity && head < capacity && |held| <= capacity
    && forall i | 0 <= i < |held| :: FrameAt(ring, SlotOf(head, capacity, |held|, i)) == held[i]
  }

  /** Overwriting the slot at head moves the window on by one frame. */
  lemma WindowAdvances(before: seq<byte>, after: seq<byte>, capacity: nat, head: nat, held: seq<seq<byte>>)
    requires Window(before, capacity, head, held) && |after| == |before|
    requires forall j | 0 <= j < |after| && !(FRAME_BYTES * head <= j < FRAME_BYTES * head + FRAME_BYTES) ::
               after[j] == before[j]
    ensures Window(after, capacity, (head + 1) % capacity,
                   (if |held| == capacity then held[1..] else held) + [FrameAt(after, head)])
  {
    hide SlotOf;
    var evicted := if |held| == capacity then 1 else 0;
    var held' := (if |held| == capacity then held[1..] else held) + [FrameAt(after, head)];
    forall i | 0 <= i < |held'|
      ensures FrameAt(after, SlotOf((head + 1) % capacity, capacity, |held'|, i)) == held'[i]
    {
      SlotsAdvance(head, capacity, |held|, i);
      if i < |held'| - 1 {
        var slot := SlotOf(head, capacity, |held|, i + evicted);
        assert FrameAt(before, slot) == held[i + evicted] == held'[i];
        assert FrameAt(after, slot) == FrameAt(before, slot);
      }
    }
  }

  /** Forgetting the oldest frame leaves the window of the others. */
  lemma WindowPops(ring: seq<byte>, capacity: nat, head: nat, held: seq<seq<byte>>)
    requires Window(ring, capacity, head, held) && held != []
    ensures Window(ring, capacity, head, held[1..])
  {
    assert |held[1..]| == |held| - 1;
    forall i | 0 <= i < |held| - 1
      ensures FrameAt(ring, SlotOf(head, capacity, |held| - 1, i)) == held[1..][i]
    {
      assert SlotOf(head, capacity, |held| - 1, i) == SlotOf(head, capacity, |held|, i + 1);
    }
  }

  // ------------------------------------------------------------------ the sink

  class BinaryTraceSink {
    const buffer: array<byte>
    const capacity: nat
    const mask: nat
    ghost const exponent: nat
    var head: nat
    var size: nat
    var wallSeq: nat
    var dropped: nat
    var totalEmits: nat
    ghost var log: seq<seq<byte>>
    ghost var popped: nat
    ghost var cleared: nat

    ghost predicate Shaped()
      reads this
    {
      && capacity == Pow2(exponent) && mask == capacity - 1
      && buffer.Length == FRAME_BYTES * capacity
      && head < capacity && size <= capacity && size <= |log|
    }

    /** What the sink holds: the newest frames ever emitted, oldest first. */
    ghost function Contents(): (frames: seq<seq<byte>>)
      requires size <= |log|
      reads this
      ensures |frames| == size
    {
      log[|log| - size..]
    }

    /** The bytes in the ring are the contents, and every emit is accounted for. */
    ghost predicate Valid()
      reads this, buffer
    {
      && Shaped()
      && Window(buffer[..], capacity, head, Contents())
      && wallSeq == totalEmits == |log| == size + dropped + popped + cleared
      && AllNumbered(log)
    }

    static ghost predicate AllNumbered(log: seq<seq<byte>>) {
      forall i | 0 <= i < |log| :: Numbered(log[i], i)
    }

    /** A frame carries its sequence number in its first eight bytes. */
    static ghost predicate Numbered(frame: seq<byte>, i: nat) {
      |frame| == FRAME_BYTES && FromLittleEndian(frame[..8]) == i % Power256(8)
    }

    constructor (requested: nat)
      requires requested < WORD
      ensures Valid() && log == [] && fresh(buffer)
      ensures if requested == 0 then capacity == 1 else capacity <= requested < 2 * capacity
    {
      var p, k := FloorPow2(if requested == 0 then 1 else requested);
      capacity, mask, exponent := p, p - 1, k;
      buffer := new byte[FRAME_BYTES * p](i => 0);
      head, size, wallSeq, dropped, totalEmits := 0, 0, 0, 0, 0;
      log, popped, cleared := [], 0, 0;
    }

    /** The oldest held frame, whose number is the next one less the number of frames held. */
    method PeekOldest() returns (frame: Option<seq<byte>>)
      requires Valid()
      ensures size == 0 ==> frame == None
      ensures size > 0 ==> frame == Some(Contents()[0]) && frame.value == log[wallSeq - size]
      ensures size > 0 ==> FromLittleEndian(frame.value[..8]) == (wallSeq - size) % Power256(8)
    {
      if size == 0 {
        return None;
      }
      hide And, Pow2, FromLittleEndian, Power256;
      MaskIsRemainder(head + capacity - size, exponent);
      var oldest := And(head + capacity - size, mask);
      frame := Some(buffer[FRAME_BYTES * oldest..FRAME_BYTES * oldest + FRAME_BYTES]);
      assert oldest == SlotOf(head, capacity, size, 0);
      assert frame.value == FrameAt(buffer[..], oldest);
      assert Numbered(log[wallSeq - size], wallSeq - size);
    }

    method PopOldest() returns (popped: bool)
      requires Valid()
      modifies this`size, this`popped
      ensures Valid() && popped == (old(size) > 0)
      ensures Contents() == if popped then old(Contents())[1..] else old(Contents())
    {
      if size == 0 {
        return false;
      }
      WindowPops(buffer[..], capacity, head, Contents());
      size := size - 1;
      this.popped := this.popped + 1;
      popped := true;
      assert Contents() == old(Contents())[1..];
    }

    /** Empties the ring; the counters keep running. */
    method Clear()
      requires Valid()
      modifies this`head, this`size, this`cleared
      ensures Valid() && Contents() == [] && head == 0
    {
      cleared := cleared + size;
      head, size := 0, 0;
    }

    /** The frame at an offset of the buffer holds done and zeros behind it. */
    ghost predicate Written(at: nat, done: seq<byte>)
      reads buffer
    {
      at + FRAME_BYTES <= buffer.Length && |done| <= FRAME_BYTES
      && buffer[at..at + FRAME_BYTES] == Padded(done, FRAME_BYTES)
    }

    method Blank(at: nat)
      requires at + FRAME_BYTES <= buffer.Length
      modifies buffer
      ensures Written(at, [])
      ensures forall j | 0 <= j < buffer.Length && !(at <= j < at + FRAME_BYTES) :: buffer[j] == old(buffer[j])
    {
      for i := 0 to FRAME_BYTES
        invariant forall j | at <= j < at + i :: buffer[j] == 0
        invariant forall j | 0 <= j < buffer.Length && !(at <= j < at + FRAME_BYTES) :: buffer[j] == old(buffer[j])
      {
        buffer[at + i] := 0;
      }
    }

    /** Copies data to position p of a frame, at or behind what is written there already. */
    method Put(at: nat, p: nat, data: seq<byte>, ghost done: seq<byte>)
      requires Written(at, done) && |done| <= p && p + |data| <= FRAME_BYTES
      modifies buffer
      ensures Written(at, Padded(done, p) + data)
      ensures forall j | 0 <= j < buffer.Length && !(at <= j < at + FRAME_BYTES) :: buffer[j] == old(buffer[j])
    {
      ghost var start, frame := at + p, buffer[at..at + FRAME_BYTES];
      for i := 0 to |data|
        invariant forall j | 0 <= j < buffer.Length && !(start <= j < start + i) :: buffer[j] == old(buffer[j])
        invariant forall j | 0 <= j < i :: buffer[start + j] == data[j]
      {
        buffer[at + p + i] := data[i];
      }
      Overlaid(frame, buffer[at..at + FRAME_BYTES], done, p, data);
    }

    static lemma Overlaid(before: seq<byte>, after: seq<byte>, done: seq<byte>, p: nat, data: seq<byte>)
      requires |before| == |after| == FRAME_BYTES && |done| <= p && p + |data| <= FRAME_BYTES
      requires before == Padded(done, FRAME_BYTES)
      requires forall j | 0 <= j < FRAME_BYTES && !(p <= j < p + |data|) :: after[j] == before[j]
      requires forall j | 0 <= j < |data| :: after[p + j] == data[j]
      ensures after == Padded(Padded(done, p) + data, FRAME_BYTES)
    {
      var whole := Padded(Padded(done, p) + data, FRAME_BYTES);
      forall j | 0 <= j < FRAME_BYTES
        ensures after[j] == whole[j]
      {
        if p <= j < p + |data| {
          assert after[p + (j - p)] == data[j - p];
        }
      }
    }

    method PutField(at: nat, p: nat, f: Field, ghost done: seq<byte>)
      requires Written(at, done) && |done| == p && p + FIELD_BYTES <= FRAME_BYTES
      modifies buffer
      ensures Written(at, done + FieldBytes(f))
      ensures forall j | 0 <= j < buffer.Length && !(at <= j < at + FRAME_BYTES) :: buffer[j] == old(buffer[j])
    {
      hide KindCode, ValueBytes;
      var key, value := StoredKey(f.key), ValueBytes(f.value);
      Put(at, p, [KindCode(f.value), |key|], done);
      ghost var lead := Padded(done, p) + [KindCode(f.value), |key|];
      Put(at, p + 2, key, lead);
      ghost var keyed := Padded(lead, p + 2) + key;
      Put(at, p + 8, value, keyed);
      FieldLaidOut(done, f);
    }

    static lemma FieldLaidOut(done: seq<byte>, f: Field)
      requires |done| + FIELD_BYTES <= FRAME_BYTES
      ensures var p, key := |done|, StoredKey(f.key);
              var lead := Padded(done, p) + [KindCode(f.value), |key|];
              var keyed := Padded(lead, p + 2) + key;
              Padded(Padded(keyed, p + 8) + ValueBytes(f.value), FRAME_BYTES) ==
              Padded(done + FieldBytes(f), FRAME_BYTES)
    {
      hide KindCode, ValueBytes;
      var p, key, value := |done|, StoredKey(f.key), ValueBytes(f.value);
      var lead := Padded(done, p) + [KindCode(f.value), |key|];
      assert Padded(done, p) == done && Padded(lead, p + 2) == lead;
      var keyed := lead + key;
      assert Padded(keyed, p + 8) == done + ([KindCode(f.value), |key|] + Padded(key, MAX_KEY_BYTES));
      assert Padded(Padded(keyed, p + 8) + value, FRAME_BYTES) == Padded(done + FieldBytes(f), FRAME_BYTES);
    }

    /** Writes a whole frame. */
    method WriteFrame(at: nat, seqno: nat, level: Level, event: seq<byte>, fields: seq<Field>)
      requires at + FRAME_BYTES <= buffer.Length
      modifies buffer
      ensures buffer[at..at + FRAME_BYTES] == FrameBytes(seqno, level, event, fields)
      ensures forall j | 0 <= j < buffer.Length && !(at <= j < at + FRAME_BYTES) :: buffer[j] == old(buffer[j])
    {
      hide FieldBytes, LittleEndian, Padded;
      var name, kept := StoredName(event), StoredFields(event, fields);
      Blank(at);
      ghost var done := [];
      Put(at, 0, LittleEndian(seqno, 8), done);
      PaddedFully(done);
      done := done + LittleEndian(seqno, 8);
      Put(at, 8, [LevelCode(level)], done);
      PaddedFully(done);
      done := done + [LevelCode(level)];
      Put(at, 9, [|kept|], done);
      PaddedFully(done);
      done := done + [|kept|];
      Put(at, 10, LittleEndian(|name|, 2), done);
      PaddedFully(done);
      done := done + LittleEndian(|name|, 2);
      assert done == Header(seqno, level, event, fields);
      Put(at, HEADER_BYTES, name, done);
      PaddedFully(done);
      done := done + name;
      WriteFields(at, HEADER_BYTES + |name|, kept, done);
      assert done + FieldsBytes(kept) == Body(seqno, level, event, fields);
    }

    static lemma PaddedFully(s: seq<byte>)
      ensures Padded(s, |s|) == s
    {
    }

    method WriteFields(at: nat, p: nat, kept: seq<Field>, ghost done: seq<byte>)
      requires Written(at, done) && |done| == p && p + FIELD_BYTES * |kept| <= FRAME_BYTES
      modifies buffer
      ensures Written(at, done + FieldsBytes(kept))
      ensures forall j | 0 <= j < buffer.Length && !(at <= j < at + FRAME_BYTES) :: buffer[j] == old(buffer[j])
    {
      hide FieldBytes, Padded;
      var q := p;
      assert done + [] == done && kept[..|kept|] == kept;
      for i := 0 to |kept|
        invariant q == p + FIELD_BYTES * i
        invariant Written(at, done + FieldsBytes(kept[..i]))
        invariant forall j | 0 <= j < buffer.Length && !(at <= j < at + FRAME_BYTES) :: buffer[j] == old(buffer[j])
      {
        PutField(at, q, kept[i], done + FieldsBytes(kept[..i]));
        assert kept[..i + 1][..i] == kept[..i];
        assert done + FieldsBytes(kept[..i]) + FieldBytes(kept[i]) == done + FieldsBytes(kept[..i + 1]);
        q := q + FIELD_BYTES;
      }
    }

    /** Takes the slot at head, evicting the oldest frame of a full ring. */
    method Reserve() returns (slot: nat)
      requires Shaped()
      modifies this`head, this`size, this`dropped, this`totalEmits
      ensures slot == old(head) && head == (old(head) + 1) % capacity
      ensures totalEmits == old(totalEmits) + 1
      ensures old(size) == capacity ==> size == old(size) && dropped == old(dropped) + 1
      ensures old(size) < capacity ==> size == old(size) + 1 && dropped == old(dropped)
    {
      hide And, Pow2;
      assert head % capacity == head by { Unique(head, capacity, 0, head); }
      MaskIsRemainder(head, exponent);
      MaskIsRemainder(head + 1, exponent);
      totalEmits := totalEmits + 1;
      if size == capacity {
        dropped := dropped + 1;
      } else {
        size := size + 1;
      }
      slot := And(head, mask);
      head := And(head + 1, mask);
    }

    /** Traces one event: appended to what was ever emitted, evicting the oldest frame of a full ring. */
    method Emit(level: Level, event: seq<byte>, fields: seq<Field>)
      requires Valid()
      modifies this`head, this`size, this`wallSeq, this`dropped, this`totalEmits, this`log, buffer
      ensures Valid()
      ensures level == Off ==> log == old(log) && Contents() == old(Contents()) && dropped == old(dropped)
      ensures level != Off ==> log == old(log) + [FrameBytes(old(wallSeq), level, event, fields)]
      ensures level != Off ==>
                Contents() == (if old(size) == capacity then old(Contents())[1..] else old(Contents()))
                              + log[|log| - 1..]
      ensures level != Off ==> dropped == old(dropped) + if old(size) == capacity then 1 else 0
    {
      hide FrameBytes, Window, Pow2, And, AllNumbered;
      if level == Off {
        return;
      }
      ghost var frame, ring, held := FrameBytes(wallSeq, level, event, fields), buffer[..], Contents();
      var slot := Reserve();
      SlotFits(slot);
      WriteFrame(FRAME_BYTES * slot, wallSeq, level, event, fields);
      AppendNumbered(log, level, event, fields);
      log := log + [frame];
      wallSeq := wallSeq + 1;
      WindowAdvances(ring, buffer[..], capacity, slot, held);
      assert Contents() == (if |held| == capacity then held[1..] else held) + [frame];
    }

    lemma SlotFits(slot: nat)
      requires slot < capacity && buffer.Length == FRAME_BYTES * capacity
      ensures FRAME_BYTES * slot + FRAME_BYTES <= buffer.Length
    {
    }

    static lemma AppendNumbered(log: seq<seq<byte>>, level: Level, event: seq<byte>, fields: seq<Field>)
      requires AllNumbered(log)
      ensures AllNumbered(log + [FrameBytes(|log|, level, event, fields)])
    {
      hide FrameBytes, Numbered;
      FrameNumbered(|log|, level, event, fields);
    }

    static lemma FrameNumbered(seqno: nat, level: Level, event: seq<byte>, fields: seq<Field>)
      ensures Numbered(FrameBytes(seqno, level, event, fields), seqno)
    {
      hide FromLittleEndian, Power256, LittleEndian;
      var s := FrameBytes(seqno, level, event, fields);
      BodyFits(seqno, level, event, fields);
      LittleEndianRoundTrip(seqno, 8);
      assert s[..8] == LittleEndian(seqno, 8);
    }
  }
}
