/** The simulated radio bus: range-limited delivery through a grid rebuilt once per tick, directed messages, inboxes. */
module SimBus {
  import opened Grid
  import opened HazardGraph

  /** recipient is None for a broadcast (nil unit id). */
  datatype Packet = Beacon(body: nat) | Broadcast(body: nat) | Directed(recipient: nat, body: nat)

  datatype Participant = Participant(identity: nat, position: Position, beacons: seq<Packet>, messages: seq<Packet>)

  function Receive(p: Participant, packet: Packet): Participant {
    if packet.Beacon? then p.(beacons := p.beacons + [packet]) else p.(messages := p.messages + [packet])
  }

  /** Offset (dx, dy, dz) of the 27-cell scan comes after the cell c. */
  ghost predicate Scanned(c: Cell, centre: Cell, dz: int, dy: int, dx: int) {
    var ox, oy, oz := c.x - centre.x, c.y - centre.y, c.z - centre.z;
    Near(c, centre, 1) && (oz < dz || (oz == dz && (oy < dy || (oy == dy && ox < dx))))
  }

  ghost function Positions(participants: seq<Participant>): seq<Position> {
    seq(|participants|, i requires 0 <= i < |participants| => participants[i].position)
  }

  ghost function Cells(positions: seq<Position>, size: real): seq<Cell> {
    seq(|positions|, i requires 0 <= i < |positions| => CellFor(positions[i], size))
  }

  /** Who a plain scan of all participants would reach. */
  ghost predicate LinearRecipient(participants: seq<Participant>, range: real, from: nat, i: nat)
    requires from < |participants|
  {
    i < |participants| && i != from && Within(participants[i].position, participants[from].position, range)
  }

  /** Who the scan of the grid filed for the positions in stale reaches. */
  ghost predicate IndexedRecipient(participants: seq<Participant>, range: real, stale: seq<Position>, from: nat, i: nat)
    requires from < |participants|
  {
    && LinearRecipient(participants, range, from, i)
    && i < |stale|
    && Near(CellFor(stale[i], range), CellFor(participants[from].position, range), 1)
  }

  class SimBus {
    const range: real
    var participants: seq<Participant>
    var grid: Buckets
    var gridCellSize: real
    ghost var stale: seq<Position>   // the positions the grid was built from

    ghost predicate Valid()
      reads this
    {
      && |stale| <= |participants|
      && (gridCellSize == 0.0 || gridCellSize == range)
      && (if gridCellSize > 0.0 then IsIndex(grid, Cells(stale, range)) else grid == map[])
    }

    /** The grid path is taken; otherwise every participant is scanned. */
    ghost predicate Indexed()
      reads this
    {
      gridCellSize > 0.0 && grid != map[]
    }

    ghost predicate Recipient(from: nat, i: nat)
      requires from < |participants|
      reads this
    {
      if Indexed() then IndexedRecipient(participants, range, stale, from, i)
      else LinearRecipient(participants, range, from, i)
    }

    constructor (range: real)
      ensures Valid() && this.range == range && participants == [] && !Indexed()
    {
      this.range := range;
      participants, grid, gridCellSize, stale := [], map[], 0.0, [];
    }

    method CreateWorld(identity: nat, position: Position)
      requires Valid()
      modifies this`participants
      ensures Valid() && participants == old(participants) + [Participant(identity, position, [], [])]
    {
      participants := participants + [Participant(identity, position, [], [])];
    }

    /** A world's tick moves its robot; the grid does not notice before the next rebuild. */
    method MoveParticipant(i: nat, position: Position)
      requires Valid() && i < |participants|
      modifies this`participants
      ensures Valid() && participants == old(participants)[i := old(participants)[i].(position := position)]
    {
      participants := participants[i := participants[i].(position := position)];
    }

    /** Files every participant under the cell of its present position. */
    method RebuildGrid()
      requires Valid()
      modifies this`grid, this`gridCellSize, this`stale
      ensures Valid() && gridCellSize == range
      ensures stale == Positions(participants)
    {
      gridCellSize := range;
      grid := map[];
      stale := Positions(participants);
      if gridCellSize <= 0.0 {
        return;
      }
      ghost var cells := Cells(stale, range);
      for i := 0 to |participants|
        invariant gridCellSize == range && stale == Positions(participants)
        invariant IsIndex(grid, cells[..i])
      {
        grid := FileUnder(grid, cells, i, participants[i].position);
      }
      assert cells[..|participants|] == cells;
    }

    method FileUnder(before: Buckets, ghost cells: seq<Cell>, i: nat, position: Position) returns (after: Buckets)
      requires i < |cells| && cells[i] == CellFor(position, gridCellSize) && IsIndex(before, cells[..i])
      ensures IsIndex(after, cells[..i + 1])
    {
      var cell := CellFor(position, gridCellSize);
      PushIndex(before, cells[..i], cell);
      assert cells[..i + 1] == cells[..i] + [cell];
      after := Push(before, cell, i);
    }

    /** Every inbox after a delivery: recipients got the packet once, nobody else got anything. */
    ghost predicate Delivered(before: seq<Participant>, packet: Packet, recipients: iset<nat>)
      reads this
    {
      && |participants| == |before|
      && forall i: nat | i < |before| ::
           participants[i] == if i in recipients then Receive(before[i], packet) else before[i]
    }

    /** Who is reached: the others in range by squared distance and, with the grid, filed next to the sender's cell. */
    ghost predicate Reached(from: nat, i: nat)
      requires from < |participants|
      reads this
    {
      && i < |participants| && i != from
      && (var p, q := participants[i].position, participants[from].position;
          (p.x - q.x) * (p.x - q.x) + (p.y - q.y) * (p.y - q.y) + (p.z - q.z) * (p.z - q.z) <= range * range)
      && (Indexed() ==>
            (i < |stale| &&
             var c, d := CellFor(stale[i], range), CellFor(participants[from].position, range);
             -1 <= c.x - d.x <= 1 && -1 <= c.y - d.y <= 1 && -1 <= c.z - d.z <= 1))
    }

    lemma RecipientsReached(from: nat)
      requires from < |participants|
      ensures (iset i: nat | Recipient(from, i)) == iset i: nat | Reached(from, i)
    {
      hide SimBus.Recipient, SimBus.Reached;
      forall i: nat ensures Recipient(from, i) <==> Reached(from, i) {
        RecipientReached(from, i);
      }
    }

    lemma RecipientReached(from: nat, i: nat)
      requires from < |participants|
      ensures Recipient(from, i) <==> Reached(from, i)
    {
      hide Within, CellFor;
      if i < |participants| {
        WithinMeaning(participants[i].position, participants[from].position, range);
      }
    }

    /** The range-filtered delivery that beacons and broadcast messages share. */
    method DeliverInRange(from: nat, packet: Packet)
      requires Valid() && from < |participants|
      modifies this`participants
      ensures Valid()
      ensures Delivered(old(participants), packet, iset i: nat | old(Reached(from, i)))
    {
      hide SimBus.Recipient, SimBus.Reached, SimBus.Valid, SimBus.Delivered;
      RecipientsReached(from);
      DeliverToRecipients(from, packet);
    }

    method DeliverToRecipients(from: nat, packet: Packet)
      requires Valid() && from < |participants|
      modifies this`participants
      ensures Valid()
      ensures Delivered(old(participants), packet, iset i: nat | old(Recipient(from, i)))
    {
      ghost var before := participants;
      if gridCellSize > 0.0 && grid != map[] {
        var centre := CellFor(participants[from].position, gridCellSize);
        var dz := -1;
        while dz <= 1
          invariant -1 <= dz <= 2
          invariant ScanDone(before, packet, from, dz, -1, -1)
        {
          DeliverPlane(before, from, packet, centre, dz);
          dz := dz + 1;
        }
      } else {
        for to := 0 to |participants|
          invariant Delivered(before, packet, iset i: nat | i < to && LinearRecipient(before, range, from, i))
        {
          if to != from && Within(participants[to].position, participants[from].position, range) {
            participants := participants[to := Receive(participants[to], packet)];
          }
        }
      }
    }

    ghost predicate ScanDone(before: seq<Participant>, packet: Packet, from: nat, dz: int, dy: int, dx: int)
      reads this
    {
      && from < |before| && |stale| <= |before|
      && Delivered(before, packet, iset i: nat |
           && i < |stale|
           && LinearRecipient(before, range, from, i)
           && Scanned(CellFor(stale[i], range), CellFor(before[from].position, range), dz, dy, dx))
    }

    method DeliverPlane(ghost before: seq<Participant>, from: nat, packet: Packet, centre: Cell, dz: int)
      requires Valid() && gridCellSize > 0.0 && from < |before| && -1 <= dz <= 1
      requires centre == CellFor(before[from].position, range)
      requires ScanDone(before, packet, from, dz, -1, -1)
      modifies this`participants
      ensures ScanDone(before, packet, from, dz + 1, -1, -1)
    {
      var dy := -1;
      while dy <= 1
        invariant -1 <= dy <= 2
        invariant ScanDone(before, packet, from, dz, dy, -1)
      {
        DeliverRow(before, from, packet, centre, dz, dy);
        dy := dy + 1;
      }
    }

    method DeliverRow(ghost before: seq<Participant>, from: nat, packet: Packet, centre: Cell, dz: int, dy: int)
      requires Valid() && gridCellSize > 0.0 && from < |before| && -1 <= dz <= 1 && -1 <= dy <= 1
      requires centre == CellFor(before[from].position, range)
      requires ScanDone(before, packet, from, dz, dy, -1)
      modifies this`participants
      ensures ScanDone(before, packet, from, dz, dy + 1, -1)
    {
      var dx := -1;
      while dx <= 1
        invariant -1 <= dx <= 2
        invariant ScanDone(before, packet, from, dz, dy, dx)
      {
        var key := Cell(centre.x + dx, centre.y + dy, centre.z + dz);
        ghost var done := iset i: nat | i < |stale| && LinearRecipient(before, range, from, i)
          && Scanned(CellFor(stale[i], range), centre, dz, dy, dx);
        DeliverBucket(before, done, from, packet, key);
        dx := dx + 1;
      }
    }

    method DeliverBucket(ghost before: seq<Participant>, ghost done: iset<nat>, from: nat, packet: Packet, key: Cell)
      requires Valid() && gridCellSize > 0.0 && from < |before|
      requires Delivered(before, packet, done)
      requires forall i | i in done :: i < |stale| && CellFor(stale[i], range) != key
      modifies this`participants
      ensures Delivered(before, packet, iset i: nat |
                i in done ||
                (i < |stale| && LinearRecipient(before, range, from, i) && CellFor(stale[i], range) == key))
    {
      ghost var cells := Cells(stale, range);
      if key in grid {
        var bucket := grid[key];
        for k := 0 to |bucket|
          invariant Delivered(before, packet,
              iset i: nat | i in done || (i in bucket[..k] && LinearRecipient(before, range, from, i)))
        {
          var to := bucket[k];
          assert Filed(grid, key, to) && cells[to] == key;
          if to != from && Within(participants[to].position, participants[from].position, range) {
            participants := participants[to := Receive(participants[to], packet)];
          }
        }
        assert bucket[..|bucket|] == bucket;
      }
      assert Delivered(before, packet,
                       iset i: nat | i in done || (Filed(grid, key, i) && LinearRecipient(before, range, from, i)));
      forall i: nat | i < |stale| ensures CellFor(stale[i], range) == key <==> Filed(grid, key, i) {
        assert Filed(grid, cells[i], i);
        assert cells[i] == CellFor(stale[i], range);
      }
      assert (iset i: nat | i in done || (Filed(grid, key, i) && LinearRecipient(before, range, from, i)))
          == (iset i: nat |
                i in done ||
                (i < |stale| && LinearRecipient(before, range, from, i) && CellFor(stale[i], range) == key)) by {
        forall i: nat | Filed(grid, key, i) ensures i < |stale| {
          assert cells[i] == key;
        }
      }
    }

    method DeliverBeacon(from: nat, body: nat)
      requires Valid()
      modifies this`participants
      ensures Valid()
      ensures from >= |old(participants)| ==> participants == old(participants)
      ensures from < |old(participants)| ==>
                |participants| == |old(participants)| && forall i: nat | i < |participants| ::
                  var p := old(participants)[i];
                  participants[i] == if old(Reached(from, i)) then p.(beacons := p.beacons + [Beacon(body)]) else p
    {
      hide SimBus.Reached, SimBus.Valid;
      if from < |participants| {
        DeliverInRange(from, Beacon(body));
      }
    }

    /** Broadcasts follow the range filter; a directed message goes to the first other participant of that identity. */
    method DeliverMessage(from: nat, packet: Packet)
      requires Valid() && !packet.Beacon?
      modifies this`participants
      ensures Valid()
      ensures from >= |old(participants)| ==> participants == old(participants)
      ensures from < |old(participants)| ==>
                |participants| == |old(participants)| && forall i: nat | i < |participants| ::
                  var p := old(participants)[i];
                  var reached := if packet.Broadcast? then old(Reached(from, i))
                                 else FirstNamed(old(participants), from, packet.recipient, i);
                  participants[i] == if reached then p.(messages := p.messages + [packet]) else p
    {
      hide SimBus.Reached;
      if from >= |participants| {
        return;
      }
      if packet.Broadcast? {
        DeliverInRange(from, packet);
        return;
      }
      for to := 0 to |participants|
        invariant forall i: nat | i < to && i != from :: participants[i].identity != packet.recipient
      {
        if to != from && participants[to].identity == packet.recipient {
          participants := participants[to := Receive(participants[to], packet)];
          return;
        }
      }
    }

    method DrainBeacons(i: nat) returns (out: seq<Packet>)
      requires Valid()
      modifies this`participants
      ensures Valid()
      ensures i >= |old(participants)| ==> out == [] && participants == old(participants)
      ensures i < |old(participants)| ==>
                out == old(participants)[i].beacons &&
                participants == old(participants)[i := old(participants)[i].(beacons := [])]
    {
      if i >= |participants| {
        return [];
      }
      out := participants[i].beacons;
      participants := participants[i := participants[i].(beacons := [])];
    }

    method DrainMessages(i: nat) returns (out: seq<Packet>)
      requires Valid()
      modifies this`participants
      ensures Valid()
      ensures i >= |old(participants)| ==> out == [] && participants == old(participants)
      ensures i < |old(participants)| ==>
                out == old(participants)[i].messages &&
                participants == old(participants)[i := old(participants)[i].(messages := [])]
    {
      if i >= |participants| {
        return [];
      }
      out := participants[i].messages;
      participants := participants[i := participants[i].(messages := [])];
    }
  }

  ghost predicate FirstNamed(participants: seq<Participant>, from: nat, identity: nat, i: nat) {
    && i < |participants| && i != from && participants[i].identity == identity
    && forall j: nat | j < i && j != from :: participants[j].identity != identity
  }

  // ------------------------------------------------------------------ from sender to inbox

  /** A beacon, delivered and then drained: a participant it reaches gets what it held and then the beacon. */
  method BeaconArrives(bus: SimBus, from: nat, to: nat, body: nat) returns (out: seq<Packet>)
    requires bus.Valid() && from < |bus.participants| && to < |bus.participants|
    modifies bus`participants
    ensures bus.Valid()
    ensures out == old(bus.participants)[to].beacons + if old(bus.Reached(from, to)) then [Beacon(body)] else []
    ensures |bus.participants| == |old(bus.participants)|
    ensures bus.participants[to] == old(bus.participants)[to].(beacons := [])
  {
    hide SimBus.Valid, SimBus.Reached;
    bus.DeliverBeacon(from, body);
    out := bus.DrainBeacons(to);
  }

  /** A message likewise, whichever way it is addressed. */
  method MessageArrives(bus: SimBus, from: nat, to: nat, packet: Packet) returns (out: seq<Packet>)
    requires bus.Valid() && from < |bus.participants| && to < |bus.participants| && !packet.Beacon?
    modifies bus`participants
    ensures bus.Valid()
    ensures var reached := if packet.Broadcast? then old(bus.Reached(from, to))
                           else FirstNamed(old(bus.participants), from, packet.recipient, to);
            out == old(bus.participants)[to].messages + if reached then [packet] else []
    ensures |bus.participants| == |old(bus.participants)|
    ensures bus.participants[to] == old(bus.participants)[to].(messages := [])
  {
    hide SimBus.Valid, SimBus.Reached;
    bus.DeliverMessage(from, packet);
    out := bus.DrainMessages(to);
  }

  // ------------------------------------------------------------------ what the stale grid still reaches

  lemma WithinMonotone(a: Position, b: Position, r: real, s: real)
    requires 0.0 <= r <= s && Within(a, b, r)
    ensures Within(a, b, s)
  {
    if r < s {
      SquareGrows(s, r);
    }
  }

  lemma OneCellSpan(range: real)
    requires range > 0.0
    ensures Ceil(range / range) == 1
  {
    assert range / range == 1.0;
    assert Ceil(1.0) == 1;
  }

  /**
   If a participant of the last rebuild has moved at most d along each axis since, it is reached whenever
   it is now within range - d of the sender.
   */
  lemma StaleGridReaches(participants: seq<Participant>, range: real, stale: seq<Position>, from: nat, i: nat, d: real)
    requires from < |participants| && i < |participants| && i < |stale| && i != from
    requires range > 0.0 && 0.0 <= d <= range
    requires CloseByAxis(participants[i].position, stale[i], d)
    requires Within(participants[i].position, participants[from].position, range - d)
    ensures IndexedRecipient(participants, range, stale, from, i)
  {
    var p, q := participants[i].position, participants[from].position;
    WithinMonotone(p, q, range - d, range);
    WithinMeansClose(p, q, range - d);
    assert CloseByAxis(stale[i], q, range);
    CloseMeansNear(stale[i], q, range, range);
    OneCellSpan(range);
  }

  /** Right after a rebuild the grid delivers to exactly the recipients of the plain scan. */
  lemma FreshGridIsLinear(participants: seq<Participant>, range: real, stale: seq<Position>, from: nat, i: nat)
    requires from < |participants| && range > 0.0
    requires stale == Positions(participants)
    ensures IndexedRecipient(participants, range, stale, from, i) <==> LinearRecipient(participants, range, from, i)
  {
    if LinearRecipient(participants, range, from, i) {
      StaleGridReaches(participants, range, stale, from, i, 0.0);
    }
  }

  /** Whatever the grid misses compared with the plain scan joined late or left its filed cell's neighbourhood. */
  lemma MissedOnlyIfFar(participants: seq<Participant>, range: real, stale: seq<Position>, from: nat, i: nat)
    requires from < |participants| && range > 0.0
    requires LinearRecipient(participants, range, from, i)
    ensures !IndexedRecipient(participants, range, stale, from, i) ==>
              i >= |stale| || !CloseByAxis(stale[i], participants[from].position, range)
  {
    if i < |stale| && CloseByAxis(stale[i], participants[from].position, range) {
      CloseMeansNear(stale[i], participants[from].position, range, range);
      OneCellSpan(range);
    }
  }

  /** A robot that raced in from afar since the rebuild is in range and is not reached. */
  lemma StaleGridCanMiss()
    ensures var participants := [Participant(1, Position(0.0, 0.0, 0.0), [], []),
                                 Participant(2, Position(40.0, 0.0, 0.0), [], [])];
            var stale := [Position(0.0, 0.0, 0.0), Position(120.0, 0.0, 0.0)];
            && LinearRecipient(participants, 50.0, 0, 1)
            && !IndexedRecipient(participants, 50.0, stale, 0, 1)
  {
    assert CellFor(Position(120.0, 0.0, 0.0), 50.0).x == 2 && CellFor(Position(0.0, 0.0, 0.0), 50.0).x == 0;
  }

  lemma NotItself(participants: seq<Participant>, range: real, stale: seq<Position>, from: nat)
    requires from < |participants|
    ensures !LinearRecipient(participants, range, from, from)
    ensures !IndexedRecipient(participants, range, stale, from, from)
  {
  }

  lemma IndexNotEmpty(grid: Buckets, cells: seq<Cell>)
    requires IsIndex(grid, cells) && cells != []
    ensures grid != map[]
  {
    assert Filed(grid, cells[0], 0);
  }

  /** That happens on a bus: the beacon of participant 0 does not reach participant 1, which is in range of it. */
  method StaleGridRun() returns (bus: SimBus)
    ensures fresh(bus) && bus.Valid() && bus.Indexed() && |bus.participants| == 2
    ensures LinearRecipient(bus.participants, bus.range, 0, 1) && !bus.Reached(0, 1)
    ensures bus.participants[1].beacons == []
  {
    hide IsIndex, LinearRecipient, IndexedRecipient, CellFor;
    bus := new SimBus(50.0);
    bus.CreateWorld(1, Position(0.0, 0.0, 0.0));
    bus.CreateWorld(2, Position(120.0, 0.0, 0.0));
    bus.RebuildGrid();
    IndexNotEmpty(bus.grid, Cells(bus.stale, 50.0));
    bus.MoveParticipant(1, Position(40.0, 0.0, 0.0));
    StaleGridCanMiss();
    assert bus.stale == [Position(0.0, 0.0, 0.0), Position(120.0, 0.0, 0.0)];
    assert bus.participants == [Participant(1, Position(0.0, 0.0, 0.0), [], []),
                                Participant(2, Position(40.0, 0.0, 0.0), [], [])];
    NotItself(bus.participants, 50.0, bus.stale, 0);
    assert !bus.Recipient(0, 1) && !bus.Recipient(0, 0);
    bus.RecipientReached(0, 1);
    bus.RecipientReached(0, 0);
    hide SimBus.Reached;
    ghost var before := bus.participants;
    bus.DeliverBeacon(0, 7);
    assert bus.participants[0] == before[0] && bus.participants[1] == before[1];
    assert bus.participants == before;
    bus.RecipientReached(0, 1);
  }
}
