/** The neighbour table: a list of the latest observations with a hash grid over their positions. */
module NeighbourTable {
  import opened Grid
  import opened HazardGraph

  /** A received state vector, as far as the table stores it; body stands for the fields it only copies. */
  datatype Observation = Observation(id: nat, position: Position, body: nat)

  datatype Entry = Entry(id: nat, position: Position, body: nat, lastSeen: real, rssi: real)

  ghost predicate UniqueIds(entries: seq<Entry>) {
    forall i, j | 0 <= i < j < |entries| :: entries[i].id != entries[j].id
  }

  ghost function Cells(entries: seq<Entry>, size: real): seq<Cell> {
    seq(|entries|, i requires 0 <= i < |entries| => CellFor(entries[i].position, size))
  }

  /** The entries not older than the threshold, in their old order. */
  ghost function Fresh(entries: seq<Entry>, threshold: real): seq<Entry> {
    if entries == [] then []
    else
      var last := entries[|entries| - 1];
      Fresh(entries[..|entries| - 1], threshold) + (if last.lastSeen < threshold then [] else [last])
  }

  lemma {:induction false} FreshElements(entries: seq<Entry>, threshold: real)
    ensures forall e :: e in Fresh(entries, threshold) <==> e in entries && e.lastSeen >= threshold
    ensures |Fresh(entries, threshold)| <= |entries|
    ensures |Fresh(entries, threshold)| == |entries| ==> Fresh(entries, threshold) == entries
    ensures UniqueIds(entries) ==> UniqueIds(Fresh(entries, threshold))
  {
    FreshMembers(entries, threshold);
    FreshLength(entries, threshold);
    FreshUnique(entries, threshold);
    hide Fresh, UniqueIds;
  }

  lemma FreshOne(e: Entry, threshold: real)
    ensures Fresh([], threshold) == []
    ensures Fresh([e], threshold) == if e.lastSeen >= threshold then [e] else []
  {
    assert [e][..0] == [];
  }

  lemma FreshNext(entries: seq<Entry>, e: Entry, threshold: real)
    ensures Fresh(entries + [e], threshold) == Fresh(entries, threshold) + Fresh([e], threshold)
  {
    FreshOne(e, threshold);
    assert (entries + [e])[..|entries|] == entries;
  }

  /** Ageing keeps the order: each entry is judged for itself. */
  lemma {:induction false} FreshConcat(a: seq<Entry>, b: seq<Entry>, threshold: real)
    ensures Fresh(a + b, threshold) == Fresh(a, threshold) + Fresh(b, threshold)
  {
    hide Fresh;
    if b == [] {
      FreshOne(Entry(0, Position(0.0, 0.0, 0.0), 0, 0.0, 0.0), threshold);
      assert a + b == a;
    } else {
      var init, last := b[..|b| - 1], b[|b| - 1];
      FreshConcat(a, init, threshold);
      FreshNext(init, last, threshold);
      FreshNext(a + init, last, threshold);
      assert b == init + [last];
      assert a + b == (a + init) + [last];
      Regroup(Fresh(a, threshold), Fresh(init, threshold), Fresh([last], threshold));
    }
  }

  lemma Regroup(a: seq<Entry>, b: seq<Entry>, c: seq<Entry>)
    ensures a + b + c == a + (b + c)
  {
  }

  lemma {:induction false} FreshMembers(entries: seq<Entry>, threshold: real)
    ensures forall e :: e in Fresh(entries, threshold) <==> e in entries && e.lastSeen >= threshold
  {
    if entries != [] {
      var r, last := entries[..|entries| - 1], entries[|entries| - 1];
      FreshMembers(r, threshold);
      assert entries == r + [last];
    }
  }

  lemma {:induction false} FreshLength(entries: seq<Entry>, threshold: real)
    ensures |Fresh(entries, threshold)| <= |entries|
    ensures |Fresh(entries, threshold)| == |entries| ==> Fresh(entries, threshold) == entries
  {
    if entries != [] {
      FreshLength(entries[..|entries| - 1], threshold);
    }
  }

  lemma {:induction false} FreshUnique(entries: seq<Entry>, threshold: real)
    ensures UniqueIds(entries) ==> UniqueIds(Fresh(entries, threshold))
  {
    if entries != [] && UniqueIds(entries) {
      var r, last := entries[..|entries| - 1], entries[|entries| - 1];
      FreshUnique(r, threshold);
      FreshMembers(r, threshold);
      var f := Fresh(r, threshold);
      forall k | 0 <= k < |f| ensures f[k].id != last.id {
        assert f[k] in f && f[k] in r;
      }
    }
  }

  method RemoveStale(entries: seq<Entry>, threshold: real) returns (kept: seq<Entry>)
    ensures kept == Fresh(entries, threshold)
  {
    kept := [];
    for i := 0 to |entries|
      invariant kept == Fresh(entries[..i], threshold)
    {
      assert entries[..i + 1][..i] == entries[..i];
      if !(entries[i].lastSeen < threshold) {
        kept := kept + [entries[i]];
      }
    }
    assert entries[..|entries|] == entries;
  }

  /** Cell c comes before offset (dx, dy, dz) in the scan around centre. */
  ghost predicate Scanned(c: Cell, centre: Cell, span: int, dz: int, dy: int, dx: int) {
    var ox, oy, oz := c.x - centre.x, c.y - centre.y, c.z - centre.z;
    Near(c, centre, span) && (oz < dz || (oz == dz && (oy < dy || (oy == dy && ox < dx))))
  }

  class NeighbourTable {
    var entries: seq<Entry>
    var grid: Buckets
    var cellSize: real
    var totalObservations: nat
    var totalEvictions: nat
    ghost var inserted: nat   // entries ever created
    ghost var cleared: nat    // entries dropped by Clear

    /** Ids are unique, the grid files every entry once under its own cell (or is off), every entry ever
        created is held, evicted or cleared. */
    ghost predicate Valid()
      reads this
    {
      && UniqueIds(entries)
      && cellSize >= 0.0
      && (if cellSize > 0.0 then IsIndex(grid, Cells(entries, cellSize)) else grid == map[])
      && inserted == |entries| + totalEvictions + cleared
      && inserted <= totalObservations
    }

    constructor ()
      ensures Valid() && entries == [] && cellSize == 5.0 && totalObservations == totalEvictions == 0
    {
      entries, grid, cellSize := [], map[], 5.0;
      totalObservations, totalEvictions := 0, 0;
      inserted, cleared := 0, 0;
    }

    method Find(id: nat) returns (k: nat)
      requires UniqueIds(entries)
      ensures k <= |entries|
      ensures k < |entries| ==> entries[k].id == id
      ensures k == |entries| ==> forall i | 0 <= i < |entries| :: entries[i].id != id
    {
      k := 0;
      while k < |entries| && entries[k].id != id
        invariant k <= |entries|
        invariant forall i | 0 <= i < k :: entries[i].id != id
      {
        k := k + 1;
      }
    }

    method RebuildGrid()
      requires cellSize >= 0.0
      modifies this`grid
      ensures if cellSize > 0.0 then IsIndex(grid, Cells(entries, cellSize)) else grid == map[]
    {
      grid := map[];
      if cellSize <= 0.0 {
        return;
      }
      for i := 0 to |entries|
        invariant IsIndex(grid, Cells(entries, cellSize)[..i])
      {
        PushIndex(grid, Cells(entries, cellSize)[..i], CellFor(entries[i].position, cellSize));
        assert Cells(entries, cellSize)[..i + 1]
            == Cells(entries, cellSize)[..i] + [CellFor(entries[i].position, cellSize)];
        grid := Push(grid, CellFor(entries[i].position, cellSize), i);
      }
      assert Cells(entries, cellSize)[..|entries|] == Cells(entries, cellSize);
    }

    /** Inserts or updates the entry of sv.id; every other entry and its place stay as they are. */
    method Upsert(sv: Observation, now: real, rssi: real)
      requires Valid()
      modifies this
      ensures Valid() && cellSize == old(cellSize)
      ensures totalObservations == old(totalObservations) + 1 && totalEvictions == old(totalEvictions)
      ensures var e := Entry(sv.id, sv.position, sv.body, now, rssi);
              && ((forall i | 0 <= i < |old(entries)| :: old(entries)[i].id != sv.id) ==> entries == old(entries) + [e])
              && (forall i | 0 <= i < |old(entries)| :: old(entries)[i].id == sv.id ==> entries == old(entries)[i := e])
    {
      var k := Find(sv.id);
      var e := Entry(sv.id, sv.position, sv.body, now, rssi);
      var cell := CellFor(sv.position, cellSize);
      if k == |entries| {
        PushWhenIndexed(cell);
        entries := entries + [e];
        if cellSize > 0.0 {
          grid := Push(grid, cell, k);
        }
        inserted := inserted + 1;
      } else {
        var previous := CellFor(entries[k].position, cellSize);
        MoveWhenIndexed(k, cell);
        assert Cells(entries[k := e], cellSize) == Cells(entries, cellSize)[k := cell];
        entries := entries[k := e];
        if cellSize > 0.0 && cell != previous {
          grid := Move(grid, previous, cell, k);
        } else {
          assert Cells(old(entries), cellSize)[k := cell] == Cells(old(entries), cellSize);
        }
      }
      totalObservations := totalObservations + 1;
    }

    lemma PushWhenIndexed(cell: Cell)
      requires Valid()
      ensures cellSize > 0.0 ==> IsIndex(Push(grid, cell, |entries|), Cells(entries, cellSize) + [cell])
      ensures forall e: Entry :: CellFor(e.position, cellSize) == cell ==>
                Cells(entries + [e], cellSize) == Cells(entries, cellSize) + [cell]
    {
      if cellSize > 0.0 {
        PushIndex(grid, Cells(entries, cellSize), cell);
      }
    }

    lemma MoveWhenIndexed(k: nat, cell: Cell)
      requires Valid() && k < |entries|
      ensures var previous := CellFor(entries[k].position, cellSize);
              cellSize > 0.0 && cell != previous ==>
                previous in grid && IsIndex(Move(grid, previous, cell, k), Cells(entries, cellSize)[k := cell])
    {
      if cellSize > 0.0 && cell != CellFor(entries[k].position, cellSize) {
        assert Filed(grid, Cells(entries, cellSize)[k], k);
        MoveIndex(grid, Cells(entries, cellSize), k, cell);
      }
    }

    /** Drops exactly the entries last seen before now - timeout and counts them as evicted. */
    method AgeOut(now: real, timeout: real)
      requires Valid()
      modifies this
      ensures Valid() && cellSize == old(cellSize)
      ensures entries == Fresh(old(entries), now - timeout)
      ensures totalEvictions == old(totalEvictions) + |old(entries)| - |entries|
      ensures totalObservations == old(totalObservations)
    {
      var threshold := now - timeout;
      var before := |entries|;
      FreshElements(entries, threshold);
      hide Fresh, IsIndex, UniqueIds;
      entries := RemoveStale(entries, threshold);
      var removed := before - |entries|;
      totalEvictions := totalEvictions + removed;
      if removed > 0 {
        RebuildGrid();
      }
    }

    method Clear()
      requires Valid()
      modifies this
      ensures Valid() && entries == [] && cellSize == old(cellSize)
      ensures totalObservations == old(totalObservations) && totalEvictions == old(totalEvictions)
    {
      cleared := cleared + |entries|;
      entries := [];
      grid := map[];
    }

    /** Sets the cell size (negative sizes disable the index) and refiles all entries. */
    method SetCellSize(size: real)
      requires Valid()
      modifies this`cellSize, this`grid
      ensures Valid() && cellSize == if size < 0.0 then 0.0 else size
    {
      cellSize := if size < 0.0 then 0.0 else size;
      RebuildGrid();
    }

    /** The entry at index i is within the query sphere. */
    ghost predicate Hit(centre: Position, radius: real, i: nat)
      reads this
    {
      i < |entries| && Within(entries[i].position, centre, radius)
    }

    /** The scan reaches the cell of entry i: always without the index, within the span with it. */
    ghost predicate Reached(centre: Position, radius: real, i: nat)
      requires i < |entries|
      reads this
    {
      cellSize <= 0.0 ||
      Near(CellFor(entries[i].position, cellSize), CellFor(centre, cellSize), Ceil(radius / cellSize))
    }

    /**
     The indices the query visits, in visiting order. For a radius that is not negative these are, through
     the grid as through the whole list, exactly the entries within the radius, each once.
     */
    method ForEachWithin(centre: Position, radius: real) returns (visited: seq<nat>)
      requires Valid()
      ensures Distinct(visited)
      ensures radius >= 0.0 ==> forall i: nat :: i in visited <==>
                i < |entries| &&
                var p := entries[i].position;
                (p.x - centre.x) * (p.x - centre.x) + (p.y - centre.y) * (p.y - centre.y)
                  + (p.z - centre.z) * (p.z - centre.z) <= radius * radius
      ensures forall i: nat :: i in visited <==> Hit(centre, radius, i) && Reached(centre, radius, i)
    {
      hide NeighbourTable.Hit, NeighbourTable.Reached, NeighbourTable.Valid;
      visited := Visit(centre, radius);
      if radius >= 0.0 {
        HitsMeaning(centre, radius, visited);
      }
    }

    method Visit(centre: Position, radius: real) returns (visited: seq<nat>)
      requires Valid()
      ensures Distinct(visited)
      ensures radius >= 0.0 ==> forall i: nat :: i in visited <==> Hit(centre, radius, i)
      ensures forall i: nat :: i in visited <==> Hit(centre, radius, i) && Reached(centre, radius, i)
    {
      if cellSize <= 0.0 || grid == map[] {
        visited := VisitAll(centre, radius);
        if cellSize > 0.0 {
          EmptyGrid();
        }
      } else {
        visited := VisitCells(centre, radius);
      }
      hide Within, CellFor, Near, Ceil;
      if radius >= 0.0 {
        HitsAreReached(centre, radius);
      }
    }

    lemma HitsMeaning(centre: Position, radius: real, visited: seq<nat>)
      requires forall i: nat :: i in visited <==> Hit(centre, radius, i)
      ensures forall i: nat :: i in visited <==>
                i < |entries| &&
                var p := entries[i].position;
                (p.x - centre.x) * (p.x - centre.x) + (p.y - centre.y) * (p.y - centre.y)
                  + (p.z - centre.z) * (p.z - centre.z) <= radius * radius
    {
      hide Within;
      forall i: nat | i < |entries| {
        WithinMeaning(entries[i].position, centre, radius);
      }
    }

    lemma EmptyGrid()
      requires Valid() && cellSize > 0.0 && grid == map[]
      ensures entries == []
    {
      var cells := Cells(entries, cellSize);
      assert |cells| > 0 ==> Filed(grid, cells[0], 0);
    }

    method VisitAll(centre: Position, radius: real) returns (visited: seq<nat>)
      ensures Distinct(visited)
      ensures forall i: nat :: i in visited <==> Hit(centre, radius, i)
    {
      visited := [];
      for i := 0 to |entries|
        invariant Distinct(visited)
        invariant forall j: nat :: j in visited <==> j < i && Hit(centre, radius, j)
      {
        assert i !in visited;
        if Within(entries[i].position, centre, radius) {
          visited := visited + [i];
        }
      }
    }

    method VisitCells(centre: Position, radius: real) returns (visited: seq<nat>)
      requires Valid() && cellSize > 0.0
      ensures Distinct(visited)
      ensures forall i: nat :: i in visited <==> Hit(centre, radius, i) && Reached(centre, radius, i)
    {
      visited := [];
      var centreCell := CellFor(centre, cellSize);
      var span := Ceil(radius / cellSize);
      var dz := -span;
      while dz <= span
        invariant -span <= dz && (span >= 0 ==> dz <= span + 1)
        invariant VisitedBefore(visited, centre, radius, centreCell, span, dz, -span, -span)
      {
        visited := VisitPlane(visited, centre, radius, centreCell, span, dz);
        dz := dz + 1;
      }
    }

    lemma HitsAreReached(centre: Position, radius: real)
      requires radius >= 0.0
      ensures forall i: nat | Hit(centre, radius, i) :: Reached(centre, radius, i)
    {
      forall i: nat | Hit(centre, radius, i) ensures Reached(centre, radius, i) {
        if cellSize > 0.0 {
          WithinMeansClose(entries[i].position, centre, radius);
          CloseMeansNear(entries[i].position, centre, radius, cellSize);
        }
      }
    }

    /** Visited so far: the hits whose cell comes before the offset in the scan, each once. */
    ghost predicate VisitedBefore(visited: seq<nat>, centre: Position, radius: real,
                                  c: Cell, span: int, dz: int, dy: int, dx: int)
      reads this
    {
      && Distinct(visited)
      && forall i: nat :: i in visited <==>
           Hit(centre, radius, i) && Scanned(CellFor(entries[i].position, cellSize), c, span, dz, dy, dx)
    }

    method VisitPlane(before: seq<nat>, centre: Position, radius: real, c: Cell, span: int, dz: int)
      returns (visited: seq<nat>)
      requires Valid() && cellSize > 0.0 && -span <= dz <= span
      requires VisitedBefore(before, centre, radius, c, span, dz, -span, -span)
      ensures VisitedBefore(visited, centre, radius, c, span, dz + 1, -span, -span)
    {
      visited := before;
      var dy := -span;
      while dy <= span
        invariant -span <= dy <= span + 1
        invariant VisitedBefore(visited, centre, radius, c, span, dz, dy, -span)
      {
        visited := VisitRow(visited, centre, radius, c, span, dz, dy);
        dy := dy + 1;
      }
    }

    method VisitRow(before: seq<nat>, centre: Position, radius: real, c: Cell, span: int, dz: int, dy: int)
      returns (visited: seq<nat>)
      requires Valid() && cellSize > 0.0 && -span <= dz <= span && -span <= dy <= span
      requires VisitedBefore(before, centre, radius, c, span, dz, dy, -span)
      ensures VisitedBefore(visited, centre, radius, c, span, dz, dy + 1, -span)
    {
      visited := before;
      var dx := -span;
      while dx <= span
        invariant -span <= dx <= span + 1
        invariant VisitedBefore(visited, centre, radius, c, span, dz, dy, dx)
      {
        var key := Cell(c.x + dx, c.y + dy, c.z + dz);
        visited := VisitBucket(visited, centre, radius, key);
        dx := dx + 1;
      }
    }

    method VisitBucket(before: seq<nat>, centre: Position, radius: real, key: Cell) returns (visited: seq<nat>)
      requires Valid() && cellSize > 0.0 && Distinct(before)
      requires forall i | i in before :: i < |entries| && CellFor(entries[i].position, cellSize) != key
      ensures Distinct(visited)
      ensures forall i: nat :: i in visited <==>
                i in before || (Hit(centre, radius, i) && CellFor(entries[i].position, cellSize) == key)
    {
      visited := before;
      ghost var cells := Cells(entries, cellSize);
      if key in grid {
        var bucket := grid[key];
        for k := 0 to |bucket|
          invariant Distinct(visited)
          invariant forall i: nat :: i in visited <==> i in before || (i in bucket[..k] && Hit(centre, radius, i))
        {
          var idx := bucket[k];
          assert Filed(grid, key, idx) && cells[idx] == key;
          assert idx !in visited;
          if Within(entries[idx].position, centre, radius) {
            visited := visited + [idx];
          }
        }
        assert bucket[..|bucket|] == bucket;
      }
      forall i: nat | i < |entries| ensures CellFor(entries[i].position, cellSize) == key <==> Filed(grid, key, i) {
        assert Filed(grid, cells[i], i);
        assert cells[i] == CellFor(entries[i].position, cellSize);
      }
    }
  }

  /** With a negative radius the index and the list scan part ways: the centre itself is a hit no cell covers. */
  lemma NegativeRadiusDiffers()
    ensures var p := Position(0.0, 0.0, 0.0);
            Within(p, p, -10.0) && !Near(CellFor(p, 5.0), CellFor(p, 5.0), Ceil(-10.0 / 5.0))
  {
    assert Ceil(-10.0 / 5.0) == -2;
  }
}
