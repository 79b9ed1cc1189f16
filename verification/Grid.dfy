/** The hash grid over integer cell coordinates that both spatial indexes use, in exact real arithmetic. */
module Grid {
  import opened HazardGraph

  datatype Position = Position(x: real, y: real, z: real)

  datatype Cell = Cell(x: int, y: int, z: int)

  type Buckets = map<Cell, seq<nat>>

  function CellFor(p: Position, size: real): Cell {
    if size <= 0.0 then Cell(0, 0, 0)
    else
      var inv := 1.0 / size;
      Cell(Coordinate(p.x, inv), Coordinate(p.y, inv), Coordinate(p.z, inv))
  }

  function Coordinate(x: real, inv: real): int {
    (x * inv).Floor
  }

  predicate Within(a: Position, b: Position, r: real) {
    var dx, dy, dz := a.x - b.x, a.y - b.y, a.z - b.z;
    dx * dx + dy * dy + dz * dz <= r * r
  }

  function Ceil(x: real): int {
    -((-x).Floor)
  }

  /** Chebyshev distance of two cells is at most span. */
  predicate Near(a: Cell, b: Cell, span: int) {
    && -span <= a.x - b.x <= span
    && -span <= a.y - b.y <= span
    && -span <= a.z - b.z <= span
  }

  /** Every coordinate of a is within r of the one of b. */
  predicate CloseByAxis(a: Position, b: Position, r: real) {
    && -r <= a.x - b.x <= r
    && -r <= a.y - b.y <= r
    && -r <= a.z - b.z <= r
  }

  lemma SquareGrows(x: real, y: real)
    requires 0.0 <= y < x
    ensures y * y < x * x
  {
    assert x * x - y * y == (x - y) * (x + y);
    PositiveProduct(x - y, x + y);
  }

  lemma PositiveProduct(a: real, b: real)
    requires a > 0.0 && b > 0.0
    ensures a * b > 0.0
  {
  }

  lemma SquareBound(d: real, r: real)
    requires r >= 0.0 && d * d <= r * r
    ensures -r <= d <= r
  {
    if d > r {
      SquareGrows(d, r);
    } else if d < -r {
      SquareGrows(-d, r);
    }
  }

  lemma WithinMeansClose(a: Position, b: Position, r: real)
    requires r >= 0.0 && Within(a, b, r)
    ensures CloseByAxis(a, b, r)
  {
    var dx, dy, dz := a.x - b.x, a.y - b.y, a.z - b.z;
    assert dx * dx >= 0.0 && dy * dy >= 0.0 && dz * dz >= 0.0;
    SquareBound(dx, r);
    SquareBound(dy, r);
    SquareBound(dz, r);
  }

  lemma ScaleMonotone(a: real, b: real, k: real)
    requires a <= b && k > 0.0
    ensures a * k <= b * k
  {
  }

  lemma AxisCell(x: real, size: real)
    requires size > 0.0
    ensures var c := Coordinate(x, 1.0 / size); c as real * size <= x < (c as real + 1.0) * size
  {
    var inv := 1.0 / size;
    var c := Coordinate(x, inv);
    assert inv * size == 1.0;
    assert x * inv * size == x * (inv * size) == x;
    ScaleMonotone(c as real, x * inv, size);
    assert (c as real + 1.0 - x * inv) * size > 0.0 by { PositiveProduct(c as real + 1.0 - x * inv, size); }
    assert (c as real + 1.0 - x * inv) * size == (c as real + 1.0) * size - x * inv * size;
  }

  /** Where a cell lies: from its coordinate times the size up to the next one's; without a size all is one cell. */
  lemma CellMeaning(p: Position, size: real)
    ensures var c := CellFor(p, size);
            if size <= 0.0 then c == Cell(0, 0, 0)
            else && c.x as real * size <= p.x < (c.x as real + 1.0) * size
                 && c.y as real * size <= p.y < (c.y as real + 1.0) * size
                 && c.z as real * size <= p.z < (c.z as real + 1.0) * size
  {
    if size > 0.0 {
      AxisCell(p.x, size);
      AxisCell(p.y, size);
      AxisCell(p.z, size);
    }
    hide Coordinate;
  }

  /** The least whole number not below x. */
  lemma CeilMeaning(x: real)
    ensures (Ceil(x) - 1) as real < x <= Ceil(x) as real
  {
  }

  lemma WithinMeaning(a: Position, b: Position, r: real)
    ensures Within(a, b, r) <==>
            (a.x - b.x) * (a.x - b.x) + (a.y - b.y) * (a.y - b.y) + (a.z - b.z) * (a.z - b.z) <= r * r
  {
  }

  /** An offset of at most r moves a coordinate by at most Ceil(r / size) cells. */
  lemma AxisNear(a: real, b: real, r: real, size: real)
    requires size > 0.0 && -r <= a - b <= r
    ensures -Ceil(r / size) <= Coordinate(a, 1.0 / size) - Coordinate(b, 1.0 / size) <= Ceil(r / size)
  {
    var inv := 1.0 / size;
    assert r / size == r * inv;
    ScaleMonotone(a - b, r, inv);
    ScaleMonotone(-r, a - b, inv);
    assert (a - b) * inv == a * inv - b * inv;
    assert r / size <= Ceil(r / size) as real;
  }

  lemma CloseMeansNear(a: Position, b: Position, r: real, size: real)
    requires size > 0.0 && CloseByAxis(a, b, r)
    ensures Near(CellFor(a, size), CellFor(b, size), Ceil(r / size))
  {
    AxisNear(a.x, b.x, r, size);
    AxisNear(a.y, b.y, r, size);
    AxisNear(a.z, b.z, r, size);
    hide Coordinate, Ceil;
  }

  /** The grid files index i under cells[i], once, and holds nothing else. */
  ghost predicate IsIndex(grid: Buckets, cells: seq<Cell>) {
    && (forall c | c in grid :: grid[c] != [] && Distinct(grid[c]))
    && (forall c, i: nat | Filed(grid, c, i) :: i < |cells| && cells[i] == c)
    && (forall i: nat | i < |cells| :: Filed(grid, cells[i], i))
  }

  ghost predicate Filed(grid: Buckets, c: Cell, i: nat) {
    c in grid && i in grid[c]
  }

  function Push(grid: Buckets, c: Cell, i: nat): Buckets {
    grid[c := (if c in grid then grid[c] else []) + [i]]
  }

  /** The bucket of a cell, empty when the cell is not in the grid. */
  function BucketAt(grid: Buckets, c: Cell): seq<nat> {
    if c in grid then grid[c] else []
  }

  lemma PushIndex(grid: Buckets, cells: seq<Cell>, c: Cell)
    requires IsIndex(grid, cells)
    ensures IsIndex(Push(grid, c, |cells|), cells + [c])
  {
    var n := |cells|;
    var grid', cells' := Push(grid, c, n), cells + [c];
    var bucket := BucketAt(grid, c);
    forall k | 0 <= k < |bucket| ensures bucket[k] < n {
      assert Filed(grid, c, bucket[k]);
    }
    forall x | x in grid' ensures grid'[x] != [] && Distinct(grid'[x]) {
      assert x != c ==> grid'[x] == grid[x];
    }
    forall x, i: nat | Filed(grid', x, i) ensures i < n + 1 && cells'[i] == x {
      assert Filed(grid, x, i) || (x == c && i == n);
    }
    forall i: nat | i < n + 1 ensures Filed(grid', cells'[i], i) {
      assert i < n ==> Filed(grid, cells[i], i);
    }
  }

  function Remove(bucket: seq<nat>, i: nat): seq<nat> {
    if bucket == [] then []
    else (if bucket[0] == i then [] else [bucket[0]]) + Remove(bucket[1..], i)
  }

  lemma {:induction false} RemoveElements(bucket: seq<nat>, i: nat)
    ensures forall j :: j in Remove(bucket, i) <==> j in bucket && j != i
    ensures Distinct(bucket) ==> Distinct(Remove(bucket, i))
  {
    if bucket != [] {
      RemoveElements(bucket[1..], i);
      var rest := Remove(bucket[1..], i);
      if Distinct(bucket) {
        assert forall k | 0 <= k < |bucket| - 1 :: bucket[1..][k] == bucket[k + 1] != bucket[0];
        assert bucket[0] !in rest;
        assert Distinct([bucket[0]] + rest);
      }
      assert forall j :: j in bucket <==> j == bucket[0] || j in bucket[1..];
    }
  }

  /** Refiling index i from its old cell to c, as an update of a moved entry does. */
  function Move(grid: Buckets, from: Cell, to: Cell, i: nat): Buckets
    requires from in grid
  {
    Push(Unfile(grid, from, i), to, i)
  }

  /** The grid without index i, an emptied bucket erased. */
  function Unfile(grid: Buckets, from: Cell, i: nat): Buckets
    requires from in grid
  {
    var rest := Remove(grid[from], i);
    if rest == [] then grid - {from} else grid[from := rest]
  }

  lemma UnfileIndex(grid: Buckets, cells: seq<Cell>, i: nat)
    requires IsIndex(grid, cells) && i < |cells| && Filed(grid, cells[i], i)
    ensures var rest := Unfile(grid, cells[i], i);
            && (forall c | c in rest :: rest[c] != [] && Distinct(rest[c]))
            && (forall c, j: nat :: Filed(rest, c, j) <==> Filed(grid, c, j) && j != i)
  {
    var from := cells[i];
    var rest := Unfile(grid, from, i);
    RemoveElements(grid[from], i);
    forall c, j: nat ensures Filed(rest, c, j) <==> Filed(grid, c, j) && j != i {
      if c != from {
        assert Filed(rest, c, j) <==> Filed(grid, c, j);
      }
    }
  }

  lemma MoveIndex(grid: Buckets, cells: seq<Cell>, i: nat, to: Cell)
    requires IsIndex(grid, cells) && i < |cells| && Filed(grid, cells[i], i)
    ensures IsIndex(Move(grid, cells[i], to, i), cells[i := to])
  {
    UnfileIndex(grid, cells, i);
    var rest := Unfile(grid, cells[i], i);
    var grid', cells' := Push(rest, to, i), cells[i := to];
    hide Unfile;
    var bucket := BucketAt(rest, to);
    forall k | 0 <= k < |bucket| ensures bucket[k] != i {
      assert Filed(rest, to, bucket[k]);
    }
    forall c | c in grid' ensures grid'[c] != [] && Distinct(grid'[c]) {
      assert c != to ==> grid'[c] == rest[c];
    }
    forall c, j: nat | Filed(grid', c, j) ensures j < |cells| && cells'[j] == c {
      assert Filed(rest, c, j) || (c == to && j == i);
      assert j != i ==> Filed(grid, c, j);
    }
    forall j: nat | j < |cells| ensures Filed(grid', cells'[j], j) {
      assert j != i ==> Filed(grid, cells[j], j) && Filed(rest, cells[j], j);
    }
  }
}
