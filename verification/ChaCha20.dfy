/** The ChaCha20 block function and the byte stream drawn from it (sections 2.1 and 2.3 of RFC 8439). */
module ChaCha20 {
  import opened Counting

  // ------------------------------------------------------------------ words

  function Rotl16(x: bv32): bv32 { (x << 16) | (x >> 16) }

  function Rotl12(x: bv32): bv32 { (x << 12) | (x >> 20) }

  function Rotl8(x: bv32): bv32 { (x << 8) | (x >> 24) }

  function Rotl7(x: bv32): bv32 { (x << 7) | (x >> 25) }

  function Rotr12(x: bv32): bv32 { (x << 20) | (x >> 12) }

  function Rotr8(x: bv32): bv32 { (x << 24) | (x >> 8) }

  function Rotr7(x: bv32): bv32 { (x << 25) | (x >> 7) }

  lemma RotationsInvert(x: bv32)
    ensures Rotl16(Rotl16(x)) == x
    ensures Rotr12(Rotl12(x)) == x && Rotl12(Rotr12(x)) == x
    ensures Rotr8(Rotl8(x)) == x && Rotl8(Rotr8(x)) == x
    ensures Rotr7(Rotl7(x)) == x && Rotl7(Rotr7(x)) == x
  {
  }

  /** Each rotation moves bit i left by its distance, round the word. */
  lemma RotationsMeaning(x: bv32, i: bv6)
    requires i < 32
    ensures (Rotl16(x) >> ((i + 16) & 31)) & 1 == (x >> i) & 1
    ensures (Rotl12(x) >> ((i + 12) & 31)) & 1 == (x >> i) & 1
    ensures (Rotl8(x) >> ((i + 8) & 31)) & 1 == (x >> i) & 1
    ensures (Rotl7(x) >> ((i + 7) & 31)) & 1 == (x >> i) & 1
  {
  }

  function Load(p: seq<bv8>, at: nat): bv32
    requires at + 4 <= |p|
  {
    (p[at] as bv32) | ((p[at + 1] as bv32) << 8) | ((p[at + 2] as bv32) << 16) | ((p[at + 3] as bv32) << 24)
  }

  /** Byte i of a word, least significant first. */
  function ByteOf(v: bv32, i: nat): bv8
    requires i < 4
  {
    if i == 0 then (v & 0xFF) as bv8
    else if i == 1 then ((v >> 8) & 0xFF) as bv8
    else if i == 2 then ((v >> 16) & 0xFF) as bv8
    else ((v >> 24) & 0xFF) as bv8
  }

  lemma StoreLoad(v: bv32, p: seq<bv8>)
    requires |p| == 4 && forall i | 0 <= i < 4 :: p[i] == ByteOf(v, i)
    ensures Load(p, 0) == v
  {
    assert p[0] == ByteOf(v, 0) && p[1] == ByteOf(v, 1) && p[2] == ByteOf(v, 2) && p[3] == ByteOf(v, 3);
  }

  lemma LoadStore(p: seq<bv8>, i: nat)
    requires |p| == 4 && i < 4
    ensures ByteOf(Load(p, 0), i) == p[i]
  {
  }

  // ------------------------------------------------------------------ the quarter round

  datatype Quad = Quad(a: bv32, b: bv32, c: bv32, d: bv32)

  function Add(x: bv32, y: bv32): bv32 { x + y }

  function Sub(x: bv32, y: bv32): bv32 { x - y }

  function Xor(x: bv32, y: bv32): bv32 { x ^ y }

  /** One half of a quarter round: two additions, each mixed in and rotated. */
  function FirstHalf(q: Quad): Quad {
    var a := Add(q.a, q.b);
    var d := Rotl16(Xor(q.d, a));
    var c := Add(q.c, d);
    Quad(a, Rotl12(Xor(q.b, c)), c, d)
  }

  function SecondHalf(q: Quad): Quad {
    var a := Add(q.a, q.b);
    var d := Rotl8(Xor(q.d, a));
    var c := Add(q.c, d);
    Quad(a, Rotl7(Xor(q.b, c)), c, d)
  }

  function Quarter(q: Quad): Quad {
    SecondHalf(FirstHalf(q))
  }

  function UndoFirstHalf(q: Quad): Quad {
    var b := Xor(Rotr12(q.b), q.c);
    Quad(Sub(q.a, b), b, Sub(q.c, q.d), Xor(Rotl16(q.d), q.a))
  }

  function UndoSecondHalf(q: Quad): Quad {
    var b := Xor(Rotr7(q.b), q.c);
    Quad(Sub(q.a, b), b, Sub(q.c, q.d), Xor(Rotr8(q.d), q.a))
  }

  function Unquarter(q: Quad): Quad {
    UndoFirstHalf(UndoSecondHalf(q))
  }

  lemma OuterCancels(x: bv32, y: bv32)
    ensures Sub(x + y, y) == x && Add(x - y, y) == x && Xor(x ^ y, y) == x
  {
  }

  lemma SumCancels(x: bv32, y: bv32)
    ensures Sub(Add(x, y), y) == x
  {
    hide Sub;
    OuterCancels(x, y);
  }

  lemma DifferenceCancels(x: bv32, y: bv32)
    ensures Add(Sub(x, y), y) == x
  {
    hide Add;
    OuterCancels(x, y);
  }

  lemma XorCancels(x: bv32, y: bv32)
    ensures Xor(Xor(x, y), y) == x
  {
    OuterCancels(x, y);
  }

  lemma WordAlgebra(x: bv32, y: bv32)
    ensures Sub(Add(x, y), y) == x && Add(Sub(x, y), y) == x && Xor(Xor(x, y), y) == x
  {
    hide Add, Sub, Xor;
    SumCancels(x, y);
    DifferenceCancels(x, y);
    XorCancels(x, y);
  }

  lemma FirstHalfInverts(q: Quad)
    ensures UndoFirstHalf(FirstHalf(q)) == q && FirstHalf(UndoFirstHalf(q)) == q
  {
    hide Rotl16, Rotl12, Rotr12, Add, Sub, Xor;
    var f, u := FirstHalf(q), UndoFirstHalf(q);
    RotationsInvert(Xor(q.d, f.a));
    RotationsInvert(Xor(q.b, f.c));
    WordAlgebra(q.b, f.c);
    WordAlgebra(q.d, f.a);
    WordAlgebra(q.c, f.d);
    WordAlgebra(q.a, q.b);
    RotationsInvert(q.b);
    RotationsInvert(q.d);
    WordAlgebra(Rotr12(q.b), q.c);
    WordAlgebra(Rotl16(q.d), q.a);
    WordAlgebra(q.c, q.d);
    WordAlgebra(q.a, u.b);
  }

  lemma SecondHalfInverts(q: Quad)
    ensures UndoSecondHalf(SecondHalf(q)) == q && SecondHalf(UndoSecondHalf(q)) == q
  {
    hide Rotl8, Rotl7, Rotr8, Rotr7, Add, Sub, Xor;
    var f, u := SecondHalf(q), UndoSecondHalf(q);
    RotationsInvert(Xor(q.d, f.a));
    RotationsInvert(Xor(q.b, f.c));
    WordAlgebra(q.b, f.c);
    WordAlgebra(q.d, f.a);
    WordAlgebra(q.c, f.d);
    WordAlgebra(q.a, q.b);
    RotationsInvert(q.b);
    RotationsInvert(q.d);
    WordAlgebra(Rotr7(q.b), q.c);
    WordAlgebra(Rotr8(q.d), q.a);
    WordAlgebra(q.c, q.d);
    WordAlgebra(q.a, u.b);
  }

  /** A quarter round loses nothing: it is undone from either side. */
  lemma QuarterInverts(q: Quad)
    ensures Unquarter(Quarter(q)) == q && Quarter(Unquarter(q)) == q
  {
    FirstHalfInverts(q);
    SecondHalfInverts(FirstHalf(q));
    SecondHalfInverts(q);
    FirstHalfInverts(UndoSecondHalf(q));
    hide FirstHalf, SecondHalf, UndoFirstHalf, UndoSecondHalf;
  }

  // ------------------------------------------------------------------ rounds on the 16-word state

  type State = w: seq<bv32> | |w| == 16 witness seq(16, i => 0)

  /** Four different positions of the state. */
  datatype Slots = Slots(a: nat, b: nat, c: nat, d: nat) {
    predicate Has(i: nat) { i == a || i == b || i == c || i == d }

    predicate Proper() {
      a < 16 && b < 16 && c < 16 && d < 16 && a != b && a != c && a != d && b != c && b != d && c != d
    }
  }

  function Pick(w: State, s: Slots): Quad
    requires s.Proper()
  {
    Quad(w[s.a], w[s.b], w[s.c], w[s.d])
  }

  function Place(w: State, s: Slots, q: Quad): State
    requires s.Proper()
  {
    w[s.a := q.a][s.b := q.b][s.c := q.c][s.d := q.d]
  }

  /** A quarter round on the words in four slots. */
  function MixAt(w: State, s: Slots): State
    requires s.Proper()
  {
    Place(w, s, Quarter(Pick(w, s)))
  }

  /** The order of the quarter rounds in a double round: four columns, then four diagonals. */
  const LAYOUT: seq<Slots> := [
    Slots(0, 4, 8, 12), Slots(1, 5, 9, 13), Slots(2, 6, 10, 14), Slots(3, 7, 11, 15),
    Slots(0, 5, 10, 15), Slots(1, 6, 11, 12), Slots(2, 7, 8, 13), Slots(3, 4, 9, 14)
  ]

  ghost predicate ProperLayout(layout: seq<Slots>) {
    forall k | 0 <= k < |layout| :: layout[k].Proper()
  }

  function Mix(w: State, layout: seq<Slots>): State
    requires ProperLayout(layout)
    decreases |layout|
  {
    if layout == [] then w
    else
      var last := layout[|layout| - 1];
      var before := Mix(w, layout[..|layout| - 1]);
      MixAt(before, last)
  }

  function Unmix(w: State, layout: seq<Slots>): State
    requires ProperLayout(layout)
    decreases |layout|
  {
    if layout == [] then w
    else
      var last := layout[|layout| - 1];
      Unmix(Place(w, last, Unquarter(Pick(w, last))), layout[..|layout| - 1])
  }

  function DoubleRound(w: State): State {
    Mix(w, LAYOUT)
  }

  function UndoDoubleRound(w: State): State {
    Unmix(w, LAYOUT)
  }

  function Rounds(w: State, doubles: nat): State {
    if doubles == 0 then w else DoubleRound(Rounds(w, doubles - 1))
  }

  function Unrounds(w: State, doubles: nat): State
    decreases doubles
  {
    if doubles == 0 then w else Unrounds(UndoDoubleRound(w), doubles - 1)
  }

  lemma PlacePick(w: State, s: Slots, q: Quad)
    requires s.Proper()
    ensures Pick(Place(w, s, q), s) == q
    ensures Place(Place(w, s, q), s, Pick(w, s)) == w
  {
  }

  lemma {:induction false} MixInverts(w: State, layout: seq<Slots>)
    requires ProperLayout(layout)
    ensures Unmix(Mix(w, layout), layout) == w && Mix(Unmix(w, layout), layout) == w
    decreases |layout|
  {
    if layout != [] {
      hide Quarter, Unquarter, Place, Pick;
      var last, init := layout[|layout| - 1], layout[..|layout| - 1];
      var before := Mix(w, init);
      PlacePick(before, last, Quarter(Pick(before, last)));
      QuarterInverts(Pick(before, last));
      MixInverts(w, init);
      var undone := Place(w, last, Unquarter(Pick(w, last)));
      MixInverts(undone, init);
      PlacePick(w, last, Unquarter(Pick(w, last)));
      QuarterInverts(Pick(w, last));
    }
  }

  lemma DoubleRoundInverts(w: State)
    ensures UndoDoubleRound(DoubleRound(w)) == w && DoubleRound(UndoDoubleRound(w)) == w
  {
    hide Mix, Unmix;
    MixInverts(w, LAYOUT);
  }

  lemma Unfold(w: State, doubles: nat)
    ensures doubles == 0 ==> Rounds(w, doubles) == w == Unrounds(w, doubles)
    ensures doubles > 0 ==> Rounds(w, doubles) == DoubleRound(Rounds(w, doubles - 1))
    ensures doubles > 0 ==> Unrounds(w, doubles) == Unrounds(UndoDoubleRound(w), doubles - 1)
  {
    hide DoubleRound, UndoDoubleRound;
  }

  lemma {:induction false} RoundsUndone(w: State, doubles: nat)
    ensures Unrounds(Rounds(w, doubles), doubles) == w
    decreases doubles
  {
    hide DoubleRound, UndoDoubleRound, Rounds, Unrounds;
    Unfold(w, doubles);
    if doubles > 0 {
      var before := Rounds(w, doubles - 1);
      DoubleRoundInverts(before);
      RoundsUndone(w, doubles - 1);
      Unfold(DoubleRound(before), doubles);
    }
  }

  lemma {:induction false} RoundsReached(w: State, doubles: nat)
    ensures Rounds(Unrounds(w, doubles), doubles) == w
    decreases doubles
  {
    hide DoubleRound, UndoDoubleRound, Rounds, Unrounds;
    Unfold(w, doubles);
    if doubles > 0 {
      var before := UndoDoubleRound(w);
      DoubleRoundInverts(w);
      RoundsReached(before, doubles - 1);
      Unfold(Unrounds(before, doubles - 1), doubles);
    }
  }

  lemma RoundsInjective(v: State, w: State, doubles: nat)
    requires Rounds(v, doubles) == Rounds(w, doubles)
    ensures v == w
  {
    RoundsUndone(v, doubles);
    RoundsUndone(w, doubles);
  }

  // ------------------------------------------------------------------ columns and diagonals at once

  /** Column k of the state as a 4 by 4 matrix of rows. */
  function Column(k: nat): Slots {
    Slots(k % 4, 4 + k % 4, 8 + k % 4, 12 + k % 4)
  }

  /** The wrapped diagonal that starts at column k. */
  function Diagonal(k: nat): Slots {
    Slots(k % 4, 4 + (k + 1) % 4, 8 + (k + 2) % 4, 12 + (k + 3) % 4)
  }

  function WordOf(q: Quad, row: nat): bv32
    requires row < 4
  {
    [q.a, q.b, q.c, q.d][row]
  }

  /** Every column through a quarter round, all at once. */
  function ColumnRound(w: State): State {
    seq(16, i requires 0 <= i < 16 => WordOf(Quarter(Pick(w, Column(i % 4))), i / 4))
  }

  /** Every diagonal through a quarter round, all at once; word i lies i / 4 columns right of its diagonal's start. */
  function DiagonalRound(w: State): State {
    seq(16, i requires 0 <= i < 16 => WordOf(Quarter(Pick(w, Diagonal(i % 4 + 4 - i / 4))), i / 4))
  }

  ghost predicate Apart(s: Slots, t: Slots) {
    !t.Has(s.a) && !t.Has(s.b) && !t.Has(s.c) && !t.Has(s.d)
  }

  ghost predicate AllApart(layout: seq<Slots>) {
    forall k, l | 0 <= k < l < |layout| :: Apart(layout[k], layout[l])
  }

  lemma MixedAt(w: State, s: Slots, t: Slots)
    requires s.Proper() && t.Proper()
    ensures Pick(MixAt(w, s), s) == Quarter(Pick(w, s))
    ensures Apart(s, t) ==> Pick(MixAt(w, s), t) == Pick(w, t)
  {
    hide Quarter;
  }

  lemma {:induction false} MixApart(w: State, layout: seq<Slots>, t: Slots)
    requires ProperLayout(layout) && t.Proper() && forall k | 0 <= k < |layout| :: Apart(layout[k], t)
    ensures Pick(Mix(w, layout), t) == Pick(w, t)
    decreases |layout|
  {
    hide MixAt, Pick, Apart, Slots.Proper;
    if layout != [] {
      var n := |layout| - 1;
      MixApart(w, layout[..n], t);
      MixedAt(Mix(w, layout[..n]), layout[n], t);
    }
  }

  /** Quarter rounds on disjoint slots act on the state as it was: their order does not matter. */
  lemma {:induction false} MixDisjoint(w: State, layout: seq<Slots>, k: nat)
    requires ProperLayout(layout) && AllApart(layout) && k < |layout|
    ensures Pick(Mix(w, layout), layout[k]) == Quarter(Pick(w, layout[k]))
    decreases |layout|
  {
    hide MixAt, Pick, Apart, Slots.Proper, Quarter;
    var n := |layout| - 1;
    var last, init := layout[n], layout[..n];
    if k == n {
      MixApart(w, init, last);
      MixedAt(Mix(w, init), last, last);
    } else {
      MixDisjoint(w, init, k);
      ApartSymmetric(layout[k], last);
      MixedAt(Mix(w, init), last, layout[k]);
    }
  }

  lemma ApartSymmetric(s: Slots, t: Slots)
    requires Apart(s, t)
    ensures Apart(t, s)
  {
  }

  const COLUMNS: seq<Slots> := [Column(0), Column(1), Column(2), Column(3)]
  const DIAGONALS: seq<Slots> := [Diagonal(0), Diagonal(1), Diagonal(2), Diagonal(3)]

  lemma LayoutsApart()
    ensures ProperLayout(COLUMNS) && AllApart(COLUMNS)
    ensures ProperLayout(DIAGONALS) && AllApart(DIAGONALS)
  {
    FourApart(Column(0), Column(1), Column(2), Column(3));
    FourApart(Diagonal(0), Diagonal(1), Diagonal(2), Diagonal(3));
  }

  lemma FourApart(s: Slots, t: Slots, u: Slots, v: Slots)
    requires s.Proper() && t.Proper() && u.Proper() && v.Proper()
    requires Apart(s, t) && Apart(s, u) && Apart(s, v) && Apart(t, u) && Apart(t, v) && Apart(u, v)
    ensures ProperLayout([s, t, u, v]) && AllApart([s, t, u, v])
  {
    hide Apart, Slots.Proper;
  }

  lemma LayoutAt(k: nat)
    ensures COLUMNS[k % 4] == Column(k) && DIAGONALS[k % 4] == Diagonal(k)
  {
    Wraps(k, 1);
    Wraps(k, 2);
    Wraps(k, 3);
    var r := k % 4;
    assert COLUMNS[r] == Column(r) && DIAGONALS[r] == Diagonal(r);
  }

  lemma Wraps(k: nat, j: nat)
    ensures (k % 4 + j) % 4 == (k + j) % 4
  {
  }

  /** Word i stands in its column in row i / 4. */
  lemma InColumn(v: State, i: nat)
    requires i < 16
    ensures v[i] == WordOf(Pick(v, Column(i % 4)), i / 4)
  {
    assert i == 4 * (i / 4) + i % 4;
  }

  /** Word i stands on its diagonal in row i / 4. */
  lemma OnDiagonal(v: State, i: nat)
    requires i < 16
    ensures v[i] == WordOf(Pick(v, Diagonal(i % 4 + 4 - i / 4)), i / 4)
  {
    var row, column := i / 4, i % 4;
    assert i == 4 * row + column;
    assert (column + 4 - row + row) % 4 == column;
  }

  lemma ColumnsAtOnce(w: State)
    ensures Mix(w, COLUMNS) == ColumnRound(w)
  {
    LayoutsApart();
    hide Mix, Quarter, Pick, WordOf, AllApart, ProperLayout, Column;
    var v := Mix(w, COLUMNS);
    forall i | 0 <= i < 16 ensures v[i] == ColumnRound(w)[i] {
      MixDisjoint(w, COLUMNS, i % 4);
      InColumn(v, i);
      LayoutAt(i % 4);
    }
  }

  lemma DiagonalsAtOnce(w: State)
    ensures Mix(w, DIAGONALS) == DiagonalRound(w)
  {
    LayoutsApart();
    hide Mix, Quarter, Pick, WordOf, AllApart, ProperLayout, Diagonal;
    var v := Mix(w, DIAGONALS);
    forall i | 0 <= i < 16 ensures v[i] == DiagonalRound(w)[i] {
      var k := i % 4 + 4 - i / 4;
      MixDisjoint(w, DIAGONALS, k % 4);
      OnDiagonal(v, i);
      LayoutAt(k);
    }
  }

  lemma {:induction false} MixAppend(w: State, a: seq<Slots>, b: seq<Slots>)
    requires ProperLayout(a) && ProperLayout(b)
    ensures ProperLayout(a + b) && Mix(w, a + b) == Mix(Mix(w, a), b)
    decreases |b|
  {
    hide MixAt;
    if b == [] {
      assert a + b == a;
    } else {
      var n := |b| - 1;
      assert (a + b)[..|a| + n] == a + b[..n];
      MixAppend(w, a, b[..n]);
    }
  }

  /** A double round, as section 2.3 of RFC 8439 has it: the four columns, then the four diagonals. */
  lemma DoubleRoundMeaning(w: State)
    ensures DoubleRound(w) == DiagonalRound(ColumnRound(w))
  {
    hide Mix, ColumnRound, DiagonalRound;
    assert LAYOUT == COLUMNS + DIAGONALS;
    MixAppend(w, COLUMNS, DIAGONALS);
    ColumnsAtOnce(w);
    DiagonalsAtOnce(ColumnRound(w));
  }

  lemma MixStep(w: State, k: nat)
    requires k < 8
    ensures Mix(w, LAYOUT[..k + 1]) == MixAt(Mix(w, LAYOUT[..k]), LAYOUT[k])
  {
    hide MixAt;
    assert LAYOUT[..k + 1][..k] == LAYOUT[..k];
  }

  // ------------------------------------------------------------------ the block function

  const C0: bv32 := 0x6170_7865
  const C1: bv32 := 0x3320_646e
  const C2: bv32 := 0x7962_2d32
  const C3: bv32 := 0x6b20_6574

  type Key = k: seq<bv8> | |k| == 32 witness seq(32, i => 0)
  type Nonce = n: seq<bv8> | |n| == 12 witness seq(12, i => 0)

  function InitialWord(key: Key, counter: bv32, nonce: Nonce, i: nat): bv32
    requires i < 16
  {
    if i < 4 then [C0, C1, C2, C3][i]
    else if i < 12 then Load(key, 4 * (i - 4))
    else if i == 12 then counter
    else Load(nonce, 4 * (i - 13))
  }

  function InitialState(key: Key, counter: bv32, nonce: Nonce): State {
    seq(16, i requires 0 <= i < 16 => InitialWord(key, counter, nonce, i))
  }

  function BlockWord(start: State, i: nat): bv32
    requires i < 16
  {
    Add(Rounds(start, 10)[i], start[i])
  }

  /** The 64 bytes a block yields. */
  function Block(key: Key, counter: bv32, nonce: Nonce): (out: seq<bv8>)
    ensures |out| == 64
  {
    var start := InitialState(key, counter, nonce);
    seq(64, k requires 0 <= k < 64 => ByteOf(BlockWord(start, k / 4), k % 4))
  }

  lemma SliceLoad(p: seq<bv8>, at: nat, i: nat)
    requires at + 4 <= |p| && i < 4
    ensures ByteOf(Load(p, at), i) == p[at + i]
  {
    var q := p[at..at + 4];
    LoadStore(q, i);
    assert q[0] == p[at] && q[1] == p[at + 1] && q[2] == p[at + 2] && q[3] == p[at + 3];
    hide ByteOf;
  }

  /** Nothing of the inputs is lost in the initial state: every byte can be read back from it. */
  lemma InitialStateKeepsInputs(key: Key, counter: bv32, nonce: Nonce)
    ensures var start := InitialState(key, counter, nonce);
            && (forall i | 0 <= i < 32 :: key[i] == ByteOf(start[4 + i / 4], i % 4))
            && start[12] == counter
            && (forall i | 0 <= i < 12 :: nonce[i] == ByteOf(start[13 + i / 4], i % 4))
  {
    hide Load, ByteOf;
    var start := InitialState(key, counter, nonce);
    forall i | 0 <= i < 32
      ensures key[i] == ByteOf(start[4 + i / 4], i % 4)
    {
      SliceLoad(key, 4 * (i / 4), i % 4);
    }
    forall i | 0 <= i < 12
      ensures nonce[i] == ByteOf(start[13 + i / 4], i % 4)
    {
      SliceLoad(nonce, 4 * (i / 4), i % 4);
    }
  }

  /** Different keys, counters or nonces never meet in one state, before or after the rounds. */
  lemma RoundsSeparate(key: Key, counter: bv32, nonce: Nonce, key': Key, counter': bv32, nonce': Nonce)
    requires Rounds(InitialState(key, counter, nonce), 10) == Rounds(InitialState(key', counter', nonce'), 10)
    ensures key == key' && counter == counter' && nonce == nonce'
  {
    hide Rounds, InitialState, ByteOf;
    RoundsInjective(InitialState(key, counter, nonce), InitialState(key', counter', nonce'), 10);
    InitialStateKeepsInputs(key, counter, nonce);
    InitialStateKeepsInputs(key', counter', nonce');
    assert forall i | 0 <= i < 32 :: key[i] == key'[i];
    assert forall i | 0 <= i < 12 :: nonce[i] == nonce'[i];
  }

  /** The permuted state can be recovered from a block by whoever knows what it started from. */
  lemma BlockInverts(key: Key, counter: bv32, nonce: Nonce, i: nat)
    requires i < 16
    ensures var start := InitialState(key, counter, nonce);
            Sub(Load(Block(key, counter, nonce), 4 * i), start[i]) == Rounds(start, 10)[i]
  {
    hide Load, InitialState, Rounds, Add, Sub, Block;
    var start := InitialState(key, counter, nonce);
    BlockStores(key, counter, nonce, i);
    SumCancels(Rounds(start, 10)[i], start[i]);
  }

  /** A block holds the permuted words plus the initial ones. */
  lemma BlockStores(key: Key, counter: bv32, nonce: Nonce, i: nat)
    requires i < 16
    ensures Load(Block(key, counter, nonce), 4 * i) == BlockWord(InitialState(key, counter, nonce), i)
  {
    hide Load, ByteOf, InitialState, Rounds, Add;
    var start := InitialState(key, counter, nonce);
    var out := Block(key, counter, nonce);
    var p := out[4 * i..4 * i + 4];
    forall j | 0 <= j < 4
      ensures p[j] == ByteOf(BlockWord(start, i), j)
    {
      assert (4 * i + j) / 4 == i && (4 * i + j) % 4 == j;
      assert p[j] == out[4 * i + j];
    }
    StoreLoad(BlockWord(start, i), p);
    LoadSlice(out, 4 * i);
  }

  lemma LoadSlice(p: seq<bv8>, at: nat)
    requires at + 4 <= |p|
    ensures Load(p, at) == Load(p[at..at + 4], 0)
  {
  }

  // ------------------------------------------------------------------ in place, on arrays

  method FirstHalfInPlace(w: array<bv32>, a: nat, b: nat, c: nat, d: nat)
    requires w.Length == 16 && Slots(a, b, c, d).Proper()
    modifies w
    ensures w[..] == Place(old(w[..]), Slots(a, b, c, d), FirstHalf(old(Pick(w[..], Slots(a, b, c, d)))))
  {
    hide Add, Xor, Rotl16, Rotl12;
    w[a] := Add(w[a], w[b]);
    w[d] := Rotl16(Xor(w[d], w[a]));
    w[c] := Add(w[c], w[d]);
    w[b] := Rotl12(Xor(w[b], w[c]));
  }

  method SecondHalfInPlace(w: array<bv32>, a: nat, b: nat, c: nat, d: nat)
    requires w.Length == 16 && Slots(a, b, c, d).Proper()
    modifies w
    ensures w[..] == Place(old(w[..]), Slots(a, b, c, d), SecondHalf(old(Pick(w[..], Slots(a, b, c, d)))))
  {
    hide Add, Xor, Rotl8, Rotl7;
    w[a] := Add(w[a], w[b]);
    w[d] := Rotl8(Xor(w[d], w[a]));
    w[c] := Add(w[c], w[d]);
    w[b] := Rotl7(Xor(w[b], w[c]));
  }

  method QuarterRound(w: array<bv32>, a: nat, b: nat, c: nat, d: nat)
    requires w.Length == 16 && Slots(a, b, c, d).Proper()
    modifies w
    ensures w[..] == MixAt(old(w[..]), Slots(a, b, c, d))
  {
    hide FirstHalf, SecondHalf, Place, Pick;
    ghost var start, s := w[..], Slots(a, b, c, d);
    ghost var first := FirstHalf(Pick(start, s));
    FirstHalfInPlace(w, a, b, c, d);
    PlacePick(start, s, first);
    SecondHalfInPlace(w, a, b, c, d);
    PlacePlace(start, s, first, SecondHalf(first));
  }

  lemma PlacePlace(w: State, s: Slots, p: Quad, q: Quad)
    requires s.Proper()
    ensures Place(Place(w, s, p), s, q) == Place(w, s, q)
  {
  }

  method DoubleRoundInPlace(w: array<bv32>)
    requires w.Length == 16
    modifies w
    ensures w[..] == DoubleRound(old(w[..]))
  {
    hide Mix, MixAt;
    ghost var start := w[..];
    assert LAYOUT[..0] == [] && LAYOUT[..8] == LAYOUT;
    MixNothing(start);
    QuarterRound(w, 0, 4, 8, 12);
    MixStep(start, 0);
    QuarterRound(w, 1, 5, 9, 13);
    MixStep(start, 1);
    QuarterRound(w, 2, 6, 10, 14);
    MixStep(start, 2);
    QuarterRound(w, 3, 7, 11, 15);
    MixStep(start, 3);
    QuarterRound(w, 0, 5, 10, 15);
    MixStep(start, 4);
    QuarterRound(w, 1, 6, 11, 12);
    MixStep(start, 5);
    QuarterRound(w, 2, 7, 8, 13);
    MixStep(start, 6);
    QuarterRound(w, 3, 4, 9, 14);
    MixStep(start, 7);
  }

  lemma MixNothing(w: State)
    ensures Mix(w, []) == w
  {
  }

  lemma InitialisedState(s: seq<bv32>, key: Key, counter: bv32, nonce: Nonce)
    requires |s| == 16 && s[0] == C0 && s[1] == C1 && s[2] == C2 && s[3] == C3 && s[12] == counter
    requires forall j | 0 <= j < 8 :: s[4 + j] == Load(key, 4 * j)
    requires s[13] == Load(nonce, 0) && s[14] == Load(nonce, 4) && s[15] == Load(nonce, 8)
    ensures s == InitialState(key, counter, nonce)
  {
    hide Load;
    forall i | 0 <= i < 16
      ensures s[i] == InitialWord(key, counter, nonce, i)
    {
      if 4 <= i < 12 {
        assert s[4 + (i - 4)] == Load(key, 4 * (i - 4));
      }
    }
  }

  method SetUp(key: array<bv8>, counter: bv32, nonce: array<bv8>) returns (s: array<bv32>)
    requires key.Length == 32 && nonce.Length == 12
    ensures fresh(s) && s.Length == 16 && s[..] == InitialState(key[..], counter, nonce[..])
  {
    hide Load, InitialState;
    s := new bv32[16];
    s[0], s[1], s[2], s[3] := C0, C1, C2, C3;
    for i := 0 to 8
      invariant s[0] == C0 && s[1] == C1 && s[2] == C2 && s[3] == C3
      invariant forall j | 0 <= j < i :: s[4 + j] == Load(key[..], 4 * j)
    {
      s[4 + i] := Load(key[..], 4 * i);
    }
    s[12] := counter;
    s[13] := Load(nonce[..], 0);
    s[14] := Load(nonce[..], 4);
    s[15] := Load(nonce[..], 8);
    InitialisedState(s[..], key[..], counter, nonce[..]);
  }

  /** The ten double rounds, on a copy of the initial state. */
  method Permute(s: array<bv32>) returns (w: array<bv32>)
    requires s.Length == 16
    ensures fresh(w) && w.Length == 16 && w[..] == Rounds(s[..], 10)
  {
    hide DoubleRound;
    ghost var start := s[..];
    w := new bv32[16](i requires 0 <= i < 16 reads s => s[i]);
    assert w[..] == start;
    for i := 0 to 10
      invariant s[..] == start && w[..] == Rounds(start, i)
    {
      DoubleRoundInPlace(w);
    }
  }

  method Store(out: array<bv8>, at: nat, v: bv32)
    requires at + 4 <= out.Length
    modifies out
    ensures forall k | 0 <= k < out.Length ::
              out[k] == if at <= k < at + 4 then ByteOf(v, k - at) else old(out[k])
  {
    hide ByteOf;
    out[at] := ByteOf(v, 0);
    out[at + 1] := ByteOf(v, 1);
    out[at + 2] := ByteOf(v, 2);
    out[at + 3] := ByteOf(v, 3);
  }

  /** Adds the initial state back and stores each word, least significant byte first. */
  method AddAndStore(w: array<bv32>, s: array<bv32>, out: array<bv8>)
    requires w.Length == 16 && s.Length == 16 && out.Length == 64 && w != s
    requires w[..] == Rounds(s[..], 10)
    modifies w, out
    ensures forall k | 0 <= k < 64 :: out[k] == ByteOf(BlockWord(s[..], k / 4), k % 4)
  {
    hide ByteOf, Add, Rounds;
    ghost var start := s[..];
    ghost var mixed := w[..];
    for i := 0 to 16
      invariant s[..] == start
      invariant forall j | i <= j < 16 :: w[j] == mixed[j]
      invariant forall k | 0 <= k < 4 * i :: out[k] == ByteOf(BlockWord(start, k / 4), k % 4)
    {
      w[i] := Add(w[i], s[i]);
      assert w[i] == BlockWord(start, i);
      Store(out, 4 * i, w[i]);
      assert forall k | 4 * i <= k < 4 * i + 4 :: k / 4 == i && k % 4 == k - 4 * i;
    }
  }

  /** The whole block, written over out. */
  method ChaCha20Block(key: array<bv8>, counter: bv32, nonce: array<bv8>, out: array<bv8>)
    requires key.Length == 32 && nonce.Length == 12 && out.Length == 64
    modifies out
    ensures out[..] == Block(key[..], counter, nonce[..])
  {
    hide InitialState, Rounds, ByteOf;
    var s := SetUp(key, counter, nonce);
    var w := Permute(s);
    AddAndStore(w, s, out);
  }

  // ------------------------------------------------------------------ the stream

  const BLOCKS := 0x1_0000_0000

  function CounterWord(n: nat): bv32
    requires n < BLOCKS
  {
    n as bv32
  }

  /** Byte k of everything a generator ever yields: the 32-bit block counter wraps. */
  function StreamByte(key: Key, nonce: Nonce, k: nat): bv8 {
    Block(key, CounterWord(k / 64 % BLOCKS), nonce)[k % 64]
  }

  function Stream(key: Key, nonce: Nonce, from: nat, n: nat): (s: seq<bv8>)
    ensures |s| == n
  {
    seq(n, i requires 0 <= i < n => StreamByte(key, nonce, from + i))
  }

  /** Byte k of the stream is byte k mod 64 of the block whose counter is k div 64, modulo 2^32. */
  lemma StreamMeaning(key: Key, nonce: Nonce, from: nat, n: nat, i: nat, counter: bv32)
    requires i < n && counter as int == (from + i) / 64 % 0x1_0000_0000
    ensures Stream(key, nonce, from, n)[i] == Block(key, counter, nonce)[(from + i) % 64]
  {
    hide Block, CounterWord;
    var block := (from + i) / 64 % BLOCKS;
    CounterSame(block, counter);
    assert Stream(key, nonce, from, n)[i] == StreamByte(key, nonce, from + i);
    assert StreamByte(key, nonce, from + i) == Block(key, CounterWord(block), nonce)[(from + i) % 64];
  }

  lemma CounterSame(n: nat, counter: bv32)
    requires n < BLOCKS && counter as int == n
    ensures CounterWord(n) == counter
  {
  }

  /** The keystream repeats after 2^32 blocks. */
  lemma StreamPeriod(key: Key, nonce: Nonce, k: nat)
    ensures StreamByte(key, nonce, k + 64 * BLOCKS) == StreamByte(key, nonce, k)
  {
    hide Block;
    assert (k + 64 * BLOCKS) / 64 == k / 64 + BLOCKS && (k + 64 * BLOCKS) % 64 == k % 64;
    assert (k / 64 + BLOCKS) % BLOCKS == k / 64 % BLOCKS;
  }

  lemma StreamSplits(key: Key, nonce: Nonce, from: nat, m: nat, n: nat)
    ensures Stream(key, nonce, from, m) + Stream(key, nonce, from + m, n) == Stream(key, nonce, from, m + n)
  {
    hide StreamByte;
    var whole, parts := Stream(key, nonce, from, m + n), Stream(key, nonce, from, m) + Stream(key, nonce, from + m, n);
    forall i | 0 <= i < m + n
      ensures whole[i] == parts[i]
    {
      if i >= m {
        assert from + m + (i - m) == from + i;
      }
    }
  }

  class ChaCha20Csprng {
    const key: array<bv8>
    const nonce: array<bv8>
    const block: array<bv8>
    var counter: nat
    var blockOffset: nat
    ghost var blocks: nat
    ghost var drawn: nat

    /** After generating so many blocks, drawn bytes have been handed out and the last block is cached. */
    ghost predicate Valid()
      reads this, key, nonce, block
    {
      && key.Length == 32 && nonce.Length == 12 && block.Length == 64
      && key != nonce && key != block && nonce != block
      && blockOffset <= 64 && drawn + 64 == 64 * blocks + blockOffset
      && counter == blocks % BLOCKS
      && (blocks > 0 ==> block[..] == Block(key[..], CounterWord((blocks - 1) % BLOCKS), nonce[..]))
    }

    constructor (key: array<bv8>, nonce: array<bv8>)
      requires key.Length == 32 && nonce.Length == 12
      ensures Valid() && drawn == 0 && this.key[..] == key[..] && this.nonce[..] == nonce[..]
      ensures fresh(this.key) && fresh(this.nonce) && fresh(block)
    {
      this.key := new bv8[32](i requires 0 <= i < 32 reads key => key[i]);
      this.nonce := new bv8[12](i requires 0 <= i < 12 reads nonce => nonce[i]);
      block := new bv8[64](i => 0);
      counter, blockOffset, blocks, drawn := 0, 64, 0, 0;
    }

    method Refill()
      requires Valid() && blockOffset == 64
      modifies this`counter, this`blockOffset, this`blocks, block
      ensures Valid() && blockOffset == 0 && blocks == old(blocks) + 1
    {
      hide Block, CounterWord;
      ChaCha20Block(key, CounterWord(counter), nonce, block);
      counter := (counter + 1) % BLOCKS;
      blockOffset := 0;
      blocks := blocks + 1;
    }

    /** Bytes of the cached block are bytes of the stream. */
    lemma CachedBytes(i: nat)
      requires Valid() && blockOffset + i < 64
      ensures block[blockOffset + i] == StreamByte(key[..], nonce[..], drawn + i)
    {
      hide Block, CounterWord;
      assert drawn + i == 64 * (blocks - 1) + (blockOffset + i);
      assert (drawn + i) / 64 == blocks - 1 && (drawn + i) % 64 == blockOffset + i;
      assert block[blockOffset + i] == block[..][blockOffset + i];
    }

    /** Hands out the next take bytes of the cached block. */
    method CopyOut(out: array<bv8>, at: nat, take: nat)
      requires Valid() && out != key && out != nonce && out != block
      requires blockOffset + take <= 64 && at + take <= out.Length
      modifies this`blockOffset, this`drawn, out
      ensures Valid() && drawn == old(drawn) + take && blockOffset == old(blockOffset) + take
      ensures forall j | 0 <= j < at :: out[j] == old(out[j])
      ensures forall j | at <= j < at + take :: out[j] == StreamByte(key[..], nonce[..], old(drawn) + j - at)
    {
      hide Block, StreamByte, CounterWord;
      for i := 0 to take
        invariant Valid() && drawn == old(drawn) && blockOffset == old(blockOffset)
        invariant forall j | 0 <= j < at :: out[j] == old(out[j])
        invariant forall j | at <= j < at + i :: out[j] == StreamByte(key[..], nonce[..], drawn + j - at)
      {
        CachedBytes(i);
        out[at + i] := block[blockOffset + i];
      }
      blockOffset := blockOffset + take;
      drawn := drawn + take;
    }

    /** Fills out with the next bytes of the stream, wherever the last call stopped. */
    method Fill(out: array<bv8>)
      requires Valid() && out != key && out != nonce && out != block
      modifies this`counter, this`blockOffset, this`blocks, this`drawn, block, out
      ensures Valid() && drawn == old(drawn) + out.Length
      ensures out[..] == Stream(key[..], nonce[..], old(drawn), out.Length)
    {
      hide Block, StreamByte, CounterWord;
      var at := 0;
      while at < out.Length
        invariant Valid() && 0 <= at <= out.Length && drawn == old(drawn) + at
        invariant key[..] == old(key[..]) && nonce[..] == old(nonce[..])
        invariant forall j | 0 <= j < at :: out[j] == StreamByte(key[..], nonce[..], old(drawn) + j)
      {
        if blockOffset >= 64 {
          Refill();
        }
        var take := if out.Length - at < 64 - blockOffset then out.Length - at else 64 - blockOffset;
        CopyOut(out, at, take);
        at := at + take;
      }
    }

    /** However a caller cuts its requests, the chunks joined are the stream. */
    method FillEach(sizes: seq<nat>) returns (joined: seq<bv8>)
      requires Valid()
      modifies this`counter, this`blockOffset, this`blocks, this`drawn, block
      ensures Valid() && drawn == old(drawn) + Total(sizes)
      ensures joined == Stream(key[..], nonce[..], old(drawn), Total(sizes))
    {
      hide Stream, Block;
      joined := [];
      assert sizes[..|sizes|] == sizes;
      for i := 0 to |sizes|
        invariant Valid() && drawn == old(drawn) + Total(sizes[..i])
        invariant key[..] == old(key[..]) && nonce[..] == old(nonce[..])
        invariant joined == Stream(key[..], nonce[..], old(drawn), Total(sizes[..i]))
      {
        var out := new bv8[sizes[i]];
        StreamSplits(key[..], nonce[..], old(drawn), Total(sizes[..i]), sizes[i]);
        assert sizes[..i + 1][..i] == sizes[..i];
        Fill(out);
        joined := joined + out[..];
      }
    }
  }
}
