/** The test vectors of sections 2.1.1 and 2.3.2 of RFC 8439. */
module ChaCha20Vectors {
  import opened ChaCha20

  lemma QuarterVector()
    ensures Quarter(Quad(0x1111_1111, 0x0102_0304, 0x9b8d_6f43, 0x0123_4567))
         == Quad(0xea2a_92f4, 0xcb1c_f8ce, 0x4581_472e, 0x5881_c4bb)
  {
  }

  // ------------------------------------------------------------------ the state as four columns

  datatype Matrix = Matrix(c0: Quad, c1: Quad, c2: Quad, c3: Quad)

  /** The columns through a quarter round each, then the diagonals. */
  function MatrixRound(m: Matrix): Matrix {
    var a, b, c, d := Quarter(m.c0), Quarter(m.c1), Quarter(m.c2), Quarter(m.c3);
    var e, f := Quarter(Quad(a.a, b.b, c.c, d.d)), Quarter(Quad(b.a, c.b, d.c, a.d));
    var g, h := Quarter(Quad(c.a, d.b, a.c, b.d)), Quarter(Quad(d.a, a.b, b.c, c.d));
    Matrix(Quad(e.a, h.b, g.c, f.d), Quad(f.a, e.b, h.c, g.d), Quad(g.a, f.b, e.c, h.d), Quad(h.a, g.b, f.c, e.d))
  }

  function Columns(w: State): Matrix {
    Matrix(Quad(w[0], w[4], w[8], w[12]), Quad(w[1], w[5], w[9], w[13]),
           Quad(w[2], w[6], w[10], w[14]), Quad(w[3], w[7], w[11], w[15]))
  }

  lemma DoubleRoundColumns(w: State)
    ensures Columns(DoubleRound(w)) == MatrixRound(Columns(w))
  {
    LayoutsApart();
    MixAppend(w, COLUMNS, DIAGONALS);
    assert LAYOUT == COLUMNS + DIAGONALS;
    hide Quarter, Mix, AllApart, ProperLayout;
    var v := Mix(w, COLUMNS);
    MixDisjoint(w, COLUMNS, 0);
    MixDisjoint(w, COLUMNS, 1);
    MixDisjoint(w, COLUMNS, 2);
    MixDisjoint(w, COLUMNS, 3);
    MixDisjoint(v, DIAGONALS, 0);
    MixDisjoint(v, DIAGONALS, 1);
    MixDisjoint(v, DIAGONALS, 2);
    MixDisjoint(v, DIAGONALS, 3);
  }

  // ------------------------------------------------------------------ ten double rounds

  const M0 := Matrix(
    Quad(0x61707865, 0x03020100, 0x13121110, 0x00000001), Quad(0x3320646e, 0x07060504, 0x17161514, 0x09000000),
    Quad(0x79622d32, 0x0b0a0908, 0x1b1a1918, 0x4a000000), Quad(0x6b206574, 0x0f0e0d0c, 0x1f1e1d1c, 0x00000000))
  const M2 := Matrix(
    Quad(0xcf1a7584, 0x901d2f40, 0x2dafb216, 0x10aef18d), Quad(0x048927ec, 0x7974b81c, 0x27c89cd6, 0x16218765),
    Quad(0x54051fda, 0x378dcfb4, 0xcd3c9aa0, 0x68f76705), Quad(0xc244ff28, 0xcd47fd0e, 0x79fc89c7, 0x04d6ee22))
  const M4 := Matrix(
    Quad(0x9a2d3589, 0x0a1bffc6, 0xe46c6354, 0x2687d476), Quad(0x0b23fc4e, 0x5e5993f7, 0xc9503229, 0x54e65231),
    Quad(0x40af3b6b, 0x9904c2e7, 0x04fef5aa, 0x3594ffc5), Quad(0xceea8144, 0x0d334718, 0xf8933f72, 0x2b3bb2ca))
  const M6 := Matrix(
    Quad(0x04a3131a, 0x36cc86c7, 0x07d13aca, 0x33b6686d), Quad(0x66176309, 0xbf8a4465, 0xeb0be9af, 0x795cc671),
    Quad(0x0415bab1, 0xf77dd720, 0x61599491, 0xc0049972), Quad(0x61b880a2, 0xfc0bdc90, 0x918512dc, 0xa0a81bde))
  const M8 := Matrix(
    Quad(0xca5c85dd, 0x982563f8, 0x1c25931a, 0xa9b751fb), Quad(0x93a4f90e, 0x712aa9ff, 0x5180bb10, 0x382f3ce2),
    Quad(0xd9f0df58, 0x279a61e8, 0x779c27e7, 0x8db1757d), Quad(0x26dd82dd, 0x970f72bd, 0x54077e08, 0xcc38080b))
  const M10 := Matrix(
    Quad(0x837778ab, 0xc4f2d0c7, 0x335271c2, 0xd19c12b4), Quad(0xe238d763, 0xfc62bb2f, 0xf29489f3, 0xb04e16de),
    Quad(0xa67ae21e, 0x8fa018fc, 0xeabda8fc, 0x9e83d0cb), Quad(0x5950bb2f, 0x3f5ec7b7, 0x82e46ebd, 0x4e3c50a2))

  lemma Rounds2()
    ensures MatrixRound(MatrixRound(M0)) == M2
  {
  }

  lemma Rounds4()
    ensures MatrixRound(MatrixRound(M2)) == M4
  {
  }

  lemma Rounds6()
    ensures MatrixRound(MatrixRound(M4)) == M6
  {
  }

  lemma Rounds8()
    ensures MatrixRound(MatrixRound(M6)) == M8
  {
  }

  lemma Rounds10()
    ensures MatrixRound(MatrixRound(M8)) == M10
  {
  }

  const KEY: Key :=
    [0x00, 0x01, 0x02, 0x03, 0x04, 0x05, 0x06, 0x07] + [0x08, 0x09, 0x0a, 0x0b, 0x0c, 0x0d, 0x0e, 0x0f]
    + [0x10, 0x11, 0x12, 0x13, 0x14, 0x15, 0x16, 0x17] + [0x18, 0x19, 0x1a, 0x1b, 0x1c, 0x1d, 0x1e, 0x1f]
  const NONCE: Nonce := [0, 0, 0, 9, 0, 0, 0, 0x4a, 0, 0, 0, 0]

  lemma LoadWord(p: seq<bv8>, at: nat, a: bv8, b: bv8, c: bv8, d: bv8, w: bv32)
    requires at + 4 <= |p| && p[at] == a && p[at + 1] == b && p[at + 2] == c && p[at + 3] == d
    requires w == (a as bv32) | ((b as bv32) << 8) | ((c as bv32) << 16) | ((d as bv32) << 24)
    ensures Load(p, at) == w
  {
  }

  lemma KeyStart()
    ensures Load(KEY, 0) == 0x03020100 && Load(KEY, 4) == 0x07060504
  {
    hide Load;
    LoadWord(KEY, 0, 0x00, 0x01, 0x02, 0x03, 0x03020100);
    LoadWord(KEY, 4, 0x04, 0x05, 0x06, 0x07, 0x07060504);
  }

  lemma KeyFront()
    ensures Load(KEY, 8) == 0x0b0a0908 && Load(KEY, 12) == 0x0f0e0d0c
  {
    hide Load;
    LoadWord(KEY, 8, 0x08, 0x09, 0x0a, 0x0b, 0x0b0a0908);
    LoadWord(KEY, 12, 0x0c, 0x0d, 0x0e, 0x0f, 0x0f0e0d0c);
  }

  lemma KeyBack()
    ensures Load(KEY, 16) == 0x13121110 && Load(KEY, 20) == 0x17161514
    ensures Load(KEY, 24) == 0x1b1a1918 && Load(KEY, 28) == 0x1f1e1d1c
  {
    hide Load;
    LoadWord(KEY, 16, 0x10, 0x11, 0x12, 0x13, 0x13121110);
    LoadWord(KEY, 20, 0x14, 0x15, 0x16, 0x17, 0x17161514);
    LoadWord(KEY, 24, 0x18, 0x19, 0x1a, 0x1b, 0x1b1a1918);
    LoadWord(KEY, 28, 0x1c, 0x1d, 0x1e, 0x1f, 0x1f1e1d1c);
  }

  lemma NonceWords()
    ensures Load(NONCE, 0) == 0x09000000 && Load(NONCE, 4) == 0x4a000000 && Load(NONCE, 8) == 0
  {
    hide Load;
    LoadWord(NONCE, 0, 0, 0, 0, 9, 0x09000000);
    LoadWord(NONCE, 4, 0, 0, 0, 0x4a, 0x4a000000);
    LoadWord(NONCE, 8, 0, 0, 0, 0, 0);
  }

  lemma VectorStart()
    ensures Columns(InitialState(KEY, 1, NONCE)) == M0
  {
    KeyStart();
    KeyFront();
    KeyBack();
    NonceWords();
    hide Load;
  }

  lemma TwoRounds(start: State, n: nat)
    ensures Columns(Rounds(start, n + 2)) == MatrixRound(MatrixRound(Columns(Rounds(start, n))))
  {
    hide MatrixRound, Columns, DoubleRound;
    DoubleRoundColumns(Rounds(start, n));
    DoubleRoundColumns(Rounds(start, n + 1));
  }

  lemma VectorRounds()
    ensures Columns(Rounds(InitialState(KEY, 1, NONCE), 10)) == M10
  {
    hide MatrixRound, Columns, DoubleRound, InitialState;
    var start := InitialState(KEY, 1, NONCE);
    VectorStart();
    Rounds2();
    TwoRounds(start, 0);
    Rounds4();
    TwoRounds(start, 2);
    Rounds6();
    TwoRounds(start, 4);
    Rounds8();
    TwoRounds(start, 6);
    Rounds10();
    TwoRounds(start, 8);
  }

  /** The words of the block, as they are serialised. */
  const BLOCK: seq<bv32> := [
    0xe4e7f110, 0x15593bd1, 0x1fdd0f50, 0xc47120a3,
    0xc7f4d1c7, 0x0368c033, 0x9aaa2204, 0x4e6cd4c3,
    0x466482d2, 0x09aa9f07, 0x05d7c214, 0xa2028bd9,
    0xd19c12b5, 0xb94e16de, 0xe883d0cb, 0x4e3c50a2
  ]

  lemma BlockWords(i: nat)
    requires i < 16
    ensures BlockWord(InitialState(KEY, 1, NONCE), i) == BLOCK[i]
  {
    VectorStart();
    VectorRounds();
    hide Rounds, InitialState;
  }

  lemma BlockVector(i: nat)
    requires i < 16
    ensures Load(Block(KEY, 1, NONCE), 4 * i) == BLOCK[i]
  {
    BlockWords(i);
    var start := InitialState(KEY, 1, NONCE);
    hide Load, InitialState, Rounds;
    BlockStores(KEY, 1, NONCE, i);
  }
}
