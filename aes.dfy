/**
 * The cipher (AES.java): its four tables, the round structure of cipher and decipher, the
 * conditions under which decipher undoes cipher, and the AES object that holds the round
 * keys, the two S-boxes and the two mix matrices.
 */
module Aes {
  import opened Sizes
  import opened Blocks
  import opened SBoxes
  import opened Keys
  import opened States

  // ---------------------------------------------------------------------------
  // The tables

  /** AES.sBoxValues */
  const SBoxValues: Table := [[0x9, 0x4, 0xA, 0xB], [0xD, 0x1, 0x8, 0x5], [0x6, 0x2, 0x0, 0x3], [0xC, 0xE, 0xF, 0x7]]

  /** AES.sBoxInvertValues */
  const SBoxInvertValues: Table := [[0xA, 0x5, 0x9, 0xB], [0x1, 0x7, 0x8, 0xF], [0x6, 0x0, 0x2, 0x3], [0xC, 0x4, 0xD, 0xE]]

  /** AES.stateValues */
  const StateValues: Table := [[1, 4], [4, 1]]

  /** AES.stateInvertValues */
  const StateInvertValues: Table := [[9, 2], [2, 9]]

  /**
   * The reduction that x^4 + x + 1 calls for when a 4-bit unit is doubled: 0011. The source
   * reduces by the first four bits of GeneratorPolynomial instead, 0001, that is by x^4 + 1.
   */
  const FixedGenerator: Block := [false, false, true, true]

  /** The S-box tables are inverse to each other in both directions. */
  lemma TablesInverse()
    ensures CoversUnits(SBoxValues) && CoversUnits(SBoxInvertValues)
    ensures UndoesBelow(SBoxValues, SBoxInvertValues, 16)
    ensures UndoesBelow(SBoxInvertValues, SBoxValues, 16)
  {
    Undoes(SBoxValues, SBoxInvertValues);
    Undoes(SBoxInvertValues, SBoxValues);
  }

  /** Every 4-bit unit selects an entry of either S-box table. */
  lemma TablesCover()
    ensures CoversUnits(SBoxValues) && CoversUnits(SBoxInvertValues)
  {
  }

  /** UndoesBelow evaluated entry by entry, for either order of the two tables. */
  lemma Undoes(s: Table, inv: Table)
    requires (s == SBoxValues && inv == SBoxInvertValues) || (s == SBoxInvertValues && inv == SBoxValues)
    ensures CoversUnits(s) && CoversUnits(inv) && UndoesBelow(s, inv, 16)
  {
    assert CoversUnits(s) && CoversUnits(inv);
    assert UndoesBelow(s, inv, 4);
    assert UndoesBelow(s, inv, 8);
    assert UndoesBelow(s, inv, 12);
  }

  /** The mix matrix of cipher, the state built from stateValues. */
  function MixMatrix(): (m: Grid)
    ensures UnitGrid(m)
  {
    ValuesGrid(StateValues)
  }

  /** The mix matrix of decipher, the state built from stateInvertValues. */
  function InvMixMatrix(): (m: Grid)
    ensures UnitGrid(m)
  {
    ValuesGrid(StateInvertValues)
  }

  /** The units 1, 2, 4 and 9 of the two mix matrices. */
  const One: Block := [false, false, false, true]
  const Two: Block := [false, false, true, false]
  const Four: Block := [false, true, false, false]
  const Nine: Block := [true, false, false, true]

  /** The mix matrices cell by cell: {{1, 4}, {4, 1}} and {{9, 2}, {2, 9}}. */
  lemma MatrixUnits()
    ensures MixMatrix() == [[One, Four], [Four, One]]
    ensures InvMixMatrix() == [[Nine, Two], [Two, Nine]]
  {
    UnitValues();
    assert UnitWidth == 4;
    GridExt(MixMatrix(), [[One, Four], [Four, One]]);
    GridExt(InvMixMatrix(), [[Nine, Two], [Two, Nine]]);
  }

  /** Block(4, v) for the values of the mix matrices. */
  lemma UnitValues()
    ensures FromValue(4, 1) == One && FromValue(4, 2) == Two && FromValue(4, 4) == Four && FromValue(4, 9) == Nine
  {
    assert FromValue(1, 0) == [false] && FromValue(1, 1) == [true];
    assert FromValue(2, 0) == [false, false] && FromValue(2, 1) == [false, true] && FromValue(2, 2) == [true, false];
    assert FromValue(3, 0) == [false, false, false] && FromValue(3, 1) == [false, false, true];
    assert FromValue(3, 2) == [false, true, false] && FromValue(3, 4) == [true, false, false];
  }

  // ---------------------------------------------------------------------------
  // Rounds

  /** What one encryption needs besides the key: a covering S-box, a mix matrix of units, a generator for units. */
  predicate Suite(s: Table, m: Grid, gen: Block)
  {
    CoversUnits(s) && UnitGrid(m) && UnitWidth <= |gen|
  }

  /** NumberRounds round keys of NumberBlocks key words each. */
  predicate RoundKeys(ks: seq<seq<Block>>)
  {
    |ks| == NumberRounds && forall i :: 0 <= i < NumberRounds ==> KeyWords(ks[i])
  }

  /** substitute, then shift. */
  function ShiftSub(g: Grid, s: Table): (r: Grid)
    requires UnitGrid(g) && CoversUnits(s)
    ensures UnitGrid(r)
  {
    SubBytesUnits(g, s);
    ShiftRowsUnits(SubBytes(g, s));
    ShiftRows(SubBytes(g, s))
  }

  /** shiftInvert, then substitute. */
  function UnshiftSub(d: Grid, inv: Table): (r: Grid)
    requires UnitGrid(d) && CoversUnits(inv)
    ensures UnitGrid(r)
  {
    ShiftRowsUnits(d);
    SubBytesUnits(InvShiftRows(d), inv);
    SubBytes(InvShiftRows(d), inv)
  }

  /** XOR with a round key, on a grid of units. */
  function AddKey(g: Grid, k: seq<Block>): (r: Grid)
    requires UnitGrid(g) && KeyWords(k)
    ensures UnitGrid(r)
  {
    UnitKeyFits(g, k);
    AddRoundKey(g, k)
  }

  /** multiply by m, on a grid of units. */
  function MixUnits(g: Grid, m: Grid, gen: Block): (r: Grid)
    requires UnitGrid(g) && UnitGrid(m) && UnitWidth <= |gen|
    ensures UnitGrid(r)
  {
    UnitMixable(g, m, gen);
    Mix(g, m, gen)
  }

  /** One pass of cipher's loop: substitute, shift, multiply by m, XOR with the round key. */
  function Round(g: Grid, k: seq<Block>, s: Table, m: Grid, gen: Block): (r: Grid)
    requires UnitGrid(g) && KeyWords(k) && Suite(s, m, gen)
    ensures UnitGrid(r)
  {
    AddKey(MixUnits(ShiftSub(g, s), m, gen), k)
  }

  /** One pass of decipher's loop: shiftInvert, substitute, XOR with the round key, multiply by n. */
  function InvRound(d: Grid, k: seq<Block>, inv: Table, n: Grid, gen: Block): (r: Grid)
    requires UnitGrid(d) && KeyWords(k) && Suite(inv, n, gen)
    ensures UnitGrid(r)
  {
    MixUnits(AddKey(UnshiftSub(d, inv), k), n, gen)
  }

  /** cipher's loop up to (not including) round `round`: rounds 1, ..., round - 1 in turn. */
  function ForwardRounds(g: Grid, ks: seq<seq<Block>>, s: Table, m: Grid, gen: Block, round: nat): (r: Grid)
    requires UnitGrid(g) && RoundKeys(ks) && Suite(s, m, gen) && round < NumberRounds
    ensures UnitGrid(r)
  {
    if round <= 1 then g else Round(ForwardRounds(g, ks, s, m, gen, round - 1), ks[round - 1], s, m, gen)
  }

  /** decipher's loop from round `round` down to round 1. */
  function BackwardRounds(d: Grid, ks: seq<seq<Block>>, inv: Table, n: Grid, gen: Block, round: nat): (r: Grid)
    requires UnitGrid(d) && RoundKeys(ks) && Suite(inv, n, gen) && round < NumberRounds
    ensures UnitGrid(r)
    decreases round
  {
    if round == 0 then d else BackwardRounds(InvRound(d, ks[round], inv, n, gen), ks, inv, n, gen, round - 1)
  }

  /** cipher on the state: key 0, the middle rounds, then substitute, shift and the last key. */
  function EncryptGrid(g: Grid, ks: seq<seq<Block>>, s: Table, m: Grid, gen: Block): (r: Grid)
    requires UnitGrid(g) && RoundKeys(ks) && Suite(s, m, gen)
    ensures UnitGrid(r)
  {
    var x := ForwardRounds(AddKey(g, ks[0]), ks, s, m, gen, NumberRounds - 1);
    AddKey(ShiftSub(x, s), ks[NumberRounds - 1])
  }

  /** decipher on the state: the last key, the middle rounds backwards, then shiftInvert, substitute and key 0. */
  function DecryptGrid(c: Grid, ks: seq<seq<Block>>, inv: Table, n: Grid, gen: Block): (r: Grid)
    requires UnitGrid(c) && RoundKeys(ks) && Suite(inv, n, gen)
    ensures UnitGrid(r)
  {
    var d := BackwardRounds(AddKey(c, ks[NumberRounds - 1]), ks, inv, n, gen, NumberRounds - 2);
    AddKey(UnshiftSub(d, inv), ks[0])
  }

  /** AES.cipher on a block, for any round keys, S-box, mix matrix and generator. */
  function Encrypt(b: Block, ks: seq<seq<Block>>, s: Table, m: Grid, gen: Block): (r: Block)
    requires |b| == BlockWidth && RoundKeys(ks) && Suite(s, m, gen)
    ensures |r| == BlockWidth
  {
    var e := EncryptGrid(GridOf(b), ks, s, m, gen);
    BlockWidthOf(e);
    BlockOf(e)
  }

  /** AES.decipher on a block, for any round keys, inverse S-box, mix matrix and generator. */
  function Decrypt(c: Block, ks: seq<seq<Block>>, inv: Table, n: Grid, gen: Block): (r: Block)
    requires |c| == BlockWidth && RoundKeys(ks) && Suite(inv, n, gen)
    ensures |r| == BlockWidth
  {
    var d := DecryptGrid(GridOf(c), ks, inv, n, gen);
    BlockWidthOf(d);
    BlockOf(d)
  }

  /** A grid of units lays out as a cipher block, and a cipher block fills a grid of units. */
  lemma BlockWidthOf(g: Grid)
    requires UnitGrid(g)
    ensures |BlockOf(g)| == BlockWidth && GridOf(BlockOf(g)) == g
  {
    GridOfBlockOf(g, UnitWidth);
    var parts := Columnwise(g);
    forall k | 0 <= k < CellCount
      ensures |parts[k]| == UnitWidth
    {
      var i, j := k % NumberBlocks, k / NumberBlocks;
      assert k == NumberBlocks * j + i;
    }
    TotalLengthUniform(parts, UnitWidth);
  }

  // ---------------------------------------------------------------------------
  // Decipher undoes cipher

  /** multiply by n undoes multiply by m on every grid of units. */
  ghost predicate MixInverts(m: Grid, n: Grid, gen: Block)
    requires UnitGrid(m) && UnitGrid(n) && UnitWidth <= |gen|
  {
    forall y {:trigger MixUnits(MixUnits(y, m, gen), n, gen)} :: UnitGrid(y) ==> MixUnits(MixUnits(y, m, gen), n, gen) == y
  }

  /** shiftInvert and the inverse S-box undo substitute and shift. */
  lemma UnshiftSubUndone(g: Grid, s: Table, inv: Table)
    requires UnitGrid(g) && CoversUnits(s) && CoversUnits(inv) && UndoesBelow(s, inv, 16)
    ensures UnshiftSub(ShiftSub(g, s), inv) == g
  {
    SubBytesUnits(g, s);
    ShiftRowsUndone(SubBytes(g, s));
    SubBytesUndone(g, s, inv);
  }

  /** substitute and shift undo shiftInvert and the inverse S-box, when the S-box undoes the inverse one. */
  lemma ShiftSubUndone(d: Grid, s: Table, inv: Table)
    requires UnitGrid(d) && CoversUnits(s) && CoversUnits(inv) && UndoesBelow(inv, s, 16)
    ensures ShiftSub(UnshiftSub(d, inv), s) == d
  {
    ShiftRowsUnits(d);
    SubBytesUndone(InvShiftRows(d), inv, s);
    InvShiftRowsUndone(d);
  }

  /** One pass of decipher's loop after one pass of cipher's loop leaves multiply by m, then by n, of the substituted and shifted state. */
  lemma RoundMixes(y: Grid, k: seq<Block>, s: Table, inv: Table, m: Grid, n: Grid, gen: Block)
    requires UnitGrid(y) && KeyWords(k) && Suite(s, m, gen) && Suite(inv, n, gen) && UndoesBelow(s, inv, 16)
    ensures InvRound(ShiftSub(Round(y, k, s, m, gen), s), k, inv, n, gen) == MixUnits(MixUnits(ShiftSub(y, s), m, gen), n, gen)
  {
    var z := MixUnits(ShiftSub(y, s), m, gen);
    UnshiftSubUndone(Round(y, k, s, m, gen), s, inv);
    UnitKeyFits(z, k);
    AddRoundKeyTwice(z, k);
  }

  /** One pass of decipher's loop undoes one pass of cipher's loop, up to the substitute and shift that follow it. */
  lemma RoundUndone(y: Grid, k: seq<Block>, s: Table, inv: Table, m: Grid, n: Grid, gen: Block)
    requires UnitGrid(y) && KeyWords(k) && Suite(s, m, gen) && Suite(inv, n, gen)
    requires UndoesBelow(s, inv, 16) && MixInverts(m, n, gen)
    ensures InvRound(ShiftSub(Round(y, k, s, m, gen), s), k, inv, n, gen) == ShiftSub(y, s)
  {
    RoundMixes(y, k, s, inv, m, n, gen);
  }

  /** decipher's loop undoes cipher's loop: after rounds round, ..., 1 the state is ShiftSub of the first state. */
  lemma {:induction false} BackwardUndoesForward(x: Grid, ks: seq<seq<Block>>, s: Table, inv: Table, m: Grid, n: Grid, gen: Block, round: nat)
    requires UnitGrid(x) && RoundKeys(ks) && Suite(s, m, gen) && Suite(inv, n, gen)
    requires UndoesBelow(s, inv, 16) && MixInverts(m, n, gen) && round + 1 < NumberRounds
    ensures BackwardRounds(ShiftSub(ForwardRounds(x, ks, s, m, gen, round + 1), s), ks, inv, n, gen, round) == ShiftSub(x, s)
  {
    if round > 0 {
      var y := ForwardRounds(x, ks, s, m, gen, round);
      var d := ShiftSub(Round(y, ks[round], s, m, gen), s);
      assert ForwardRounds(x, ks, s, m, gen, round + 1) == Round(y, ks[round], s, m, gen);
      assert InvRound(d, ks[round], inv, n, gen) == ShiftSub(y, s) by {
        RoundUndone(y, ks[round], s, inv, m, n, gen);
      }
      assert BackwardRounds(ShiftSub(y, s), ks, inv, n, gen, round - 1) == ShiftSub(x, s) by {
        BackwardUndoesForward(x, ks, s, inv, m, n, gen, round - 1);
      }
    }
  }

  /** Whatever the round keys: when the inverse S-box undoes the S-box and n undoes m, decipher undoes cipher. */
  lemma RoundTrip(b: Block, ks: seq<seq<Block>>, s: Table, inv: Table, m: Grid, n: Grid, gen: Block)
    requires |b| == BlockWidth && RoundKeys(ks) && Suite(s, m, gen) && Suite(inv, n, gen)
    requires UndoesBelow(s, inv, 16) && MixInverts(m, n, gen)
    ensures Decrypt(Encrypt(b, ks, s, m, gen), ks, inv, n, gen) == b
  {
    var g := GridOf(b);
    var x := AddKey(g, ks[0]);
    var e := EncryptGrid(g, ks, s, m, gen);
    BlockWidthOf(e);
    var f := ShiftSub(ForwardRounds(x, ks, s, m, gen, NumberRounds - 1), s);
    UnitKeyFits(f, ks[NumberRounds - 1]);
    AddRoundKeyTwice(f, ks[NumberRounds - 1]);
    BackwardUndoesForward(x, ks, s, inv, m, n, gen, NumberRounds - 2);
    UnshiftSubUndone(x, s, inv);
    UnitKeyFits(g, ks[0]);
    AddRoundKeyTwice(g, ks[0]);
    BlockOfGridOf(b);
  }

  // ---------------------------------------------------------------------------
  // The two generators

  /** Under the fixed generator, doubling is a left shift that folds the top bit into the two low bits (x = [x0, x1, x2, x3], most significant first). */
  lemma TimesTwo(x: Block)
    requires |x| == 4
    ensures Mul(Two, x, FixedGenerator) == [x[1], x[2], x[3] != x[0], x[0]]
  {
    var eight, three := [true, false, false, false], [false, false, true, true];
    assert MulX(Two, FixedGenerator) == Four;
    assert MulX(Four, FixedGenerator) == eight;
    assert MulX(eight, FixedGenerator) == three;
    MulUnits(Two, x, FixedGenerator);
    SumOfScaled(Two, Four, eight, three, x);
  }

  /** Under the fixed generator, the product by 4 bit by bit. */
  lemma TimesFour(x: Block)
    requires |x| == 4
    ensures Mul(Four, x, FixedGenerator) == [x[2], x[3] != x[0], x[0] != x[1], x[1]]
  {
    var eight, three, six := [true, false, false, false], [false, false, true, true], [false, true, true, false];
    assert MulX(Four, FixedGenerator) == eight;
    assert MulX(eight, FixedGenerator) == three;
    assert MulX(three, FixedGenerator) == six;
    MulUnits(Four, x, FixedGenerator);
    SumOfScaled(Four, eight, three, six, x);
  }

  /** Under the fixed generator, the product by 9 bit by bit: 9 is the inverse of 2. */
  lemma TimesNine(x: Block)
    requires |x| == 4
    ensures Mul(Nine, x, FixedGenerator) == [x[3], x[0], x[1], x[2] != x[3]]
  {
    assert MulX(Nine, FixedGenerator) == One;
    assert MulX(One, FixedGenerator) == Two;
    assert MulX(Two, FixedGenerator) == Four;
    MulUnits(Nine, x, FixedGenerator);
    SumOfScaled(Nine, One, Two, Four, x);
  }

  /** The sum MulUnits writes out, bit by bit: bit t is the xOr of the selected multiples' bits t. */
  lemma SumOfScaled(a: Block, a1: Block, a2: Block, a3: Block, x: Block)
    requires |a| == 4 && |a1| == 4 && |a2| == 4 && |a3| == 4 && |x| == 4
    ensures Xor(Xor(Xor(Scaled(a, x[3]), Scaled(a1, x[2])), Scaled(a2, x[1])), Scaled(a3, x[0])) ==
      seq(4, t requires 0 <= t < 4 => ((a[t] && x[3]) != (a1[t] && x[2])) != ((a2[t] && x[1]) != (a3[t] && x[0])))
  {
  }

  /** Two steps of the running xOr of multiply, written bit by bit. */
  lemma XorPair(a: Block, b: Block)
    requires |a| == 4 && |b| == 4
    ensures Xor(Xor(Zeros(4), a), b) == [a[0] != b[0], a[1] != b[1], a[2] != b[2], a[3] != b[3]]
  {
    XorZeros(a, 4);
  }

  /** One cell of a product of 2 x 2 grids of units: 0000 xOr a * p xOr b * q. */
  function Pair(a: Block, b: Block, p: Block, q: Block, gen: Block): (r: Block)
    requires |a| == 4 && |b| == 4 && |p| == 4 && |q| == 4 && 4 <= |gen|
    ensures |r| == 4
  {
    Xor(Xor(Zeros(4), Mul(a, p, gen)), Mul(b, q, gen))
  }

  /** With the fixed generator, {{9, 2}, {2, 9}} undoes {{1, 4}, {4, 1}}. */
  lemma FixedMixInverts()
    ensures MixInverts(MixMatrix(), InvMixMatrix(), FixedGenerator)
  {
    var m, n, gen := MixMatrix(), InvMixMatrix(), FixedGenerator;
    MatrixUnits();
    forall y | UnitGrid(y)
      ensures MixUnits(MixUnits(y, m, gen), n, gen) == y
    {
      var z := MixUnits(y, m, gen);
      var r := MixUnits(z, n, gen);
      UnitMixable(y, m, gen);
      UnitMixable(z, n, gen);
      forall j | 0 <= j < NumberBlocks
        ensures r[0][j] == y[0][j] && r[1][j] == y[1][j]
      {
        MixCell(y, m, gen, 0, j);
        MixCell(y, m, gen, 1, j);
        MixCell(z, n, gen, 0, j);
        MixCell(z, n, gen, 1, j);
        FixedColumn(y[0][j], y[1][j]);
      }
      GridExt(r, y);
    }
  }

  /** One column (p, q) through {{1, 4}, {4, 1}} and then {{9, 2}, {2, 9}}, under the fixed generator. */
  lemma FixedColumn(p: Block, q: Block)
    requires |p| == 4 && |q| == 4
    ensures var u, v := Pair(One, Four, p, q, FixedGenerator), Pair(Four, One, p, q, FixedGenerator);
      Pair(Nine, Two, u, v, FixedGenerator) == p && Pair(Two, Nine, u, v, FixedGenerator) == q
  {
    var U := [p[0] != q[2], p[1] != (q[3] != q[0]), p[2] != (q[0] != q[1]), p[3] != q[1]];
    var V := [p[2] != q[0], (p[3] != p[0]) != q[1], (p[0] != p[1]) != q[2], p[1] != q[3]];
    assert Pair(One, Four, p, q, FixedGenerator) == U by {
      OneFour(p, q);
    }
    assert Pair(Four, One, p, q, FixedGenerator) == V by {
      FourOne(p, q);
    }
    FixedColumnBack(p, q, U, V);
  }

  /** The second half of FixedColumn: {{9, 2}, {2, 9}} brings back (p, q) from the column (U, V). */
  lemma FixedColumnBack(p: Block, q: Block, U: Block, V: Block)
    requires |p| == 4 && |q| == 4
    requires U == [p[0] != q[2], p[1] != (q[3] != q[0]), p[2] != (q[0] != q[1]), p[3] != q[1]]
    requires V == [p[2] != q[0], (p[3] != p[0]) != q[1], (p[0] != p[1]) != q[2], p[1] != q[3]]
    ensures Pair(Nine, Two, U, V, FixedGenerator) == p && Pair(Two, Nine, U, V, FixedGenerator) == q
  {
    ColumnBits(p[0], p[1], p[2], p[3], q[0], q[1], q[2], q[3]);
    NineTwo(U, V);
    TwoNine(U, V);
    Explode(p);
    Explode(q);
  }

  /** A 4-bit block is the sequence of its four bits. */
  lemma Explode(p: Block)
    requires |p| == 4
    ensures p == [p[0], p[1], p[2], p[3]]
  {
  }

  /** The bit-level identity behind FixedColumn: (U, V) is the column {{1, 4}, {4, 1}} makes of ([a, b, c, d], [e, f, g, h]). */
  lemma ColumnBits(a: bool, b: bool, c: bool, d: bool, e: bool, f: bool, g: bool, h: bool)
    ensures var U := [a != g, b != (h != e), c != (e != f), d != f];
      var V := [c != e, (d != a) != f, (a != b) != g, b != h];
      [U[3] != V[1], U[0] != V[2], U[1] != (V[3] != V[0]), (U[2] != U[3]) != V[0]] == [a, b, c, d] &&
      [U[1] != V[3], U[2] != V[0], (U[3] != U[0]) != V[1], U[0] != (V[2] != V[3])] == [e, f, g, h]
  {
  }

  /** Row {1, 4} of the cipher's mix matrix on the column (p, q), bit by bit. */
  lemma OneFour(p: Block, q: Block)
    requires |p| == 4 && |q| == 4
    ensures Pair(One, Four, p, q, FixedGenerator) ==
      [p[0] != q[2], p[1] != (q[3] != q[0]), p[2] != (q[0] != q[1]), p[3] != q[1]]
  {
    OneTimes(p, FixedGenerator);
    TimesFour(q);
    XorPair(p, Mul(Four, q, FixedGenerator));
  }

  /** Row {4, 1} of the cipher's mix matrix on the column (p, q), bit by bit. */
  lemma FourOne(p: Block, q: Block)
    requires |p| == 4 && |q| == 4
    ensures Pair(Four, One, p, q, FixedGenerator) ==
      [p[2] != q[0], (p[3] != p[0]) != q[1], (p[0] != p[1]) != q[2], p[1] != q[3]]
  {
    TimesFour(p);
    OneTimes(q, FixedGenerator);
    XorPair(Mul(Four, p, FixedGenerator), q);
  }

  /** Row {9, 2} of the decipher's mix matrix on a column (U, V), bit by bit. */
  lemma NineTwo(U: Block, V: Block)
    requires |U| == 4 && |V| == 4
    ensures Pair(Nine, Two, U, V, FixedGenerator) ==
      [U[3] != V[1], U[0] != V[2], U[1] != (V[3] != V[0]), (U[2] != U[3]) != V[0]]
  {
    TimesNine(U);
    TimesTwo(V);
    XorPair(Mul(Nine, U, FixedGenerator), Mul(Two, V, FixedGenerator));
  }

  /** Row {2, 9} of the decipher's mix matrix on a column (U, V), bit by bit. */
  lemma TwoNine(U: Block, V: Block)
    requires |U| == 4 && |V| == 4
    ensures Pair(Two, Nine, U, V, FixedGenerator) ==
      [U[1] != V[3], U[2] != V[0], (U[3] != U[0]) != V[1], U[0] != (V[2] != V[3])]
  {
    TimesTwo(U);
    TimesNine(V);
    XorPair(Mul(Two, U, FixedGenerator), Mul(Nine, V, FixedGenerator));
  }

  /**
   * With the source's generator, {{9, 2}, {2, 9}} does not undo {{1, 4}, {4, 1}}: the grid with 0001
   * in its top left cell and 0000 elsewhere comes back with 0100 in its bottom left cell.
   */
  lemma MixNotInverted()
    ensures !MixInverts(MixMatrix(), InvMixMatrix(), GeneratorPolynomial)
  {
    var m, n, gen := MixMatrix(), InvMixMatrix(), GeneratorPolynomial;
    MatrixUnits();
    var y := [[One, Zeros(4)], [Zeros(4), Zeros(4)]];
    assert UnitGrid(y);
    var z := MixUnits(y, m, gen);
    MixedColumn(y, m, gen);
    UnmixedColumn(z, n, gen);
    assert MixUnits(z, n, gen)[1][0] != y[1][0];
  }

  /** The matrix sends the column (1, 0) to the column (1, 4). */
  lemma MixedColumn(y: Grid, m: Grid, gen: Block)
    requires y == [[One, Zeros(4)], [Zeros(4), Zeros(4)]] && m == [[One, Four], [Four, One]]
    requires gen == GeneratorPolynomial
    ensures UnitGrid(MixUnits(y, m, gen))
    ensures MixUnits(y, m, gen)[0][0] == One && MixUnits(y, m, gen)[1][0] == Four
  {
    UnitValues();
    assert UnitGrid(y) && UnitGrid(m);
    UnitMixable(y, m, gen);
    MixCell(y, m, gen, 0, 0);
    MixCell(y, m, gen, 1, 0);
    assert Mul(One, One, gen) == One by { OneTimes(One, gen); }
    assert Mul(Four, One, gen) == Four by { MulByOne(Four, 4, gen); assert Zeros(3) + [true] == One; }
    assert Mul(Four, Zeros(4), gen) == Zeros(4) by { MulByZero(Four, 4, gen); }
    assert Mul(One, Zeros(4), gen) == Zeros(4) by { MulByZero(One, 4, gen); }
    XorPair(One, Zeros(4));
    XorPair(Four, Zeros(4));
  }

  /** With the generator as written, the inverse matrix sends the column (1, 4) to a column whose second unit is 4, not 0. */
  lemma UnmixedColumn(z: Grid, n: Grid, gen: Block)
    requires UnitGrid(z) && z[0][0] == One && z[1][0] == Four && n == [[Nine, Two], [Two, Nine]]
    requires gen == GeneratorPolynomial
    ensures MixUnits(z, n, gen)[1][0] == Four
  {
    UnitValues();
    assert UnitGrid(n);
    UnitMixable(z, n, gen);
    MixCell(z, n, gen, 1, 0);
    assert Mul(Two, One, gen) == Two by { MulByOne(Two, 4, gen); assert Zeros(3) + [true] == One; }
    assert Mul(Nine, Four, gen) == [false, true, true, false] by {
      assert MulX(Nine, gen) == [false, false, true, true];
      assert MulX([false, false, true, true], gen) == [false, true, true, false];
      MulUnits(Nine, Four, gen);
    }
    XorPair(Two, [false, true, true, false]);
  }

  // ---------------------------------------------------------------------------
  // The cipher with its own tables and key schedule

  /** The round keys genSubKeys makes from a 16-bit cipher key, with the S-box table and the given generator. */
  function KeySchedule(key: Block, gen: Block): (ks: seq<seq<Block>>)
    requires |key| == BlockWidth && UnitWidth <= |gen|
    ensures RoundKeys(ks)
  {
    Schedule(WordsOf(key), SBoxValues, gen)
  }

  /** AES(key).cipher(plain), with the given generator for every doubling. */
  function AesEncrypt(plain: Block, key: Block, gen: Block): (r: Block)
    requires |plain| == BlockWidth && |key| == BlockWidth && UnitWidth <= |gen|
    ensures |r| == BlockWidth
  {
    Encrypt(plain, KeySchedule(key, gen), SBoxValues, MixMatrix(), gen)
  }

  /** AES(key).decipher(c), with the given generator for every doubling. */
  function AesDecrypt(c: Block, key: Block, gen: Block): (r: Block)
    requires |c| == BlockWidth && |key| == BlockWidth && UnitWidth <= |gen|
    ensures |r| == BlockWidth
  {
    Decrypt(c, KeySchedule(key, gen), SBoxInvertValues, InvMixMatrix(), gen)
  }

  /** With the fixed generator, decipher undoes cipher for every block and every key. */
  lemma CorrectedRoundTrip(plain: Block, key: Block)
    requires |plain| == BlockWidth && |key| == BlockWidth
    ensures AesDecrypt(AesEncrypt(plain, key, FixedGenerator), key, FixedGenerator) == plain
  {
    TablesInverse();
    FixedMixInverts();
    RoundTrip(plain, KeySchedule(key, FixedGenerator), SBoxValues, SBoxInvertValues, MixMatrix(), InvMixMatrix(), FixedGenerator);
  }

  /** The plain text of AES.main, parsed from its binary string. */
  const SamplePlain: Block := Parse("0110111101101011")

  /** The key of AES.main, parsed from its binary string. */
  const SampleKey: Block := Parse("0010110101010101")

  /** The comparison that ends AES.main comes out equal once the generator is fixed. */
  lemma SampleRoundTrip()
    ensures |SamplePlain| == BlockWidth && |SampleKey| == BlockWidth
    ensures AesDecrypt(AesEncrypt(SamplePlain, SampleKey, FixedGenerator), SampleKey, FixedGenerator) == SamplePlain
  {
    CorrectedRoundTrip(SamplePlain, SampleKey);
  }

  /** As written, for every key some block does not come back from decipher(cipher(block)). */
  lemma RoundTripFails(key: Block) returns (plain: Block)
    requires |key| == BlockWidth
    ensures |plain| == BlockWidth && AesDecrypt(AesEncrypt(plain, key, GeneratorPolynomial), key, GeneratorPolynomial) != plain
  {
    MixNotInverted();
    var y :| UnitGrid(y) && MixUnits(MixUnits(y, MixMatrix(), GeneratorPolynomial), InvMixMatrix(), GeneratorPolynomial) != y;
    plain := FailsWith(key, y, SBoxValues, SBoxInvertValues);
  }

  /** RoundTripFails for one grid y on which the inverse matrix fails to undo the matrix. */
  lemma FailsWith(key: Block, y: Grid, s: Table, inv: Table) returns (plain: Block)
    requires |key| == BlockWidth && s == SBoxValues && inv == SBoxInvertValues
    requires UnitGrid(y) && MixUnits(MixUnits(y, MixMatrix(), GeneratorPolynomial), InvMixMatrix(), GeneratorPolynomial) != y
    ensures |plain| == BlockWidth && AesDecrypt(AesEncrypt(plain, key, GeneratorPolynomial), key, GeneratorPolynomial) != plain
  {
    TablesInverse();
    plain := NoRoundTrip(y, KeySchedule(key, GeneratorPolynomial), s, inv, MixMatrix(), InvMixMatrix(), GeneratorPolynomial);
  }

  /**
   * Whatever the round keys, when multiply by n fails to undo multiply by m on a grid y, decipher
   * fails to undo cipher on the block whose first round's substitute and shift give y.
   */
  lemma NoRoundTrip(y: Grid, ks: seq<seq<Block>>, s: Table, inv: Table, m: Grid, n: Grid, gen: Block) returns (plain: Block)
    requires UnitGrid(y) && RoundKeys(ks) && Suite(s, m, gen) && Suite(inv, n, gen)
    requires UndoesBelow(s, inv, 16) && UndoesBelow(inv, s, 16)
    requires MixUnits(MixUnits(y, m, gen), n, gen) != y
    ensures |plain| == BlockWidth && Decrypt(Encrypt(plain, ks, s, m, gen), ks, inv, n, gen) != plain
  {
    var x := UnshiftSub(y, inv);
    assert ShiftSub(x, s) == y by {
      ShiftSubUndone(y, s, inv);
    }
    var g := AddKey(x, ks[0]);
    plain := BlockOf(g);
    assert |plain| == BlockWidth && GridOf(plain) == g by {
      BlockWidthOf(g);
    }
    var f := ShiftSub(Round(x, ks[1], s, m, gen), s);
    var e := EncryptGrid(g, ks, s, m, gen);
    assert e == AddKey(f, ks[2]) by {
      assert AddKey(g, ks[0]) == x by {
        UnitKeyFits(x, ks[0]);
        AddRoundKeyTwice(x, ks[0]);
      }
      assert ForwardRounds(x, ks, s, m, gen, 2) == Round(x, ks[1], s, m, gen);
    }
    var mm := MixUnits(MixUnits(y, m, gen), n, gen);
    var d := DecryptGrid(e, ks, inv, n, gen);
    assert d == AddKey(UnshiftSub(mm, inv), ks[0]) by {
      assert AddKey(e, ks[2]) == f by {
        UnitKeyFits(f, ks[2]);
        AddRoundKeyTwice(f, ks[2]);
      }
      assert BackwardRounds(f, ks, inv, n, gen, 1) == InvRound(f, ks[1], inv, n, gen);
      RoundMixes(x, ks[1], s, inv, m, n, gen);
    }
    assert Decrypt(Encrypt(plain, ks, s, m, gen), ks, inv, n, gen) == BlockOf(d) by {
      BlockWidthOf(e);
    }
    assert BlockOf(d) != BlockOf(g) by {
      BlockWidthOf(d);
      BlockWidthOf(g);
      AddKeyInjective(UnshiftSub(mm, inv), x, ks[0]);
      ShiftSubUndone(mm, s, inv);
      ShiftSubUndone(y, s, inv);
    }
  }

  /** XOR with a round key loses nothing: two grids with the same XOR-ed image are equal. */
  lemma AddKeyInjective(a: Grid, b: Grid, k: seq<Block>)
    requires UnitGrid(a) && UnitGrid(b) && KeyWords(k)
    ensures AddKey(a, k) == AddKey(b, k) ==> a == b
  {
    UnitKeyFits(a, k);
    UnitKeyFits(b, k);
    AddRoundKeyTwice(a, k);
    AddRoundKeyTwice(b, k);
  }

  // ---------------------------------------------------------------------------
  // The AES object

  /** AES: the round keys of one cipher key, the two S-boxes and the two mix matrices. */
  class AES {
    /** AES.keys */
    const keys: array<Key>
    /** AES.sBox */
    const sBox: SBox
    /** AES.sBoxInvert */
    const sBoxInvert: SBox
    /** AES.state */
    const state: State
    /** AES.stateInvert */
    const stateInvert: State

    /** The words of the round keys. */
    ghost const roundKeys: seq<seq<Block>>

    ghost predicate Valid()
      reads this, keys, set i | 0 <= i < keys.Length :: keys[i].bytes
      reads sBox.Repr, sBoxInvert.Repr, state.bytes, stateInvert.bytes
    {
      sBox.Valid() && sBox.table == SBoxValues && CoversUnits(sBox.table) &&
      sBoxInvert.Valid() && sBoxInvert.table == SBoxInvertValues && CoversUnits(sBoxInvert.table) &&
      state.Valid() && state.Bytes() == MixMatrix() &&
      stateInvert.Valid() && stateInvert.Bytes() == InvMixMatrix() &&
      keys.Length == NumberRounds && RoundKeys(roundKeys) &&
      forall i :: 0 <= i < NumberRounds ==> keys[i].Words() == roundKeys[i]
    }

    /** AES(Block): the S-boxes and mix matrices from the four tables, and the round keys of the key. */
    constructor (key: Block)
      requires |key| == BlockWidth
      ensures Valid() && roundKeys == KeySchedule(key, GeneratorPolynomial)
    {
      var b := NewSBox(SBoxValues);
      var bInv := NewSBox(SBoxInvertValues);
      var st := NewState(StateValues);
      var stInv := NewState(StateInvertValues);
      var ks := NewRoundKeys(key, b);
      TablesCover();
      sBox, sBoxInvert, state, stateInvert, keys := b, bInv, st, stInv, ks;
      roundKeys := KeySchedule(key, GeneratorPolynomial);
    }

    /** AES.cipher: key 0, the middle rounds, then substitute, shift and the last key. */
    method Cipher(plain: Block) returns (c: Block)
      requires Valid() && |plain| == BlockWidth
      ensures c == Encrypt(plain, roundKeys, SBoxValues, MixMatrix(), GeneratorPolynomial)
    {
      ghost var ks := roundKeys;
      var cipher := new State.FromBlock(plain);
      var round := 0;
      cipher := AddKeyStep(cipher, round);
      round := 1;
      while round < NumberRounds - 1
        invariant 1 <= round <= NumberRounds - 1
        invariant cipher.Valid() && cipher.Bytes() == ForwardRounds(AddKey(GridOf(plain), ks[0]), ks, SBoxValues, MixMatrix(), GeneratorPolynomial, round)
      {
        cipher := CipherRound(cipher, round);
        round := round + 1;
      }
      cipher := SubstituteShift(cipher);
      cipher := AddKeyStep(cipher, round);
      c := cipher.ToBlock();
    }

    /** One pass of cipher's loop: substitute, shift, multiply by state, XOR with key `round`. */
    method CipherRound(x: State, round: int) returns (y: State)
      requires Valid() && x.Valid() && UnitGrid(x.Bytes()) && 0 <= round < NumberRounds
      ensures y.Valid() && y.Bytes() == Round(x.Bytes(), roundKeys[round], SBoxValues, MixMatrix(), GeneratorPolynomial)
    {
      y := SubstituteShift(x);
      UnitMixable(y.Bytes(), MixMatrix(), GeneratorPolynomial);
      y := y.Multiply(state);
      y := AddKeyStep(y, round);
    }

    /** substitute with sBox, then shift. */
    method SubstituteShift(x: State) returns (y: State)
      requires Valid() && x.Valid() && UnitGrid(x.Bytes())
      ensures y.Valid() && y.Bytes() == ShiftSub(x.Bytes(), SBoxValues)
    {
      SubBytesUnits(x.Bytes(), sBox.table);
      y := x.Substitute(sBox);
      y := y.Shift();
    }

    /** XOR with key `round`. */
    method AddKeyStep(x: State, round: int) returns (y: State)
      requires Valid() && x.Valid() && UnitGrid(x.Bytes()) && 0 <= round < NumberRounds
      ensures y.Valid() && y.Bytes() == AddKey(x.Bytes(), roundKeys[round])
    {
      UnitKeyFits(x.Bytes(), keys[round].Words());
      y := x.XorKey(keys[round]);
    }

    /** AES.decipher: the last key, the middle rounds backwards, then shiftInvert, substitute and key 0. */
    method Decipher(cipher: Block) returns (d: Block)
      requires Valid() && |cipher| == BlockWidth
      ensures d == Decrypt(cipher, roundKeys, SBoxInvertValues, InvMixMatrix(), GeneratorPolynomial)
    {
      ghost var ks := roundKeys;
      var decipher := new State.FromBlock(cipher);
      var round := NumberRounds - 1;
      decipher := AddKeyStep(decipher, round);
      round := NumberRounds - 2;
      while round > 0
        invariant 0 <= round <= NumberRounds - 2
        invariant decipher.Valid() && UnitGrid(decipher.Bytes())
        invariant BackwardRounds(decipher.Bytes(), ks, SBoxInvertValues, InvMixMatrix(), GeneratorPolynomial, round) ==
                  BackwardRounds(AddKey(GridOf(cipher), ks[NumberRounds - 1]), ks, SBoxInvertValues, InvMixMatrix(), GeneratorPolynomial, NumberRounds - 2)
      {
        decipher := DecipherRound(decipher, round);
        round := round - 1;
      }
      decipher := ShiftSubstitute(decipher);
      decipher := AddKeyStep(decipher, round);
      d := decipher.ToBlock();
    }

    /** One pass of decipher's loop: shiftInvert, substitute, XOR with key `round`, multiply by stateInvert. */
    method DecipherRound(x: State, round: int) returns (y: State)
      requires Valid() && x.Valid() && UnitGrid(x.Bytes()) && 0 <= round < NumberRounds
      ensures y.Valid() && y.Bytes() == InvRound(x.Bytes(), roundKeys[round], SBoxInvertValues, InvMixMatrix(), GeneratorPolynomial)
    {
      y := ShiftSubstitute(x);
      y := AddKeyStep(y, round);
      UnitMixable(y.Bytes(), InvMixMatrix(), GeneratorPolynomial);
      y := y.Multiply(stateInvert);
    }

    /** shiftInvert, then substitute with sBoxInvert. */
    method ShiftSubstitute(x: State) returns (y: State)
      requires Valid() && x.Valid() && UnitGrid(x.Bytes())
      ensures y.Valid() && y.Bytes() == UnshiftSub(x.Bytes(), SBoxInvertValues)
    {
      y := x.ShiftInvert();
      ShiftRowsUnits(x.Bytes());
      SubBytesUnits(y.Bytes(), sBoxInvert.table);
      y := y.Substitute(sBoxInvert);
    }
  }

  /** new Key(key).genSubKeys(sBox), for the S-box of sBoxValues. */
  method NewRoundKeys(key: Block, sBox: SBox) returns (keys: array<Key>)
    requires |key| == BlockWidth && sBox.Valid() && sBox.table == SBoxValues
    ensures fresh(keys) && keys.Length == NumberRounds
    ensures forall i :: 0 <= i < NumberRounds ==> keys[i].Words() == KeySchedule(key, GeneratorPolynomial)[i]
    ensures forall i :: 0 <= i < NumberRounds ==> fresh(keys[i].bytes)
    ensures forall i, j :: 0 <= i < j < NumberRounds ==> keys[i].bytes != keys[j].bytes
  {
    var temp := new Key.FromBlock(key);
    TablesCover();
    keys := temp.GenSubKeys(sBox);
  }

  /** new SBox(values) on a Java int[][] literal. */
  method NewSBox(t: Table) returns (b: SBox)
    ensures fresh(b.Repr) && b.Valid() && b.table == t
  {
    var rows := NewTable(t);
    b := new SBox(rows);
  }

  /** new State(values) on a Java int[][] literal. */
  method NewState(t: Table) returns (st: State)
    requires |t| >= NumberBlocks && forall i :: 0 <= i < NumberBlocks ==> |t[i]| >= NumberBlocks
    ensures fresh(st.bytes) && st.Valid() && st.Bytes() == ValuesGrid(t)
  {
    var rows := NewTable(t);
    st := new State.FromValues(rows);
  }

  /** A Java int[][] literal: a fresh array of fresh rows holding the table. */
  method NewTable(t: Table) returns (m: array<array<int>>)
    ensures fresh(m) && Contents(m) == t
    ensures forall i :: 0 <= i < m.Length ==> m[i].Length == |t[i]|
  {
    var empty := new int[0];
    m := new array<int>[|t|](_ => empty);
    for i := 0 to |t|
      invariant forall k :: 0 <= k < i ==> m[k][..] == t[k]
    {
      var row := new int[|t[i]|](j => if 0 <= j < |t[i]| then t[i][j] else 0);
      assert row[..] == t[i];
      m[i] := row;
    }
    assert Contents(m) == t;
  }
}
