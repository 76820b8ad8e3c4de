/**
 * The cipher state (State.java): a NumberBlocks x NumberBlocks grid of blocks, filled from a
 * cipher block column by column, and the transformations of one round, each of which builds
 * a new state.
 */
module States {
  import opened Sizes
  import opened Blocks
  import opened SBoxes
  import opened Keys

  /** A grid of blocks, row by row: g[i][j] is the cell in row i, column j. */
  type Grid = seq<seq<Block>>

  predicate IsGrid(g: Grid)
  {
    |g| == NumberBlocks && forall i :: 0 <= i < NumberBlocks ==> |g[i]| == NumberBlocks
  }

  /** Every cell is one unit wide. */
  predicate UnitGrid(g: Grid)
  {
    IsGrid(g) &&
    forall i, j :: 0 <= i < NumberBlocks && 0 <= j < NumberBlocks ==> |g[i][j]| == UnitWidth
  }

  /** Two grids with the same cells are the same grid. */
  lemma GridExt(x: Grid, y: Grid)
    requires IsGrid(x) && IsGrid(y)
    requires forall i, j :: 0 <= i < NumberBlocks && 0 <= j < NumberBlocks ==> x[i][j] == y[i][j]
    ensures x == y
  {
    forall i | 0 <= i < NumberBlocks
      ensures x[i] == y[i]
    {
    }
  }

  // ---------------------------------------------------------------------------
  // From a block and back

  /** State(): a zero unit in every cell. */
  function ZeroGrid(): (g: Grid)
    ensures UnitGrid(g)
  {
    seq(NumberBlocks, _ => seq(NumberBlocks, _ => Zeros(UnitWidth)))
  }

  /** State(Block): cell (i, j) is segment i + j*NumberBlocks of CellCount, so the block fills the grid column by column. */
  function GridOf(b: Block): (g: Grid)
    ensures IsGrid(g)
    ensures forall i, j :: 0 <= i < NumberBlocks && 0 <= j < NumberBlocks ==> |g[i][j]| == |b| / CellCount
  {
    seq(NumberBlocks, i requires 0 <= i < NumberBlocks =>
      seq(NumberBlocks, j requires 0 <= j < NumberBlocks =>
        SegmentFits(|b|, CellCount, i + j * NumberBlocks);
        Segment(b, CellCount, i + j * NumberBlocks)))
  }

  /** The cells in the order toBlock lays them out: cell (i, j) at position NumberBlocks*j + i. */
  function Columnwise(g: Grid): (parts: seq<Block>)
    requires IsGrid(g)
    ensures |parts| == CellCount
    ensures forall i, j :: 0 <= i < NumberBlocks && 0 <= j < NumberBlocks ==> parts[NumberBlocks * j + i] == g[i][j]
  {
    seq(CellCount, k requires 0 <= k < CellCount => g[k % NumberBlocks][k / NumberBlocks])
  }

  /** toBlock: the cells laid end to end, column by column. */
  function BlockOf(g: Grid): Block
    requires IsGrid(g)
  {
    Concat(Columnwise(g))
  }

  /** A block whose width CellCount divides comes back whole from the grid it fills. */
  lemma BlockOfGridOf(b: Block)
    requires |b| % CellCount == 0
    ensures BlockOf(GridOf(b)) == b
  {
    var g := GridOf(b);
    var parts := Columnwise(g);
    forall k | 0 <= k < CellCount
      ensures parts[k] == Split(b, CellCount)[k]
    {
      var i, j := k % NumberBlocks, k / NumberBlocks;
      assert k == NumberBlocks * j + i && i + j * NumberBlocks == k;
    }
    assert parts == Split(b, CellCount);
    SegmentsJoin(b, CellCount);
  }

  /** A grid of equally wide cells comes back from the block toBlock makes of it. */
  lemma GridOfBlockOf(g: Grid, w: nat)
    requires IsGrid(g)
    requires forall i, j :: 0 <= i < NumberBlocks && 0 <= j < NumberBlocks ==> |g[i][j]| == w
    ensures GridOf(BlockOf(g)) == g
  {
    var parts := Columnwise(g);
    forall k | 0 <= k < CellCount
      ensures |parts[k]| == w
    {
      var i, j := k % NumberBlocks, k / NumberBlocks;
      assert k == NumberBlocks * j + i;
    }
    var r := GridOf(Concat(parts));
    forall i, j | 0 <= i < NumberBlocks && 0 <= j < NumberBlocks
      ensures r[i][j] == g[i][j]
    {
      var k := NumberBlocks * j + i;
      assert i + j * NumberBlocks == k;
      SegmentOfConcat(parts, w, k);
    }
    GridExt(r, g);
  }

  // ---------------------------------------------------------------------------
  // shift and shiftInvert

  /** shift: row i turns i places to the right, so column c receives the cell from column (c - i) mod NumberBlocks. */
  function ShiftRows(g: Grid): (r: Grid)
    requires IsGrid(g)
    ensures IsGrid(r)
  {
    seq(NumberBlocks, i requires 0 <= i < NumberBlocks =>
      seq(NumberBlocks, c requires 0 <= c < NumberBlocks => g[i][(c + NumberBlocks - i) % NumberBlocks]))
  }

  /** shiftInvert: row i turns i places to the left, so column c receives the cell from column (c + i) mod NumberBlocks. */
  function InvShiftRows(g: Grid): (r: Grid)
    requires IsGrid(g)
    ensures IsGrid(r)
  {
    seq(NumberBlocks, i requires 0 <= i < NumberBlocks =>
      seq(NumberBlocks, c requires 0 <= c < NumberBlocks => g[i][(c + i) % NumberBlocks]))
  }

  /** The cell in row i, column j lands in column (j + i) % NumberBlocks, as shift writes it. */
  lemma ShiftRowsMoves(g: Grid, i: int, j: int)
    requires IsGrid(g) && 0 <= i < NumberBlocks && 0 <= j < NumberBlocks
    ensures ShiftRows(g)[i][(j + i) % NumberBlocks] == g[i][j]
  {
    var c := (j + i) % NumberBlocks;
    assert (c + NumberBlocks - i) % NumberBlocks == j;
  }

  /** The cell in row i, column j lands in column (j - i + NumberBlocks) % NumberBlocks, as shiftInvert writes it. */
  lemma InvShiftRowsMoves(g: Grid, i: int, j: int)
    requires IsGrid(g) && 0 <= i < NumberBlocks && 0 <= j < NumberBlocks
    ensures InvShiftRows(g)[i][(j - i + NumberBlocks) % NumberBlocks] == g[i][j]
  {
    var c := (j - i + NumberBlocks) % NumberBlocks;
    assert (c + i) % NumberBlocks == j;
  }

  /** shiftInvert undoes shift. */
  lemma ShiftRowsUndone(g: Grid)
    requires IsGrid(g)
    ensures InvShiftRows(ShiftRows(g)) == g
  {
    var r := InvShiftRows(ShiftRows(g));
    forall i, j | 0 <= i < NumberBlocks && 0 <= j < NumberBlocks
      ensures r[i][j] == g[i][j]
    {
      assert ((j + i) % NumberBlocks + NumberBlocks - i) % NumberBlocks == j;
    }
    GridExt(r, g);
  }

  /** shift undoes shiftInvert. */
  lemma InvShiftRowsUndone(g: Grid)
    requires IsGrid(g)
    ensures ShiftRows(InvShiftRows(g)) == g
  {
    var r := ShiftRows(InvShiftRows(g));
    forall i, j | 0 <= i < NumberBlocks && 0 <= j < NumberBlocks
      ensures r[i][j] == g[i][j]
    {
      assert ((j + NumberBlocks - i) % NumberBlocks + i) % NumberBlocks == j;
    }
    GridExt(r, g);
  }

  /** shift and shiftInvert only move cells, so a grid of units stays one. */
  lemma ShiftRowsUnits(g: Grid)
    requires UnitGrid(g)
    ensures UnitGrid(ShiftRows(g)) && UnitGrid(InvShiftRows(g))
  {
  }

  /** With two columns, turning right and turning left are the same: shift is its own inverse. */
  lemma ShiftRowsSelfInverse(g: Grid)
    requires IsGrid(g)
    ensures ShiftRows(g) == InvShiftRows(g)
    ensures ShiftRows(ShiftRows(g)) == g
  {
    var r, s := ShiftRows(g), InvShiftRows(g);
    forall i, j | 0 <= i < NumberBlocks && 0 <= j < NumberBlocks
      ensures r[i][j] == s[i][j]
    {
      assert (j + NumberBlocks - i) % NumberBlocks == (j + i) % NumberBlocks;
    }
    GridExt(r, s);
    var rr := ShiftRows(r);
    forall i, j | 0 <= i < NumberBlocks && 0 <= j < NumberBlocks
      ensures rr[i][j] == g[i][j]
    {
      assert ((j + NumberBlocks - i) % NumberBlocks + NumberBlocks - i) % NumberBlocks == j;
    }
    GridExt(rr, g);
  }

  // ---------------------------------------------------------------------------
  // substitute

  /** substitute is defined: every cell selects an entry of the table. */
  predicate Substitutable(g: Grid, t: Table)
  {
    IsGrid(g) &&
    forall i, j :: 0 <= i < NumberBlocks && 0 <= j < NumberBlocks ==> InTable(t, g[i][j])
  }

  /** substitute: every cell goes through the S-box. */
  function SubBytes(g: Grid, t: Table): (r: Grid)
    requires Substitutable(g, t)
    ensures IsGrid(r)
  {
    seq(NumberBlocks, i requires 0 <= i < NumberBlocks =>
      seq(NumberBlocks, j requires 0 <= j < NumberBlocks => Lookup(t, g[i][j])))
  }

  /** A table covering all units substitutes every grid of units, and the result is again a grid of units. */
  lemma SubBytesUnits(g: Grid, t: Table)
    requires UnitGrid(g) && CoversUnits(t)
    ensures Substitutable(g, t) && UnitGrid(SubBytes(g, t))
  {
    forall i, j | 0 <= i < NumberBlocks && 0 <= j < NumberBlocks
      ensures InTable(t, g[i][j])
    {
      UnitLookup(t, g[i][j]);
    }
  }

  /** When `inv` undoes `s` on all units, substituting with `s` then with `inv` gives the grid back. */
  lemma SubBytesUndone(g: Grid, s: Table, inv: Table)
    requires UnitGrid(g) && CoversUnits(s) && CoversUnits(inv) && UndoesBelow(s, inv, 16)
    ensures Substitutable(g, s) && Substitutable(SubBytes(g, s), inv)
    ensures SubBytes(SubBytes(g, s), inv) == g
  {
    SubBytesUnits(g, s);
    var h := SubBytes(g, s);
    SubBytesUnits(h, inv);
    var r := SubBytes(h, inv);
    forall i, j | 0 <= i < NumberBlocks && 0 <= j < NumberBlocks
      ensures r[i][j] == g[i][j]
    {
      LookupUndone(s, inv, g[i][j]);
    }
    GridExt(r, g);
  }

  // ---------------------------------------------------------------------------
  // XOR with a round key

  /** XOR is defined: the key has a word per column, and every cell is at most as wide as the key element it meets. */
  predicate KeyFits(g: Grid, ws: seq<Block>)
  {
    IsGrid(g) && |ws| >= NumberBlocks &&
    forall i, j :: 0 <= i < NumberBlocks && 0 <= j < NumberBlocks ==> |g[i][j]| <= |ws[j]| / NumberBlocks
  }

  /** XOR: cell (i, j) is XOR-ed with key.element(j, i), element i of word j, so word j covers column j. */
  function AddRoundKey(g: Grid, ws: seq<Block>): (r: Grid)
    requires KeyFits(g, ws)
    ensures IsGrid(r)
    ensures forall i, j :: 0 <= i < NumberBlocks && 0 <= j < NumberBlocks ==> |r[i][j]| == |g[i][j]|
  {
    seq(NumberBlocks, i requires 0 <= i < NumberBlocks =>
      seq(NumberBlocks, j requires 0 <= j < NumberBlocks => Xor(g[i][j], WordElement(ws, j, i))))
  }

  /** A round key of NumberBlocks key words fits every grid of units. */
  lemma UnitKeyFits(g: Grid, ws: seq<Block>)
    requires UnitGrid(g) && KeyWords(ws)
    ensures KeyFits(g, ws)
  {
  }

  /** XOR-ing the same round key twice gives the grid back. */
  lemma AddRoundKeyTwice(g: Grid, ws: seq<Block>)
    requires KeyFits(g, ws)
    ensures KeyFits(AddRoundKey(g, ws), ws)
    ensures AddRoundKey(AddRoundKey(g, ws), ws) == g
  {
    var h := AddRoundKey(g, ws);
    var r := AddRoundKey(h, ws);
    forall i, j | 0 <= i < NumberBlocks && 0 <= j < NumberBlocks
      ensures r[i][j] == g[i][j]
    {
      XorCancel(g[i][j], WordElement(ws, j, i));
    }
    GridExt(r, g);
  }

  /**
   * On a 16-bit block, XOR-ing the state with a round key is XOR-ing the block with the key's
   * words laid end to end: the grid's column-major layout matches the key's word layout.
   */
  lemma AddRoundKeyIsBlockXor(b: Block, ws: seq<Block>)
    requires |b| == BlockWidth && KeyWords(ws)
    ensures KeyFits(GridOf(b), ws)
    ensures BlockOf(AddRoundKey(GridOf(b), ws)) == Xor(b, Concat(ws))
  {
    var key := Concat(ws);
    assert key == ws[0] + ws[1] by {
      ConcatPair(ws[0], ws[1]);
      assert ws == [ws[0], ws[1]];
    }
    var x := Xor(b, key);
    var r := AddRoundKey(GridOf(b), ws);
    var s := GridOf(x);
    forall i, j | 0 <= i < NumberBlocks && 0 <= j < NumberBlocks
      ensures r[i][j] == s[i][j]
    {
      XorCell(b, ws, key, i, j);
    }
    GridExt(r, s);
    BlockOfGridOf(x);
  }

  /** One cell of AddRoundKeyIsBlockXor: unit i + 2j of the block meets unit i of word j. */
  lemma XorCell(b: Block, ws: seq<Block>, key: Block, i: int, j: int)
    requires |b| == BlockWidth && KeyWords(ws) && key == ws[0] + ws[1]
    requires 0 <= i < NumberBlocks && 0 <= j < NumberBlocks
    ensures KeyFits(GridOf(b), ws)
    ensures AddRoundKey(GridOf(b), ws)[i][j] == GridOf(Xor(b, key))[i][j]
  {
    var lo := 4 * i + 8 * j;
    var x := Xor(b, key);
    var e := WordElement(ws, j, i);
    var cell := AddRoundKey(GridOf(b), ws)[i][j];
    var want := GridOf(x)[i][j];
    assert GridOf(b)[i][j] == b[lo .. lo + 4] by {
      assert |b| / CellCount == 4 && (i + j * NumberBlocks) * 4 == lo;
    }
    assert want == x[lo .. lo + 4] by {
      assert |x| / CellCount == 4 && (i + j * NumberBlocks) * 4 == lo;
    }
    assert e == ws[j][4 * i .. 4 * i + 4] by {
      assert |ws[j]| / NumberBlocks == 4;
    }
    assert cell == Xor(b[lo .. lo + 4], e);
    assert |key| == 16 && lo + 4 <= 16;
    forall t | 0 <= t < 4
      ensures cell[t] == want[t]
    {
      assert cell[t] == (b[lo + t] != e[t]);
      assert e[t] == ws[j][4 * i + t];
      assert key[lo + t] == ws[j][4 * i + t] by {
        if j == 0 {
          assert key[lo + t] == ws[0][lo + t];
        } else {
          assert key[lo + t] == ws[1][lo + t - 8];
        }
      }
      assert want[t] == x[lo + t];
      assert x[lo + t] == (b[lo + t] != key[lo + t]);
    }
  }

  // ---------------------------------------------------------------------------
  // multiply

  /** multiply is defined: every product exists and is at least a unit wide, as the running XOR needs. */
  predicate Mixable(g: Grid, m: Grid, gen: Block)
  {
    IsGrid(g) && IsGrid(m) &&
    forall i, j, k :: 0 <= i < NumberBlocks && 0 <= j < NumberBlocks && 0 <= k < NumberBlocks ==>
      UnitWidth <= |m[i][k]| && MulDefined(m[i][k], g[k][j], gen)
  }

  /** multiply's running sum after k terms: a zero unit XOR-ed with m[i][l] * g[l][j] for l < k. */
  function MixSum(g: Grid, m: Grid, gen: Block, i: int, j: int, k: nat): (r: Block)
    requires Mixable(g, m, gen) && 0 <= i < NumberBlocks && 0 <= j < NumberBlocks && k <= NumberBlocks
    ensures |r| == UnitWidth
  {
    if k == 0 then Zeros(UnitWidth)
    else Xor(MixSum(g, m, gen, i, j, k - 1), Mul(m[i][k - 1], g[k - 1][j], gen))
  }

  /** multiply: the matrix product m . g, with modularMultiplication for products and xOr for sums. */
  function Mix(g: Grid, m: Grid, gen: Block): (r: Grid)
    requires Mixable(g, m, gen)
    ensures UnitGrid(r)
  {
    seq(NumberBlocks, i requires 0 <= i < NumberBlocks =>
      seq(NumberBlocks, j requires 0 <= j < NumberBlocks => MixSum(g, m, gen, i, j, NumberBlocks)))
  }

  /** Cell (i, j) of multiply with two terms written out: 0000 xOr m[i][0] * g[0][j] xOr m[i][1] * g[1][j]. */
  lemma MixCell(g: Grid, m: Grid, gen: Block, i: int, j: int)
    requires Mixable(g, m, gen) && 0 <= i < NumberBlocks && 0 <= j < NumberBlocks
    ensures Mix(g, m, gen)[i][j] ==
      Xor(Xor(Zeros(4), Mul(m[i][0], g[0][j], gen)), Mul(m[i][1], g[1][j], gen))
  {
    assert UnitWidth == 4;
    assert MixSum(g, m, gen, i, j, 1) == Xor(Zeros(4), Mul(m[i][0], g[0][j], gen));
  }

  /** The unit matrix [[1, 0], [0, 1]]. */
  const IdentityGrid: Grid := [[[false, false, false, true], Zeros(4)], [Zeros(4), [false, false, false, true]]]

  /** A unit-width generator lets every grid of units be multiplied by a grid of units. */
  lemma UnitMixable(g: Grid, m: Grid, gen: Block)
    requires UnitGrid(g) && UnitGrid(m) && UnitWidth <= |gen|
    ensures Mixable(g, m, gen)
  {
  }

  /** Multiplying by the unit matrix leaves a grid of units unchanged, whatever the generator. */
  lemma MixIdentity(g: Grid, gen: Block)
    requires UnitGrid(g) && UnitWidth <= |gen|
    ensures Mixable(g, IdentityGrid, gen) && Mix(g, IdentityGrid, gen) == g
  {
    var one := [false, false, false, true];
    assert UnitGrid(IdentityGrid);
    var r := Mix(g, IdentityGrid, gen);
    forall i, j | 0 <= i < NumberBlocks && 0 <= j < NumberBlocks
      ensures r[i][j] == g[i][j]
    {
      var p0, p1 := Mul(IdentityGrid[i][0], g[0][j], gen), Mul(IdentityGrid[i][1], g[1][j], gen);
      MixCell(g, IdentityGrid, gen, i, j);
      if i == 0 {
        assert p0 == g[0][j] by { OneTimes(g[0][j], gen); }
        assert p1 == Zeros(4) by { ZeroTimes(g[1][j], gen); }
        XorZeros(g[0][j], 4);
      } else {
        assert p0 == Zeros(4) by { ZeroTimes(g[0][j], gen); }
        assert p1 == g[1][j] by { OneTimes(g[1][j], gen); }
        XorZeros(Zeros(4), 4);
        XorZeros(g[1][j], 4);
      }
    }
    GridExt(r, g);
  }

  // ---------------------------------------------------------------------------
  // The State class

  /** The cells of a NumberBlocks x NumberBlocks array, row by row. */
  function GridOfArray(a: array2<Block>): (g: Grid)
    reads a
    requires a.Length0 == NumberBlocks && a.Length1 == NumberBlocks
    ensures IsGrid(g)
    ensures forall i, j :: 0 <= i < NumberBlocks && 0 <= j < NumberBlocks ==> g[i][j] == a[i, j]
  {
    seq(NumberBlocks, i requires 0 <= i < NumberBlocks reads a =>
      seq(NumberBlocks, j requires 0 <= j < NumberBlocks reads a => a[i, j]))
  }

  /** State: a grid of blocks; every transformation returns a new state and leaves this one as it was. */
  class State {
    /** State.bytes, row by row. */
    const bytes: array2<Block>

    predicate Valid()
    {
      bytes.Length0 == NumberBlocks && bytes.Length1 == NumberBlocks
    }

    function Bytes(): (g: Grid)
      reads bytes
      requires Valid()
    {
      GridOfArray(bytes)
    }

    /** State(): every cell is a new zero unit. */
    constructor Empty()
      ensures Valid() && fresh(bytes) && Bytes() == ZeroGrid()
    {
      var cells := new Block[NumberBlocks, NumberBlocks]((_, _) => []);
      for i := 0 to NumberBlocks
        invariant forall i', j' :: 0 <= i' < i && 0 <= j' < NumberBlocks ==> cells[i', j'] == Zeros(UnitWidth)
      {
        for j := 0 to NumberBlocks
          invariant forall i', j' :: 0 <= i' < i && 0 <= j' < NumberBlocks ==> cells[i', j'] == Zeros(UnitWidth)
          invariant forall j' :: 0 <= j' < j ==> cells[i, j'] == Zeros(UnitWidth)
        {
          cells[i, j] := Zeros(NumberBlocks * 2);
        }
      }
      GridExt(GridOfArray(cells), ZeroGrid());
      bytes := cells;
    }

    /** State(Block): cell (i, j) is segment i + j*NumberBlocks of the block. */
    constructor FromBlock(block: Block)
      ensures Valid() && fresh(bytes) && Bytes() == GridOf(block)
    {
      ghost var want := GridOf(block);
      var cells := new Block[NumberBlocks, NumberBlocks]((_, _) => []);
      for i := 0 to NumberBlocks
        invariant forall i', j' :: 0 <= i' < i && 0 <= j' < NumberBlocks ==> cells[i', j'] == want[i'][j']
      {
        for j := 0 to NumberBlocks
          invariant forall i', j' :: 0 <= i' < i && 0 <= j' < NumberBlocks ==> cells[i', j'] == want[i'][j']
          invariant forall j' :: 0 <= j' < j ==> cells[i, j'] == want[i][j']
        {
          SegmentFits(|block|, CellCount, i + j * NumberBlocks);
          cells[i, j] := Segment(block, CellCount, i + j * NumberBlocks);
        }
      }
      GridExt(GridOfArray(cells), want);
      bytes := cells;
    }

    /** State(int[][]): cell (i, j) is the unit of value values[i][j]. */
    constructor FromValues(values: array<array<int>>)
      requires values.Length >= NumberBlocks
      requires forall i :: 0 <= i < NumberBlocks ==> values[i].Length >= NumberBlocks
      ensures Valid() && fresh(bytes) && Bytes() == ValuesGrid(Contents(values))
    {
      ghost var want := ValuesGrid(Contents(values));
      var cells := new Block[NumberBlocks, NumberBlocks]((_, _) => []);
      for i := 0 to NumberBlocks
        invariant forall i', j' :: 0 <= i' < i && 0 <= j' < NumberBlocks ==> cells[i', j'] == want[i'][j']
      {
        for j := 0 to NumberBlocks
          invariant forall i', j' :: 0 <= i' < i && 0 <= j' < NumberBlocks ==> cells[i', j'] == want[i'][j']
          invariant forall j' :: 0 <= j' < j ==> cells[i, j'] == want[i][j']
        {
          cells[i, j] := NewFromValue(NumberBlocks * 2, values[i][j]);
        }
      }
      GridExt(GridOfArray(cells), want);
      bytes := cells;
    }

    /** State(State): a copy with its own array. */
    constructor Copy(other: State)
      requires other.Valid()
      ensures Valid() && fresh(bytes) && Bytes() == other.Bytes()
    {
      ghost var want := other.Bytes();
      var cells := new Block[NumberBlocks, NumberBlocks]((_, _) => []);
      for i := 0 to NumberBlocks
        invariant forall i', j' :: 0 <= i' < i && 0 <= j' < NumberBlocks ==> cells[i', j'] == want[i'][j']
      {
        for j := 0 to NumberBlocks
          invariant forall i', j' :: 0 <= i' < i && 0 <= j' < NumberBlocks ==> cells[i', j'] == want[i'][j']
          invariant forall j' :: 0 <= j' < j ==> cells[i, j'] == want[i][j']
        {
          cells[i, j] := other.bytes[i, j];
        }
      }
      GridExt(GridOfArray(cells), want);
      bytes := cells;
    }

    /** XOR: a new state whose cell (i, j) is this cell XOR key.element(j, i). */
    method XorKey(key: Key) returns (r: State)
      requires Valid() && key.bytes.Length >= NumberBlocks && KeyFits(Bytes(), key.Words())
      ensures fresh(r) && fresh(r.bytes) && r.Valid()
      ensures r.Bytes() == AddRoundKey(Bytes(), key.Words())
    {
      ghost var want := AddRoundKey(Bytes(), key.Words());
      r := new State.Empty();
      for i := 0 to NumberBlocks
        invariant forall i', j' :: 0 <= i' < i && 0 <= j' < NumberBlocks ==> r.bytes[i', j'] == want[i'][j']
      {
        XorKeyRow(key, r, i);
      }
      GridExt(r.Bytes(), want);
    }

    /** The inner loop of XOR, for row i. */
    method XorKeyRow(key: Key, r: State, i: int)
      requires Valid() && key.bytes.Length >= NumberBlocks && KeyFits(Bytes(), key.Words())
      requires r.Valid() && r.bytes != bytes && 0 <= i < NumberBlocks
      modifies r.bytes
      ensures forall i', j' :: 0 <= i' < NumberBlocks && i' != i && 0 <= j' < NumberBlocks ==> r.bytes[i', j'] == old(r.bytes[i', j'])
      ensures forall j' :: 0 <= j' < NumberBlocks ==> r.bytes[i, j'] == AddRoundKey(Bytes(), key.Words())[i][j']
    {
      for j := 0 to NumberBlocks
        invariant forall i', j' :: 0 <= i' < NumberBlocks && i' != i && 0 <= j' < NumberBlocks ==> r.bytes[i', j'] == old(r.bytes[i', j'])
        invariant forall j' :: 0 <= j' < j ==> r.bytes[i, j'] == AddRoundKey(Bytes(), key.Words())[i][j']
      {
        r.bytes[i, j] := XOr(bytes[i, j], key.Element(j, i));
      }
    }

    /** substitute: a new state whose every cell has gone through the S-box. */
    method Substitute(sBox: SBox) returns (r: State)
      requires Valid() && sBox.Valid() && Substitutable(Bytes(), sBox.table)
      ensures fresh(r) && fresh(r.bytes) && r.Valid()
      ensures r.Bytes() == SubBytes(Bytes(), sBox.table)
    {
      ghost var want := SubBytes(Bytes(), sBox.table);
      r := new State.Empty();
      for i := 0 to NumberBlocks
        invariant forall i', j' :: 0 <= i' < i && 0 <= j' < NumberBlocks ==> r.bytes[i', j'] == want[i'][j']
      {
        SubstituteRow(sBox, r, i);
      }
      GridExt(r.Bytes(), want);
    }

    /** The inner loop of substitute, for row i. */
    method SubstituteRow(sBox: SBox, r: State, i: int)
      requires Valid() && sBox.Valid() && Substitutable(Bytes(), sBox.table)
      requires r.Valid() && r.bytes != bytes && r.bytes !in sBox.Repr && 0 <= i < NumberBlocks
      modifies r.bytes
      ensures forall i', j' :: 0 <= i' < NumberBlocks && i' != i && 0 <= j' < NumberBlocks ==> r.bytes[i', j'] == old(r.bytes[i', j'])
      ensures forall j' :: 0 <= j' < NumberBlocks ==> r.bytes[i, j'] == SubBytes(Bytes(), sBox.table)[i][j']
    {
      for j := 0 to NumberBlocks
        invariant forall i', j' :: 0 <= i' < NumberBlocks && i' != i && 0 <= j' < NumberBlocks ==> r.bytes[i', j'] == old(r.bytes[i', j'])
        invariant forall j' :: 0 <= j' < j ==> r.bytes[i, j'] == SubBytes(Bytes(), sBox.table)[i][j']
      {
        r.bytes[i, j] := sBox.Cipher(bytes[i, j]);
      }
    }

    /** shift: a new state where the cell from (i, j) is written to (i, (j + i) % NumberBlocks). */
    method Shift() returns (r: State)
      requires Valid()
      ensures fresh(r) && fresh(r.bytes) && r.Valid()
      ensures r.Bytes() == ShiftRows(Bytes())
    {
      ghost var want := ShiftRows(Bytes());
      r := new State.Empty();
      for i := 0 to NumberBlocks
        invariant forall i', c :: 0 <= i' < i && 0 <= c < NumberBlocks ==> r.bytes[i', c] == want[i'][c]
      {
        ShiftRow(r, i);
      }
      GridExt(r.Bytes(), want);
    }

    /** The inner loop of shift, for row i. */
    method ShiftRow(r: State, i: int)
      requires Valid() && r.Valid() && r.bytes != bytes && 0 <= i < NumberBlocks
      modifies r.bytes
      ensures forall i', c :: 0 <= i' < NumberBlocks && i' != i && 0 <= c < NumberBlocks ==> r.bytes[i', c] == old(r.bytes[i', c])
      ensures forall c :: 0 <= c < NumberBlocks ==> r.bytes[i, c] == ShiftRows(Bytes())[i][c]
    {
      ghost var g := Bytes();
      for j := 0 to NumberBlocks
        invariant forall i', c :: 0 <= i' < NumberBlocks && i' != i && 0 <= c < NumberBlocks ==> r.bytes[i', c] == old(r.bytes[i', c])
        invariant forall j' :: 0 <= j' < j ==> r.bytes[i, (j' + i) % NumberBlocks] == g[i][j']
      {
        r.bytes[i, (j + i) % NumberBlocks] := bytes[i, j];
      }
      forall c | 0 <= c < NumberBlocks
        ensures r.bytes[i, c] == ShiftRows(g)[i][c]
      {
        var j := (c + NumberBlocks - i) % NumberBlocks;
        assert (j + i) % NumberBlocks == c;
      }
    }

    /** shiftInvert: a new state where the cell from (i, j) is written to (i, (j - i + NumberBlocks) % NumberBlocks). */
    method ShiftInvert() returns (r: State)
      requires Valid()
      ensures fresh(r) && fresh(r.bytes) && r.Valid()
      ensures r.Bytes() == InvShiftRows(Bytes())
    {
      ghost var want := InvShiftRows(Bytes());
      r := new State.Empty();
      for i := 0 to NumberBlocks
        invariant forall i', c :: 0 <= i' < i && 0 <= c < NumberBlocks ==> r.bytes[i', c] == want[i'][c]
      {
        ShiftInvertRow(r, i);
      }
      GridExt(r.Bytes(), want);
    }

    /** The inner loop of shiftInvert, for row i. */
    method ShiftInvertRow(r: State, i: int)
      requires Valid() && r.Valid() && r.bytes != bytes && 0 <= i < NumberBlocks
      modifies r.bytes
      ensures forall i', c :: 0 <= i' < NumberBlocks && i' != i && 0 <= c < NumberBlocks ==> r.bytes[i', c] == old(r.bytes[i', c])
      ensures forall c :: 0 <= c < NumberBlocks ==> r.bytes[i, c] == InvShiftRows(Bytes())[i][c]
    {
      ghost var g := Bytes();
      for j := 0 to NumberBlocks
        invariant forall i', c :: 0 <= i' < NumberBlocks && i' != i && 0 <= c < NumberBlocks ==> r.bytes[i', c] == old(r.bytes[i', c])
        invariant forall j' :: 0 <= j' < j ==> r.bytes[i, (j' - i + NumberBlocks) % NumberBlocks] == g[i][j']
      {
        r.bytes[i, (j - i + NumberBlocks) % NumberBlocks] := bytes[i, j];
      }
      forall c | 0 <= c < NumberBlocks
        ensures r.bytes[i, c] == InvShiftRows(g)[i][c]
      {
        var j := (c + i) % NumberBlocks;
        assert (j - i + NumberBlocks) % NumberBlocks == c;
      }
    }

    /** multiply: a new state holding other . this, each cell a running xOr of modularMultiplication products. */
    method Multiply(other: State) returns (r: State)
      requires Valid() && other.Valid() && Mixable(Bytes(), other.Bytes(), GeneratorPolynomial)
      ensures fresh(r) && fresh(r.bytes) && r.Valid()
      ensures r.Bytes() == Mix(Bytes(), other.Bytes(), GeneratorPolynomial)
    {
      ghost var want := Mix(Bytes(), other.Bytes(), GeneratorPolynomial);
      r := new State.Empty();
      for i := 0 to NumberBlocks
        invariant forall i', j' :: 0 <= i' < i && 0 <= j' < NumberBlocks ==> r.bytes[i', j'] == want[i'][j']
      {
        MultiplyRow(other, r, i);
      }
      GridExt(r.Bytes(), want);
    }

    /** The middle loop of multiply, for row i. */
    method MultiplyRow(other: State, r: State, i: int)
      requires Valid() && other.Valid() && Mixable(Bytes(), other.Bytes(), GeneratorPolynomial)
      requires r.Valid() && r.bytes != bytes && r.bytes != other.bytes && 0 <= i < NumberBlocks
      modifies r.bytes
      ensures forall i', j' :: 0 <= i' < NumberBlocks && i' != i && 0 <= j' < NumberBlocks ==> r.bytes[i', j'] == old(r.bytes[i', j'])
      ensures forall j' :: 0 <= j' < NumberBlocks ==> r.bytes[i, j'] == Mix(Bytes(), other.Bytes(), GeneratorPolynomial)[i][j']
    {
      for j := 0 to NumberBlocks
        invariant forall i', j' :: 0 <= i' < NumberBlocks && i' != i && 0 <= j' < NumberBlocks ==> r.bytes[i', j'] == old(r.bytes[i', j'])
        invariant forall j' :: 0 <= j' < j ==> r.bytes[i, j'] == Mix(Bytes(), other.Bytes(), GeneratorPolynomial)[i][j']
      {
        var sum := Dot(other, i, j);
        r.bytes[i, j] := sum;
      }
    }

    /** The inner loop of multiply: the running xOr over k of other[i][k] times this[k][j]. */
    method Dot(other: State, i: int, j: int) returns (sum: Block)
      requires Valid() && other.Valid() && Mixable(Bytes(), other.Bytes(), GeneratorPolynomial)
      requires 0 <= i < NumberBlocks && 0 <= j < NumberBlocks
      ensures sum == MixSum(Bytes(), other.Bytes(), GeneratorPolynomial, i, j, NumberBlocks)
    {
      sum := Zeros(NumberBlocks * 2);
      for k := 0 to NumberBlocks
        invariant sum == MixSum(Bytes(), other.Bytes(), GeneratorPolynomial, i, j, k)
      {
        var product := ModularMultiplication(other.bytes[i, k], bytes[k, j]);
        sum := XOr(sum, product);
      }
    }

    /** toBlock: the cells laid end to end, cell (i, j) at position NumberBlocks*j + i. */
    method ToBlock() returns (b: Block)
      requires Valid()
      ensures b == BlockOf(Bytes())
    {
      var blocks := new Block[CellCount](_ => []);
      for i := 0 to NumberBlocks
        invariant forall i', j' :: 0 <= i' < i && 0 <= j' < NumberBlocks ==> blocks[NumberBlocks * j' + i'] == bytes[i', j']
      {
        for j := 0 to NumberBlocks
          invariant forall i', j' :: 0 <= i' < i && 0 <= j' < NumberBlocks ==> blocks[NumberBlocks * j' + i'] == bytes[i', j']
          invariant forall j' :: 0 <= j' < j ==> blocks[NumberBlocks * j' + i] == bytes[i, j']
        {
          blocks[NumberBlocks * j + i] := bytes[i, j];
        }
      }
      ghost var parts := Columnwise(Bytes());
      forall k | 0 <= k < CellCount
        ensures blocks[k] == parts[k]
      {
        var i, j := k % NumberBlocks, k / NumberBlocks;
        assert k == NumberBlocks * j + i;
      }
      assert blocks[..] == parts;
      b := NewConcat(blocks[..]);
    }
  }

  /** State(int[][]) on the values' rows: cell (i, j) is the unit of value rows[i][j]. */
  function ValuesGrid(rows: Table): (g: Grid)
    requires |rows| >= NumberBlocks && forall i :: 0 <= i < NumberBlocks ==> |rows[i]| >= NumberBlocks
    ensures UnitGrid(g)
  {
    seq(NumberBlocks, i requires 0 <= i < NumberBlocks =>
      seq(NumberBlocks, j requires 0 <= j < NumberBlocks => FromValue(UnitWidth, rows[i][j])))
  }
}
