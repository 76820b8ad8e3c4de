/**
 * The substitution box (SBox.java): a table of integers addressed by the two halves of a
 * unit, the first half giving the row and the second the column.
 */
module SBoxes {
  import opened Blocks

  /** A substitution table, row by row. */
  type Table = seq<seq<int>>

  /** The entry for `b` exists: its row value and its column value index into the table. */
  predicate InTable(t: Table, b: Block)
  {
    RowValue(b) < |t| && ColumnValue(b) < |t[RowValue(b)]|
  }

  /** The table entry selected by `b`. */
  function Entry(t: Table, b: Block): int
    requires InTable(t, b)
  {
    t[RowValue(b)][ColumnValue(b)]
  }

  /** SBox.cipher on a table: the selected entry, written in the width of the input. */
  function Lookup(t: Table, b: Block): (r: Block)
    requires InTable(t, b)
    ensures |r| == |b|
  {
    FromValue(|b|, Entry(t, b))
  }

  /** A table with at least 4 rows of at least 4 entries: every 4-bit unit selects an entry. */
  predicate CoversUnits(t: Table)
  {
    |t| >= 4 && forall i :: 0 <= i < 4 ==> |t[i]| >= 4
  }

  /** The entry for the unit of value v: row v / 4, column v % 4. */
  function UnitEntry(t: Table, v: int): int
    requires CoversUnits(t) && 0 <= v < 16
  {
    t[v / 4][v % 4]
  }

  /** A 4-bit unit selects the entry of its value, and the entries it can select are all present. */
  lemma UnitLookup(t: Table, b: Block)
    requires CoversUnits(t) && |b| == 4
    ensures InTable(t, b)
    ensures Decimal(b) < 16 && Entry(t, b) == UnitEntry(t, Decimal(b))
  {
    var v, row, column := Decimal(b), RowValue(b), ColumnValue(b);
    assert row < 4 && column < 4 && v == 4 * row + column by {
      RowColumn(b);
      assert Pow2(2) == 4;
    }
    assert v / 4 == row && v % 4 == column by {
      ModUnique(v, 4, row, column);
    }
  }

  /** `inv` undoes `s` on the values below n: a check that can be evaluated entry by entry. */
  predicate UndoesBelow(s: Table, inv: Table, n: nat)
    requires CoversUnits(s) && CoversUnits(inv) && n <= 16
  {
    n == 0 ||
    (UndoesBelow(s, inv, n - 1) &&
     0 <= UnitEntry(s, n - 1) < 16 && UnitEntry(inv, UnitEntry(s, n - 1)) == n - 1)
  }

  lemma {:induction false} UndoesAt(s: Table, inv: Table, n: nat, v: int)
    requires CoversUnits(s) && CoversUnits(inv) && n <= 16
    requires UndoesBelow(s, inv, n) && 0 <= v < n
    ensures 0 <= UnitEntry(s, v) < 16 && UnitEntry(inv, UnitEntry(s, v)) == v
  {
    if v < n - 1 {
      UndoesAt(s, inv, n - 1, v);
    }
  }

  /** When `inv` undoes `s` on all 16 values, substituting with `s` then `inv` returns every unit. */
  lemma LookupUndone(s: Table, inv: Table, b: Block)
    requires CoversUnits(s) && CoversUnits(inv) && UndoesBelow(s, inv, 16)
    requires |b| == 4
    ensures InTable(s, b) && InTable(inv, Lookup(s, b))
    ensures Lookup(inv, Lookup(s, b)) == b
  {
    UnitLookup(s, b);
    var v := Decimal(b);
    UndoesAt(s, inv, 16, v);
    var c := Lookup(s, b);
    var u := Entry(s, b);
    assert Pow2(4) == 16;
    ValueRoundTrip(4, u);
    UnitLookup(inv, c);
    FromValueDecimal(b);
  }

  /** SBox: a substitution table held as a private copy of the caller's rows. */
  class SBox {
    /** SBox.matrix */
    const matrix: array<array<int>>

    /** The entries of the rows, which no method changes after construction. */
    ghost const table: Table

    /** The arrays that hold the rows: the outer array and every row. */
    ghost const Repr: set<object>

    ghost predicate Valid()
      reads Repr
    {
      matrix in Repr && (forall i :: 0 <= i < matrix.Length ==> matrix[i] in Repr) &&
      Contents(matrix) == table
    }

    /** SBox(int[][]): the rows are copied one by one, so the S-box shares no row with the caller. */
    constructor (m: array<array<int>>)
      ensures Valid() && table == Contents(m)
      ensures fresh(Repr)
    {
      var empty := new int[0];
      var rows := new array<int>[m.Length](_ => empty);
      ghost var copies: set<object> := {};
      for i := 0 to m.Length
        invariant forall k :: 0 <= k < i ==> rows[k] in copies && rows[k][..] == m[k][..]
        invariant fresh(copies)
      {
        rows[i] := CloneRow(m[i]);
        copies := copies + {rows[i]};
      }
      matrix := rows;
      table := Contents(m);
      Repr := {rows} + copies;
      assert Contents(rows) == Contents(m);
    }

    /** SBox.cipher: the entry selected by the block's row and column values, as wide as the block. */
    function Cipher(block: Block): (r: Block)
      reads Repr
      requires Valid() && InTable(table, block)
      ensures r == Lookup(table, block)
    {
      FromValue(|block|, matrix[RowValue(block)][ColumnValue(block)])
    }
  }

  /** The rows of a Java int[][], as values. */
  function Contents(m: array<array<int>>): Table
    reads m, set i | 0 <= i < m.Length :: m[i]
  {
    seq(m.Length, i requires 0 <= i < m.Length reads m, set k | 0 <= k < m.Length :: m[k] => m[i][..])
  }

  /** int[].clone(): a fresh array with the same entries. */
  method CloneRow(src: array<int>) returns (dst: array<int>)
    ensures fresh(dst) && dst[..] == src[..]
  {
    dst := new int[src.Length];
    for k := 0 to src.Length
      invariant dst[..k] == src[..k]
    {
      dst[k] := src[k];
      assert dst[..k + 1] == dst[..k] + [dst[k]];
    }
  }
}
