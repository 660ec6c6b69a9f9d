/**
 Records and tables as the CSV reader produces them: a table is a sequence of
 rows, a row a sequence of fields addressed by position. Positions follow
 Python's indexing: a non-negative column counts from the front of the row,
 a negative one from its back.
 */
module Rows {

  type Row<T> = seq<T>
  type Table<T> = seq<Row<T>>

  /** `row[col]` does not raise IndexError. */
  predicate InRange<T>(row: Row<T>, col: int)
  {
    -|row| <= col < |row|
  }

  /** The position that `row[col]` reads. */
  function Pos<T>(row: Row<T>, col: int): (p: nat)
    requires InRange(row, col)
    ensures p < |row|
    ensures col >= 0 ==> p == col
  {
    if col >= 0 then col else |row| + col
  }

  /** Python's `row[col]`. */
  function Cell<T>(row: Row<T>, col: int): (c: T)
    requires InRange(row, col)
    ensures col >= 0 ==> c == row[col]
    ensures col < 0 ==> c == row[|row| + col]
  {
    row[Pos(row, col)]
  }

  /** Every row of the table can be indexed at `col`. */
  predicate Indexable<T>(table: Table<T>, col: int)
  {
    forall i :: 0 <= i < |table| ==> InRange(table[i], col)
  }

  /** `[table[i][col] for i in range(len(table))]`. */
  function Column<T>(table: Table<T>, col: int): (c: seq<T>)
    requires Indexable(table, col)
    ensures |c| == |table|
  {
    seq(|table|, i requires 0 <= i < |table| => Cell(table[i], col))
  }

  /** The column of a table with one more row is the old column plus that row's cell. */
  lemma ColumnSnoc<T>(table: Table<T>, col: int, n: nat)
    requires Indexable(table, col) && n < |table|
    ensures Column(table[..n + 1], col) == Column(table[..n], col) + [Cell(table[n], col)]
  {
  }
}
