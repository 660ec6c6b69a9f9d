/**
 `make_dict(table, key_col)`: a dictionary keyed by the value in column
 `key_col` of each row, whose value is a copy of the row with the first
 element equal to that key removed. A repeated key keeps its first position
 in the key order and takes the value of its last row.
 */
module DictBuilder {
  import opened Rows
  import opened Lists
  import opened Dicts

  /** The value make_dict stores for one row: `copy = list(row); copy.remove(row[col])`. */
  function Entry<T(==)>(row: Row<T>, col: int): (e: seq<T>)
    requires InRange(row, col)
    ensures |e| == |row| - 1
  {
    RemoveFirst(row, Cell(row, col))
  }

  /** make_dict as a specification: the rows assigned into an empty dict one after another. */
  function MakeDict<T(==)>(table: Table<T>, col: int): (d: Dict<T, seq<T>>)
    requires Indexable(table, col)
    decreases |table|
  {
    if table == [] then Empty()
    else
      var n := |table| - 1;
      MakeDict(table[..n], col).Put(Cell(table[n], col), Entry(table[n], col))
  }

  /** The loop of make_dict, building the key order and the entries in place. */
  method BuildDict<T(==)>(table: Table<T>, col: int) returns (d: Dict<T, seq<T>>)
    requires Indexable(table, col)
    ensures d == MakeDict(table, col)
  {
    var keys: seq<T> := [];
    var entries: map<T, seq<T>> := map[];
    for n := 0 to |table|
      invariant Dict(keys, entries) == MakeDict(table[..n], col)
    {
      var row := table[n];
      var key := Cell(row, col);
      var copy := row;
      copy := RemoveFirst(copy, key);
      if key !in entries {
        keys := keys + [key];
      }
      entries := entries[key := copy];
      assert table[..n + 1][..n] == table[..n];
    }
    assert table[..|table|] == table;
    d := Dict(keys, entries);
  }

  /** The key order of the result lists each of its keys exactly once; an empty table gives an empty dict. */
  lemma {:induction false} MakeDictValid<T>(table: Table<T>, col: int)
    requires Indexable(table, col)
    ensures MakeDict(table, col).Valid()
    ensures table == [] ==> MakeDict(table, col) == Empty()
    decreases |table|
  {
    if table != [] {
      var n := |table| - 1;
      MakeDictValid(table[..n], col);
      MakeDict(table[..n], col).PutValid(Cell(table[n], col), Entry(table[n], col));
    }
  }

  /** The keys are exactly the values of column `col`. */
  lemma {:induction false} MakeDictKeys<T>(table: Table<T>, col: int)
    requires Indexable(table, col)
    ensures forall k :: k in MakeDict(table, col).entries <==> k in Column(table, col)
    decreases |table|
  {
    if table != [] {
      var n := |table| - 1;
      assert table[..n + 1] == table;
      MakeDictKeys(table[..n], col);
      ColumnSnoc(table, col, n);
    }
  }

  /** The key order is the order in which each key first appears in column `col`. */
  lemma {:induction false} MakeDictOrder<T>(table: Table<T>, col: int)
    requires Indexable(table, col)
    ensures FirstAppearanceOrder(MakeDict(table, col).keys, Column(table, col))
    decreases |table|
  {
    if table != [] {
      var n := |table| - 1;
      var prev := MakeDict(table[..n], col);
      var key := Cell(table[n], col);
      assert table[..n + 1] == table;
      ColumnSnoc(table, col, n);
      MakeDictOrder(table[..n], col);
      MakeDictKeys(table[..n], col);
      MakeDictValid(table[..n], col);
      FirstAppearanceSnoc(prev.keys, Column(table[..n], col), key);
    }
  }

  /** Row `i` is the last row of the table whose key is `k`. */
  ghost predicate LastRowWithKey<T>(table: Table<T>, col: int, i: int, k: T)
    requires Indexable(table, col)
  {
    && 0 <= i < |table| && Cell(table[i], col) == k
    && forall j :: i < j < |table| ==> Cell(table[j], col) != k
  }

  /** Last write wins: the last row carrying a key supplies that key's value. */
  lemma {:induction false} MakeDictLastWins<T>(table: Table<T>, col: int, i: nat)
    requires Indexable(table, col) && i < |table|
    requires LastRowWithKey(table, col, i, Cell(table[i], col))
    ensures Cell(table[i], col) in MakeDict(table, col).entries
    ensures MakeDict(table, col).entries[Cell(table[i], col)] == Entry(table[i], col)
    decreases |table|
  {
    var n := |table| - 1;
    if i < n {
      assert table[..n][i] == table[i];
      assert LastRowWithKey(table[..n], col, i, Cell(table[i], col));
      MakeDictLastWins(table[..n], col, i);
    }
  }

  /**
   Every stored value comes from the last row carrying its key, and has one
   field fewer than that row.
   */
  lemma MakeDictValues<T>(table: Table<T>, col: int, k: T)
    requires Indexable(table, col)
    requires k in MakeDict(table, col).entries
    ensures k in Column(table, col)
    ensures
      var i := LastIndex(Column(table, col), k);
      && LastRowWithKey(table, col, i, k)
      && MakeDict(table, col).entries[k] == Entry(table[i], col)
      && |MakeDict(table, col).entries[k]| == |table[i]| - 1
  {
    MakeDictKeys(table, col);
    var c := Column(table, col);
    var i := LastIndex(c, k);
    assert Cell(table[i], col) == k;
    assert LastRowWithKey(table, col, i, k) by {
      forall j | i < j < |table| ensures Cell(table[j], col) != k {
        assert c[j] == Cell(table[j], col);
      }
    }
    MakeDictLastWins(table, col, i);
    EntryShape(table[i], col);
  }

  /**
   A stored value is the row with one field deleted: the first that equals the
   key, found at or before the key's own column. When the key value occurs
   nowhere else in the row it is exactly the row without column `col`.
   */
  lemma EntryShape<T>(row: Row<T>, col: int)
    requires InRange(row, col)
    ensures |Entry(row, col)| == |row| - 1
    ensures
      var p := FirstIndex(row, Cell(row, col));
      p <= Pos(row, col) && row[p] == Cell(row, col)
      && Entry(row, col) == row[..p] + row[p + 1..]
    ensures (forall q :: 0 <= q < |row| && q != Pos(row, col) ==> row[q] != Cell(row, col)) ==>
      Entry(row, col) == row[..Pos(row, col)] + row[Pos(row, col) + 1..]
  {
    RemoveFirstDeletes(row, Cell(row, col));
  }

  /**
   Deleting by value is not deleting by position: with the key in column 2 of
   `[2, 1, 2]`, make_dict stores `[1, 2]`, not `[2, 1]`, and the key value is
   still in the stored entry.
   */
  lemma RemovalIsByValue()
    ensures Entry([2, 1, 2], 2) == [1, 2]
    ensures Entry([2, 1, 2], 2) != [2, 1, 2][..2]
    ensures Cell([2, 1, 2], 2) in Entry([2, 1, 2], 2)
  {
  }

  /** Adding a row at the end of the table is one more assignment into the dict. */
  lemma MakeDictSnoc<T>(table: Table<T>, row: Row<T>, col: int)
    requires Indexable(table, col) && InRange(row, col)
    ensures Indexable(table + [row], col)
    ensures MakeDict(table + [row], col) == MakeDict(table, col).Put(Cell(row, col), Entry(row, col))
  {
    assert (table + [row])[..|table|] == table;
  }

  // Each test_make_dict example is proved one row at a time: a lemma per prefix
  // of the table keeps every step a small computation for the verifier.

  /** The first row of `MakeDictTable1Col0`. */
  lemma MakeDictTable1Col0Rows1()
    ensures MakeDict([[1, 2]], 0) == Dict([1], map[1 := [2]])
  {
    MakeDictSnoc([], [1, 2], 0);
    assert [] + [[1, 2]] == [[1, 2]];
    assert Cell([1, 2], 0) == 1;
    assert Entry([1, 2], 0) == [2] by { assert [1, 2][1..] == [2]; }
  }

  /** The first 2 rows of `MakeDictTable1Col0`. */
  lemma MakeDictTable1Col0Rows2()
    ensures MakeDict([[1, 2], [3, 4]], 0) == Dict([1, 3], map[1 := [2], 3 := [4]])
  {
    MakeDictTable1Col0Rows1();
    MakeDictSnoc([[1, 2]], [3, 4], 0);
    assert [[1, 2]] + [[3, 4]] == [[1, 2], [3, 4]];
    assert Cell([3, 4], 0) == 3;
    assert Entry([3, 4], 0) == [4] by { assert [3, 4][1..] == [4]; }
  }

  /** `make_dict(table1, 0)` in test_make_dict. */
  lemma MakeDictTable1Col0()
    ensures MakeDict([[1, 2], [3, 4], [5, 6]], 0) == Dict([1, 3, 5], map[1 := [2], 3 := [4], 5 := [6]])
  {
    MakeDictTable1Col0Rows2();
    MakeDictSnoc([[1, 2], [3, 4]], [5, 6], 0);
    assert [[1, 2], [3, 4]] + [[5, 6]] == [[1, 2], [3, 4], [5, 6]];
    assert Cell([5, 6], 0) == 5;
    assert Entry([5, 6], 0) == [6] by { assert [5, 6][1..] == [6]; }
  }

  /** The first row of `MakeDictTable1Col1`. */
  lemma MakeDictTable1Col1Rows1()
    ensures MakeDict([[1, 2]], 1) == Dict([2], map[2 := [1]])
  {
    MakeDictSnoc([], [1, 2], 1);
    assert [] + [[1, 2]] == [[1, 2]];
    assert Cell([1, 2], 1) == 2;
    assert Entry([1, 2], 1) == [1] by { assert [1, 2][1..] == [2]; assert [2][1..] == []; }
  }

  /** The first 2 rows of `MakeDictTable1Col1`. */
  lemma MakeDictTable1Col1Rows2()
    ensures MakeDict([[1, 2], [3, 4]], 1) == Dict([2, 4], map[2 := [1], 4 := [3]])
  {
    MakeDictTable1Col1Rows1();
    MakeDictSnoc([[1, 2]], [3, 4], 1);
    assert [[1, 2]] + [[3, 4]] == [[1, 2], [3, 4]];
    assert Cell([3, 4], 1) == 4;
    assert Entry([3, 4], 1) == [3] by { assert [3, 4][1..] == [4]; assert [4][1..] == []; }
  }

  /** `make_dict(table1, 1)` in test_make_dict. */
  lemma MakeDictTable1Col1()
    ensures MakeDict([[1, 2], [3, 4], [5, 6]], 1) == Dict([2, 4, 6], map[2 := [1], 4 := [3], 6 := [5]])
  {
    MakeDictTable1Col1Rows2();
    MakeDictSnoc([[1, 2], [3, 4]], [5, 6], 1);
    assert [[1, 2], [3, 4]] + [[5, 6]] == [[1, 2], [3, 4], [5, 6]];
    assert Cell([5, 6], 1) == 6;
    assert Entry([5, 6], 1) == [5] by { assert [5, 6][1..] == [6]; assert [6][1..] == []; }
  }

  /** The first row of `MakeDictTable2Col1`. */
  lemma MakeDictTable2Col1Rows1()
    ensures MakeDict([[1, 2, 3]], 1) == Dict([2], map[2 := [1, 3]])
  {
    MakeDictSnoc([], [1, 2, 3], 1);
    assert [] + [[1, 2, 3]] == [[1, 2, 3]];
    assert Cell([1, 2, 3], 1) == 2;
    assert Entry([1, 2, 3], 1) == [1, 3] by { assert [1, 2, 3][1..] == [2, 3]; assert [2, 3][1..] == [3]; }
  }

  /** The first 2 rows of `MakeDictTable2Col1`. */
  lemma MakeDictTable2Col1Rows2()
    ensures MakeDict([[1, 2, 3], [2, 4, 6]], 1) == Dict([2, 4], map[2 := [1, 3], 4 := [2, 6]])
  {
    MakeDictTable2Col1Rows1();
    MakeDictSnoc([[1, 2, 3]], [2, 4, 6], 1);
    assert [[1, 2, 3]] + [[2, 4, 6]] == [[1, 2, 3], [2, 4, 6]];
    assert Cell([2, 4, 6], 1) == 4;
    assert Entry([2, 4, 6], 1) == [2, 6] by { assert [2, 4, 6][1..] == [4, 6]; assert [4, 6][1..] == [6]; }
  }

  /** `make_dict(table2, 1)` in test_make_dict. */
  lemma MakeDictTable2Col1()
    ensures MakeDict([[1, 2, 3], [2, 4, 6], [3, 6, 9]], 1) == Dict([2, 4, 6], map[2 := [1, 3], 4 := [2, 6], 6 := [3, 9]])
  {
    MakeDictTable2Col1Rows2();
    MakeDictSnoc([[1, 2, 3], [2, 4, 6]], [3, 6, 9], 1);
    assert [[1, 2, 3], [2, 4, 6]] + [[3, 6, 9]] == [[1, 2, 3], [2, 4, 6], [3, 6, 9]];
    assert Cell([3, 6, 9], 1) == 6;
    assert Entry([3, 6, 9], 1) == [3, 9] by { assert [3, 6, 9][1..] == [6, 9]; assert [6, 9][1..] == [9]; }
  }

  /** The first row of `MakeDictTable2Col2`. */
  lemma MakeDictTable2Col2Rows1()
    ensures MakeDict([[1, 2, 3]], 2) == Dict([3], map[3 := [1, 2]])
  {
    MakeDictSnoc([], [1, 2, 3], 2);
    assert [] + [[1, 2, 3]] == [[1, 2, 3]];
    assert Cell([1, 2, 3], 2) == 3;
    assert Entry([1, 2, 3], 2) == [1, 2] by { assert [1, 2, 3][1..] == [2, 3]; assert [2, 3][1..] == [3]; assert [3][1..] == []; }
  }

  /** The first 2 rows of `MakeDictTable2Col2`. */
  lemma MakeDictTable2Col2Rows2()
    ensures MakeDict([[1, 2, 3], [2, 4, 6]], 2) == Dict([3, 6], map[3 := [1, 2], 6 := [2, 4]])
  {
    MakeDictTable2Col2Rows1();
    MakeDictSnoc([[1, 2, 3]], [2, 4, 6], 2);
    assert [[1, 2, 3]] + [[2, 4, 6]] == [[1, 2, 3], [2, 4, 6]];
    assert Cell([2, 4, 6], 2) == 6;
    assert Entry([2, 4, 6], 2) == [2, 4] by { assert [2, 4, 6][1..] == [4, 6]; assert [4, 6][1..] == [6]; assert [6][1..] == []; }
  }

  /** `make_dict(table2, 2)` in test_make_dict. */
  lemma MakeDictTable2Col2()
    ensures MakeDict([[1, 2, 3], [2, 4, 6], [3, 6, 9]], 2) == Dict([3, 6, 9], map[3 := [1, 2], 6 := [2, 4], 9 := [3, 6]])
  {
    MakeDictTable2Col2Rows2();
    MakeDictSnoc([[1, 2, 3], [2, 4, 6]], [3, 6, 9], 2);
    assert [[1, 2, 3], [2, 4, 6]] + [[3, 6, 9]] == [[1, 2, 3], [2, 4, 6], [3, 6, 9]];
    assert Cell([3, 6, 9], 2) == 9;
    assert Entry([3, 6, 9], 2) == [3, 6] by { assert [3, 6, 9][1..] == [6, 9]; assert [6, 9][1..] == [9]; assert [9][1..] == []; }
  }
}
