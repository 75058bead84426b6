/** Rows of the order table and the table operations the scripts use:
    `dropna()` and the overwriting of one column with a cell-wise function of
    itself (`df["city"] = f(df["city"])`). */
module Tables {
  import opened Cells

  /** One record: its `city` and `cost` cells and the cells of every other
      column, which the scripts pass through untouched. */
  datatype Row = Row(city: Cell, cost: Cell, others: seq<Cell>)

  /** A row `dropna()` removes: one with a missing value in any column. */
  predicate HasNull(r: Row) {
    r.city == Null || r.cost == Null || Null in r.others
  }

  /** `DataFrame.dropna()`: the rows without a missing value, in their order. */
  function DropNa(rows: seq<Row>): (kept: seq<Row>)
    ensures |kept| <= |rows|
    ensures forall i :: 0 <= i < |kept| ==> !HasNull(kept[i])
    decreases |rows|
  {
    if rows == [] then []
    else (if HasNull(rows[0]) then [] else [rows[0]]) + DropNa(rows[1..])
  }

  /** `df["city"] = f(df["city"])`: every row's city replaced by its image. */
  function WithCity(rows: seq<Row>, f: Cell -> Cell): seq<Row> {
    seq(|rows|, i requires 0 <= i < |rows| => rows[i].(city := f(rows[i].city)))
  }

  /** `df["cost"] = f(df["cost"])`. */
  function WithCost(rows: seq<Row>, f: Cell -> Cell): seq<Row> {
    seq(|rows|, i requires 0 <= i < |rows| => rows[i].(cost := f(rows[i].cost)))
  }

  /** The pass-through columns of every row, in row order. */
  function OtherColumns(rows: seq<Row>): seq<seq<Cell>> {
    seq(|rows|, i requires 0 <= i < |rows| => rows[i].others)
  }

  /** xs can be obtained from ys by deleting elements. */
  predicate IsSubsequence<T(==)>(xs: seq<T>, ys: seq<T>)
    decreases |ys|
  {
    if ys == [] then xs == []
    else IsSubsequence(xs, ys[1..]) || (xs != [] && xs[0] == ys[0] && IsSubsequence(xs[1..], ys[1..]))
  }

  // ---------------------------------------------------------------------------
  // dropna()

  /** dropna() decides row by row: on a concatenation it is the concatenation
      of its results. With DropNaOfRow this determines it completely. */
  lemma {:induction false} DropNaConcat(a: seq<Row>, b: seq<Row>)
    ensures DropNa(a + b) == DropNa(a) + DropNa(b)
    decreases |a|
  {
    if a == [] {
      assert a + b == b;
    } else {
      assert (a + b)[1..] == a[1..] + b;
      DropNaConcat(a[1..], b);
    }
  }

  /** A single row survives dropna() exactly when it has no missing value. */
  lemma DropNaOfRow(r: Row)
    ensures DropNa([r]) == if HasNull(r) then [] else [r]
  {
    assert [r][1..] == [];
  }

  /** A row is in the result exactly when it is in the input and has no
      missing value. */
  lemma {:induction false} DropNaMembers(rows: seq<Row>, r: Row)
    ensures r in DropNa(rows) <==> r in rows && !HasNull(r)
    decreases |rows|
  {
    if rows != [] {
      DropNaMembers(rows[1..], r);
      assert rows == [rows[0]] + rows[1..];
    }
  }

  /** The result keeps the input's order: it is a subsequence of it. */
  lemma {:induction false} DropNaIsSubsequence(rows: seq<Row>)
    ensures IsSubsequence(DropNa(rows), rows)
    decreases |rows|
  {
    if rows != [] {
      DropNaIsSubsequence(rows[1..]);
      if !HasNull(rows[0]) {
        var kept := DropNa(rows);
        assert kept == [rows[0]] + DropNa(rows[1..]);
        assert kept != [] && kept[0] == rows[0] && kept[1..] == DropNa(rows[1..]);
      } else {
        assert DropNa(rows) == [] + DropNa(rows[1..]) == DropNa(rows[1..]);
      }
    }
  }

  /** A table without missing values is left as it is. */
  lemma {:induction false} DropNaOfComplete(rows: seq<Row>)
    requires forall i :: 0 <= i < |rows| ==> !HasNull(rows[i])
    ensures DropNa(rows) == rows
    decreases |rows|
  {
    if rows != [] {
      DropNaOfComplete(rows[1..]);
      assert rows == [rows[0]] + rows[1..];
    }
  }

  /** dropna() is idempotent. */
  lemma DropNaIdempotent(rows: seq<Row>)
    ensures DropNa(DropNa(rows)) == DropNa(rows)
  {
    DropNaOfComplete(DropNa(rows));
  }

  // ---------------------------------------------------------------------------
  // Column updates

  lemma WithCityConcat(a: seq<Row>, b: seq<Row>, f: Cell -> Cell)
    ensures WithCity(a + b, f) == WithCity(a, f) + WithCity(b, f)
  {
  }

  lemma WithCostConcat(a: seq<Row>, b: seq<Row>, f: Cell -> Cell)
    ensures WithCost(a + b, f) == WithCost(a, f) + WithCost(b, f)
  {
  }

  /** Overwriting the city or the cost leaves every other column alone. */
  lemma ColumnUpdatesKeepOthers(rows: seq<Row>, f: Cell -> Cell)
    ensures OtherColumns(WithCity(rows, f)) == OtherColumns(rows)
    ensures OtherColumns(WithCost(rows, f)) == OtherColumns(rows)
  {
  }

  lemma OtherColumnsConcat(a: seq<Row>, b: seq<Row>)
    ensures OtherColumns(a + b) == OtherColumns(a) + OtherColumns(b)
  {
  }

  /** Projecting onto the pass-through columns keeps subsequences. */
  lemma {:induction false} OtherColumnsOfSubsequence(xs: seq<Row>, ys: seq<Row>)
    requires IsSubsequence(xs, ys)
    ensures IsSubsequence(OtherColumns(xs), OtherColumns(ys))
    decreases |ys|
  {
    if ys != [] {
      var oy := OtherColumns(ys);
      assert oy[1..] == OtherColumns(ys[1..]);
      if IsSubsequence(xs, ys[1..]) {
        OtherColumnsOfSubsequence(xs, ys[1..]);
      } else {
        var ox := OtherColumns(xs);
        assert ox[1..] == OtherColumns(xs[1..]);
        OtherColumnsOfSubsequence(xs[1..], ys[1..]);
      }
    }
  }
}
