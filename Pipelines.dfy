/** The two orders in which the scripts compose the three steps.

    The five earlier scripts drop incomplete rows first, then fix the city
    with the title-then-lookup rule, then coerce the cost (DropFirst). The
    latest script fixes the city with the lower-lookup-title rule, coerces
    the cost, and drops incomplete rows last (DropLast). Each function lists
    the column assignments in the order the scripts make them. */
module Pipelines {
  import opened Cells
  import opened CityNames
  import opened CostCoercion
  import opened Tables

  /** clean_data_v6.py: city, cost text, cost number, then dropna(). */
  function DropLast(rows: seq<Row>): seq<Row> {
    DropNa(WithCost(WithCost(WithCity(rows, City), CleanCostCell), ToNumeric))
  }

  /** The earlier scripts: dropna(), then city, cost text, cost number. */
  function DropFirst(rows: seq<Row>): seq<Row> {
    WithCost(WithCost(WithCity(DropNa(rows), LegacyCity), CleanCostCell), ToNumeric)
  }

  /** One raw row as the latest script rewrites it before the final drop. */
  function CleanRow(r: Row): Row {
    r.(city := City(r.city), cost := CoerceCost(r.cost))
  }

  /** One raw row as the earlier scripts rewrite it after the drop. */
  function LegacyCleanRow(r: Row): Row {
    r.(city := LegacyCity(r.city), cost := CoerceCost(r.cost))
  }

  /** A raw row the latest script keeps, stated on the raw cells: its city is
      text, its cost is a number or text whose cleaned form is a numeral, and
      no other column is missing. */
  predicate Survives(r: Row) {
    && r.city.Text?
    && (r.cost.Number? || (r.cost.Text? && IsNumeral(CleanCostText(r.cost.s))))
    && Null !in r.others
  }

  // ---------------------------------------------------------------------------
  // Row-by-row characterisations

  lemma ColumnStepsConcat(a: seq<Row>, b: seq<Row>, city: Cell -> Cell)
    ensures WithCost(WithCost(WithCity(a + b, city), CleanCostCell), ToNumeric)
         == WithCost(WithCost(WithCity(a, city), CleanCostCell), ToNumeric)
          + WithCost(WithCost(WithCity(b, city), CleanCostCell), ToNumeric)
  {
    WithCityConcat(a, b, city);
    WithCostConcat(WithCity(a, city), WithCity(b, city), CleanCostCell);
    WithCostConcat(WithCost(WithCity(a, city), CleanCostCell), WithCost(WithCity(b, city), CleanCostCell), ToNumeric);
  }

  /** The latest script decides row by row. */
  lemma DropLastConcat(a: seq<Row>, b: seq<Row>)
    ensures DropLast(a + b) == DropLast(a) + DropLast(b)
  {
    ColumnStepsConcat(a, b, City);
    DropNaConcat(WithCost(WithCost(WithCity(a, City), CleanCostCell), ToNumeric),
                 WithCost(WithCost(WithCity(b, City), CleanCostCell), ToNumeric));
  }

  /** The latest script keeps a row exactly when it Survives, and then writes
      it cleaned. With DropLastConcat this determines the whole output: the
      cleaned surviving rows, in input order. */
  lemma DropLastOfRow(r: Row)
    ensures DropLast([r]) == if Survives(r) then [CleanRow(r)] else []
  {
    var cleaned := WithCost(WithCost(WithCity([r], City), CleanCostCell), ToNumeric);
    assert cleaned == [CleanRow(r)];
    DropNaOfRow(CleanRow(r));
    CoerceCostIff(r.cost);
    CoerceNullIsNull();
  }

  /** The earlier scripts decide row by row. */
  lemma DropFirstConcat(a: seq<Row>, b: seq<Row>)
    ensures DropFirst(a + b) == DropFirst(a) + DropFirst(b)
  {
    DropNaConcat(a, b);
    ColumnStepsConcat(DropNa(a), DropNa(b), LegacyCity);
  }

  /** The earlier scripts keep a row exactly when it has no missing value on
      input, and then write it cleaned, whatever its cost becomes. */
  lemma DropFirstOfRow(r: Row)
    ensures DropFirst([r]) == if HasNull(r) then [] else [LegacyCleanRow(r)]
  {
    DropNaOfRow(r);
  }

  // ---------------------------------------------------------------------------
  // The latest script (drop last)

  /** Every row the latest script writes is complete: its city is title-cased
      text, its cost is a number, and no other column is missing, whatever
      was missing on input or became missing during coercion. */
  lemma DropLastRowsComplete(rows: seq<Row>)
    ensures forall i :: 0 <= i < |DropLast(rows)| ==>
      && DropLast(rows)[i].city.Text?
      && IsTitleCase(DropLast(rows)[i].city.s)
      && DropLast(rows)[i].cost.Number?
      && Null !in DropLast(rows)[i].others
  {
    var before := WithCost(WithCost(WithCity(rows, City), CleanCostCell), ToNumeric);
    var out := DropLast(rows);
    forall i | 0 <= i < |out|
      ensures out[i].city.Text? && IsTitleCase(out[i].city.s) && out[i].cost.Number? && Null !in out[i].others
    {
      assert !HasNull(out[i]);
      DropNaMembers(before, out[i]);
      var j :| 0 <= j < |before| && before[j] == out[i];
      CityIsTitleCase(rows[j].city);
      CoerceCostIff(rows[j].cost);
    }
  }

  /** The latest script writes at most as many rows as it reads, and the
      pass-through columns of the rows it writes are those of input rows, in
      the input's order. */
  lemma DropLastKeepsOrder(rows: seq<Row>)
    ensures |DropLast(rows)| <= |rows|
    ensures IsSubsequence(OtherColumns(DropLast(rows)), OtherColumns(rows))
  {
    var before := WithCost(WithCost(WithCity(rows, City), CleanCostCell), ToNumeric);
    DropNaIsSubsequence(before);
    OtherColumnsOfSubsequence(DropLast(rows), before);
    ColumnUpdatesKeepOthers(rows, City);
    ColumnUpdatesKeepOthers(WithCity(rows, City), CleanCostCell);
    ColumnUpdatesKeepOthers(WithCost(WithCity(rows, City), CleanCostCell), ToNumeric);
  }

  /** Running the latest script on its own output changes nothing. */
  lemma DropLastIdempotent(rows: seq<Row>)
    ensures DropLast(DropLast(rows)) == DropLast(rows)
  {
    var out := DropLast(rows);
    DropLastRowsComplete(rows);
    forall i | 0 <= i < |out| ensures Survives(out[i]) && CleanRow(out[i]) == out[i] {
      CityIdempotent(out[i].city);
      assert out[i].city == City(out[i].city) by {
        var before := WithCost(WithCost(WithCity(rows, City), CleanCostCell), ToNumeric);
        DropNaMembers(before, out[i]);
        var j :| 0 <= j < |before| && before[j] == out[i];
        CityIdempotent(rows[j].city);
      }
    }
    DropLastOfFixedRows(out);
  }

  /** A table of rows that survive and that cleaning leaves alone passes
      through the latest script unchanged. */
  lemma {:induction false} DropLastOfFixedRows(rows: seq<Row>)
    requires forall i :: 0 <= i < |rows| ==> Survives(rows[i]) && CleanRow(rows[i]) == rows[i]
    ensures DropLast(rows) == rows
    decreases |rows|
  {
    if rows != [] {
      assert rows == [rows[0]] + rows[1..];
      DropLastConcat([rows[0]], rows[1..]);
      DropLastOfRow(rows[0]);
      DropLastOfFixedRows(rows[1..]);
    }
  }

  // ---------------------------------------------------------------------------
  // The earlier scripts (drop first)

  /** No row is removed after the drop: the earlier scripts write exactly the
      rows without a missing input value, in order, with their pass-through
      columns unchanged and their city present and title-cased. */
  lemma DropFirstShape(rows: seq<Row>)
    ensures |DropFirst(rows)| == |DropNa(rows)|
    ensures OtherColumns(DropFirst(rows)) == OtherColumns(DropNa(rows))
    ensures forall i :: 0 <= i < |DropFirst(rows)| ==>
      && (DropFirst(rows)[i].city.Text? <==> DropNa(rows)[i].city.Text?)
      && (DropFirst(rows)[i].city.Text? ==> IsTitleCase(DropFirst(rows)[i].city.s))
  {
    var kept := DropNa(rows);
    forall i | 0 <= i < |kept|
      ensures && (DropFirst(rows)[i].city.Text? <==> kept[i].city.Text?)
              && (DropFirst(rows)[i].city.Text? ==> IsTitleCase(DropFirst(rows)[i].city.s))
    {
      assert DropFirst(rows)[i].city == LegacyCity(kept[i].city);
      LegacyCityIsTitleCase(kept[i].city);
    }
  }

  /** In the earlier scripts a cost that does not parse is written as a
      missing value: the row stays in the output. */
  lemma DropFirstWritesNullCosts(rows: seq<Row>)
    ensures forall i :: 0 <= i < |DropFirst(rows)| && DropNa(rows)[i].cost.Text? ==>
      (DropFirst(rows)[i].cost == Null <==> !IsNumeral(CleanCostText(DropNa(rows)[i].cost.s)))
  {
    var kept := DropNa(rows);
    forall i | 0 <= i < |kept| && kept[i].cost.Text?
      ensures DropFirst(rows)[i].cost == Null <==> !IsNumeral(CleanCostText(kept[i].cost.s))
    {
      CoerceCostIff(kept[i].cost);
    }
  }

  // ---------------------------------------------------------------------------
  // The two orders compared

  /** The latest script is the earlier pipeline followed by a second dropna()
      and a re-canonicalisation of the city with the latest rule: moving the
      drop to the end removes exactly the rows whose cost failed to parse. */
  lemma {:induction false} DropLastIsDropFirstThenDrop(rows: seq<Row>)
    ensures DropLast(rows) == WithCity(DropNa(DropFirst(rows)), City)
    decreases |rows|
  {
    if rows != [] {
      var r := rows[0];
      assert rows == [r] + rows[1..];
      DropLastConcat([r], rows[1..]);
      DropFirstConcat([r], rows[1..]);
      DropNaConcat(DropFirst([r]), DropFirst(rows[1..]));
      WithCityConcat(DropNa(DropFirst([r])), DropNa(DropFirst(rows[1..])), City);
      DropLastIsDropFirstThenDrop(rows[1..]);
      DropLastOfRow(r);
      DropFirstOfRow(r);
      DropNaOfRow(LegacyCleanRow(r));
      CoerceCostIff(r.cost);
      CoerceNullIsNull();
      CityAfterLegacyCity(r.city);
      if !HasNull(r) && !HasNull(LegacyCleanRow(r)) {
        assert WithCity([LegacyCleanRow(r)], City) == [CleanRow(r)];
      }
    } else {
      assert DropFirst(rows) == [];
    }
  }

  /** So the latest script never writes more rows than the earlier ones. */
  lemma DropLastWritesNoMoreRows(rows: seq<Row>)
    ensures |DropLast(rows)| <= |DropFirst(rows)|
  {
    DropLastIsDropFirstThenDrop(rows);
  }

  /** A row whose cost does not parse: the earlier scripts write it with a
      missing cost, the latest script drops it. */
  lemma UnparseableCostKeptThenDropped(r: Row)
    requires !HasNull(r) && r.cost.Text? && !IsNumeral(CleanCostText(r.cost.s))
    ensures DropFirst([r]) == [r.(city := LegacyCity(r.city), cost := Null)]
    ensures DropLast([r]) == []
  {
    CoerceCostIff(r.cost);
    DropFirstOfRow(r);
    DropLastOfRow(r);
  }

  /** A row without a city is written by neither order. */
  lemma MissingCityDropped(r: Row)
    requires r.city == Null
    ensures DropFirst([r]) == [] && DropLast([r]) == []
  {
    DropFirstOfRow(r);
    DropLastOfRow(r);
  }

  /** The two orders on an abbreviated city: the earlier scripts write "NYC"
      as "Nyc", the latest as "New York"; the other cells are kept. */
  lemma AbbreviatedCityExample()
    ensures DropFirst([Row(Text("NYC"), Number(12.5), [Text("o1")])]) ==
      [Row(Text("Nyc"), Number(12.5), [Text("o1")])]
    ensures DropLast([Row(Text("NYC"), Number(12.5), [Text("o1")])]) ==
      [Row(Text("New York"), Number(12.5), [Text("o1")])]
  {
    var r := Row(Text("NYC"), Number(12.5), [Text("o1")]);
    assert DropFirst([r]) == [Row(Text("Nyc"), Number(12.5), [Text("o1")])] by {
      DropFirstOfRow(r);
      LegacyCityExamples();
    }
    assert DropLast([r]) == [Row(Text("New York"), Number(12.5), [Text("o1")])] by {
      DropLastOfRow(r);
      CityExpandsNyc();
    }
  }

  /** Unlike the latest script, the earlier pipeline is not idempotent: a row
      it writes with a missing cost is dropped by a second run. */
  lemma DropFirstNotIdempotent()
    ensures var rows := [Row(Text("la"), Text("n/a"), [])];
      DropFirst(DropFirst(rows)) == [] != DropFirst(rows)
  {
    var r := Row(Text("la"), Text("n/a"), []);
    NoDigitsCoercesToNull("n/a");
    LegacyCityExamples();
    DropFirstOfRow(r);
    DropFirstOfRow(LegacyCleanRow(r));
  }
}
