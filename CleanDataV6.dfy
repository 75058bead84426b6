/** src/clean_data_v6.py: drop last. */
module CleanDataV6 {
  import opened CityNames
  import opened CostCoercion
  import opened Frames
  import Pipelines
  import Tables

  /** The transform of `main()`: a copy of the raw frame has its city and
      cost columns reassigned in place, then `df_clean` is rebound to the
      result of `dropna()`. The raw frame is left as it was. */
  method CleanFrame(dfRaw: Frame) returns (dfClean: Frame)
    ensures fresh(dfClean)
    ensures dfClean.rows == Pipelines.DropLast(dfRaw.rows)
    ensures forall i :: 0 <= i < |dfClean.rows| ==> !Tables.HasNull(dfClean.rows[i])
    ensures dfRaw.rows == old(dfRaw.rows)
  {
    dfClean := dfRaw.Copy();
    dfClean.AssignCity(City);
    dfClean.AssignCost(CleanCostCell);
    dfClean.AssignCost(ToNumeric);
    dfClean := dfClean.DropNa();
  }
}
