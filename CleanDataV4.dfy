/** src/clean_data_v4.py: drop first, one frame named `df_clean`. */
module CleanDataV4 {
  import opened CityNames
  import opened CostCoercion
  import opened Frames
  import Pipelines
  import Tables

  /** The transform of `main()`: `dropna().copy()`, then the city
      assignment and the two cost assignments on that copy. The raw frame is
      left as it was. */
  method CleanFrame(dfRaw: Frame) returns (dfClean: Frame)
    ensures fresh(dfClean)
    ensures dfClean.rows == Pipelines.DropFirst(dfRaw.rows)
    ensures |dfClean.rows| == |Tables.DropNa(dfRaw.rows)|
    ensures dfRaw.rows == old(dfRaw.rows)
  {
    var dropped := dfRaw.DropNa();
    dfClean := dropped.Copy();
    dfClean.AssignCity(LegacyCity);
    dfClean.AssignCost(CleanCostCell);
    dfClean.AssignCost(ToNumeric);
  }
}
