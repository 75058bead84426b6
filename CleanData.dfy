/** src/clean_data.py: drop first, with one frame known by several names. */
module CleanData {
  import opened CityNames
  import opened CostCoercion
  import opened Frames
  import Pipelines
  import Tables

  /** The transform of `main()`. `df_clean_names`, `df_clean_dtype` and
      `df_clean` are further names for the frame `dropna().copy()` made, so
      every column assignment lands on that one frame, and the raw frame is
      left as it was. */
  method CleanFrame(dfRaw: Frame) returns (dfCleanNulls: Frame, dfCleanNames: Frame, dfCleanDtype: Frame, dfClean: Frame)
    ensures fresh(dfClean) && dfClean != dfRaw
    ensures dfCleanNulls == dfCleanNames == dfCleanDtype == dfClean
    ensures dfClean.rows == Pipelines.DropFirst(dfRaw.rows)
    ensures |dfClean.rows| == |Tables.DropNa(dfRaw.rows)|
    ensures dfRaw.rows == old(dfRaw.rows)
  {
    var dropped := dfRaw.DropNa();
    dfCleanNulls := dropped.Copy();
    dfCleanNames := dfCleanNulls;
    dfCleanNames.AssignCity(LegacyCity);
    dfCleanDtype := dfCleanNames;
    dfCleanDtype.AssignCost(CleanCostCell);
    dfCleanDtype.AssignCost(ToNumeric);
    dfClean := dfCleanDtype;
  }
}
