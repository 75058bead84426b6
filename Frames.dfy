/** A pandas DataFrame as the scripts use it: an object whose rows are
    replaced column by column in place, which `copy()` and `dropna()` turn
    into new, independent objects. */
module Frames {
  import opened Cells
  import Tables

  class Frame {
    var rows: seq<Tables.Row>

    constructor (rows: seq<Tables.Row>)
      ensures this.rows == rows
    {
      this.rows := rows;
    }

    /** `df.copy()`: a new frame holding the same rows. */
    method Copy() returns (f: Frame)
      ensures fresh(f) && f.rows == rows
    {
      f := new Frame(rows);
    }

    /** `df.dropna()`: a new frame holding the rows with no missing value. */
    method DropNa() returns (f: Frame)
      ensures fresh(f) && f.rows == Tables.DropNa(rows)
    {
      f := new Frame(Tables.DropNa(rows));
    }

    /** `df["city"] = <cell-wise f of df["city"]>`, in place. */
    method AssignCity(f: Cell -> Cell)
      modifies this
      ensures rows == Tables.WithCity(old(rows), f)
    {
      rows := Tables.WithCity(rows, f);
    }

    /** `df["cost"] = <cell-wise f of df["cost"]>`, in place. */
    method AssignCost(f: Cell -> Cell)
      modifies this
      ensures rows == Tables.WithCost(old(rows), f)
    {
      rows := Tables.WithCost(rows, f);
    }
  }
}
