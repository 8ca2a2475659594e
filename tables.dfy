/** The tabular dataset passed between stages: an ordered column list and rows
    of cells, each cell present or missing (pandas' NaN/NaT). */
module Tables {
  import opened Wrappers
  import Dates

  /** A scalar a cell can hold: spreadsheet text, a number, or a parsed date. */
  datatype Value = Text(text: string) | Number(number: int) | Timestamp(date: Dates.Date)

  type Cell = Option<Value>
  type Row = seq<Cell>

  datatype Table = Table(columns: seq<string>, rows: seq<Row>)

  /** Every row has one cell per column, as in a data frame. */
  predicate WellFormed(t: Table) {
    forall i :: 0 <= i < |t.rows| ==> |t.rows[i]| == |t.columns|
  }

  /** pandas' `DataFrame.empty`: no rows or no columns. */
  predicate IsEmpty(t: Table) {
    |t.rows| == 0 || |t.columns| == 0
  }

  /** `pd.DataFrame()`: no columns and no rows. */
  const EmptyFrame := Table([], [])

  /** What a connector's `insert_data` accepts: a whole frame, or one row as a
      Series indexed by column name (what `iloc[i, :]` yields). */
  datatype Data = Frame(table: Table) | Series(index: seq<string>, values: Row)

  /** `data.to_frame().T` for a Series, the frame itself otherwise. */
  function AsFrame(d: Data): (t: Table)
    ensures d.Series? ==> |t.rows| == 1 && t.rows[0] == d.values && t.columns == d.index
    ensures d.Frame? ==> t == d.table
  {
    match d
    case Frame(t) => t
    case Series(index, values) => Table(index, [values])
  }

  /** Converting a row of a well-formed frame to a Series and back yields a
      well-formed one-row frame holding exactly that row. */
  lemma SeriesOfRow(t: Table, i: nat)
    requires WellFormed(t) && i < |t.rows|
    ensures var f := AsFrame(Series(t.columns, t.rows[i]));
      WellFormed(f) && f.columns == t.columns && f.rows == [t.rows[i]]
    ensures IsEmpty(AsFrame(Series(t.columns, t.rows[i]))) <==> |t.columns| == 0
  {
  }
}
