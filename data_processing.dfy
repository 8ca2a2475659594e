/** `clean_data`: coerce the `DATA` column to dates, then drop every row that
    has a missing cell. */
module DataProcessing {
  import opened Wrappers
  import opened Tables
  import opened Dates
  import Strings

  const DateColumn := "DATA"

  /** `pd.to_datetime(cell, format='%d/%m/%Y', errors='coerce')` for one cell:
      text becomes its date or missing, a date stays, anything else becomes missing. */
  function CoerceDateCell(c: Cell): (r: Cell)
    ensures r.Some? ==> r.value.Timestamp? && ValidDate(r.value.date)
    ensures c.Some? && c.value.Text? ==>
      (ParseDate(c.value.text).Some? ==> r == Some(Timestamp(ParseDate(c.value.text).value))) &&
      (ParseDate(c.value.text).None? ==> r.None?)
  {
    match c
    case None => None
    case Some(Text(s)) =>
      (match ParseDate(s) case Some(d) => Some(Timestamp(d)) case None => None)
    case Some(Timestamp(d)) => if ValidDate(d) then c else None
    case Some(Number(_)) => None
  }

  /** The rows with the cell in column `j` coerced (a row too short to have one is left alone). */
  function CoerceColumn(rows: seq<Row>, j: nat): (r: seq<Row>)
    ensures |r| == |rows|
    ensures forall i :: 0 <= i < |rows| ==> |r[i]| == |rows[i]|
  {
    seq(|rows|, i requires 0 <= i < |rows| =>
      if j < |rows[i]| then rows[i][j := CoerceDateCell(rows[i][j])] else rows[i])
  }

  /** Line 11: rewrite the `DATA` column when the frame has one. */
  function Coerce(t: Table): Table
  {
    if DateColumn in t.columns then Table(t.columns, CoerceColumn(t.rows, Strings.FirstIndex(t.columns, DateColumn)))
    else t
  }

  /** Line 11 over the whole frame, dropped rows included: the shape is kept,
      without a `DATA` column nothing changes, and with one every `DATA` cell is
      replaced by its coerced value, which is missing or a valid date, while every
      other cell stays as it was. */
  lemma CoerceSpec(t: Table)
    requires WellFormed(t)
    ensures Coerce(t).columns == t.columns && |Coerce(t).rows| == |t.rows|
    ensures WellFormed(Coerce(t))
    ensures DateColumn !in t.columns ==> Coerce(t) == t
    ensures DateColumn in t.columns ==>
      var d := Strings.FirstIndex(t.columns, DateColumn);
      forall i, k :: 0 <= i < |t.rows| && 0 <= k < |t.columns| ==>
        Coerce(t).rows[i][k] == (if k == d then CoerceDateCell(t.rows[i][d]) else t.rows[i][k])
    ensures DateColumn in t.columns ==>
      var d := Strings.FirstIndex(t.columns, DateColumn);
      forall i :: 0 <= i < |t.rows| ==>
        var c := Coerce(t).rows[i][d];
        c.None? || (c.value.Timestamp? && ValidDate(c.value.date))
  {
  }

  /** A row `dropna` keeps: no cell is missing. */
  predicate Complete(row: Row) {
    forall k :: 0 <= k < |row| ==> row[k].Some?
  }

  /** `dropna()`: the complete rows, in their original order. */
  function DropIncomplete(rows: seq<Row>): seq<Row>
  {
    if rows == [] then []
    else
      var last := rows[|rows| - 1];
      DropIncomplete(rows[..|rows| - 1]) + (if Complete(last) then [last] else [])
  }

  /** The positions of the complete rows, ascending. */
  function KeptIndices(rows: seq<Row>): seq<nat>
  {
    if rows == [] then []
    else
      var n := |rows| - 1;
      KeptIndices(rows[..n]) + (if Complete(rows[n]) then [n] else [])
  }

  /** `dropna` keeps exactly the complete rows, in order: the j-th kept row is
      the input row at the j-th ascending complete position. */
  lemma {:induction false} DropIncompleteSpec(rows: seq<Row>)
    ensures var r, ks := DropIncomplete(rows), KeptIndices(rows);
      |r| == |ks| &&
      (forall j :: 0 <= j < |ks| ==> ks[j] < |rows| && r[j] == rows[ks[j]]) &&
      (forall j1, j2 :: 0 <= j1 < j2 < |ks| ==> ks[j1] < ks[j2]) &&
      (forall i :: 0 <= i < |rows| ==> (Complete(rows[i]) <==> i in ks))
  {
    if rows != [] {
      var n := |rows| - 1;
      var init := rows[..n];
      DropIncompleteSpec(init);
      var r0, ks0 := DropIncomplete(init), KeptIndices(init);
      var r, ks := DropIncomplete(rows), KeptIndices(rows);
      var keep := Complete(rows[n]);
      assert r == r0 + (if keep then [rows[n]] else []);
      assert ks == ks0 + (if keep then [n] else []);
      forall j | 0 <= j < |ks|
        ensures ks[j] < |rows| && r[j] == rows[ks[j]]
      {
        if j < |ks0| {
          assert ks[j] == ks0[j] && r[j] == r0[j] && init[ks0[j]] == rows[ks0[j]];
        }
      }
      forall j1, j2 | 0 <= j1 < j2 < |ks|
        ensures ks[j1] < ks[j2]
      {
        assert ks[j1] == ks0[j1];
        if j2 < |ks0| {
          assert ks[j2] == ks0[j2];
        }
      }
      forall i | 0 <= i < |rows|
        ensures Complete(rows[i]) <==> i in ks
      {
        if i < n {
          assert init[i] == rows[i];
          assert i in ks <==> i in ks0;
        } else {
          assert n !in ks0;
        }
      }
    }
  }

  lemma CompleteAfterUpdate(row: Row, d: nat, x: Cell)
    requires d < |row|
    ensures Complete(row[d := x]) <==> x.Some? && forall k :: 0 <= k < |row| && k != d ==> row[k].Some?
  {
    var u := row[d := x];
    if Complete(u) {
      assert u[d] == x;
      forall k | 0 <= k < |row| && k != d ensures row[k].Some? {
        assert u[k] == row[k];
      }
    }
  }

  /** What `clean_data` returns when nothing goes wrong. */
  function Clean(t: Table): Table
  {
    var c := Coerce(t);
    Table(c.columns, DropIncomplete(c.rows))
  }

  /** `clean_data(df)`; `fault` stands for an exception raised inside it, which
      the function turns into an empty frame (lines 18-20). */
  function CleanResult(t: Table, fault: bool): (r: Table)
    ensures fault ==> r == EmptyFrame && IsEmpty(r)
    ensures !fault ==> r == Clean(t)
  {
    if fault then EmptyFrame else Clean(t)
  }

  /** No cleaned row has a missing cell, the columns are unchanged and no row is added. */
  lemma CleanShape(t: Table)
    ensures Clean(t).columns == t.columns
    ensures |Clean(t).rows| <= |t.rows|
    ensures forall j :: 0 <= j < |Clean(t).rows| ==> Complete(Clean(t).rows[j])
    ensures WellFormed(t) ==> WellFormed(Clean(t))
  {
    var c := Coerce(t);
    DropIncompleteSpec(c.rows);
    var ks := KeptIndices(c.rows);
    forall j | 0 <= j < |ks| ensures Complete(Clean(t).rows[j]) {
      assert ks[j] in ks;
    }
    KeptIndicesBound(c.rows);
  }

  /** There are never more complete positions than rows. */
  lemma {:induction false} KeptIndicesBound(rows: seq<Row>)
    ensures |KeptIndices(rows)| <= |rows|
  {
    if rows != [] {
      KeptIndicesBound(rows[..|rows| - 1]);
    }
  }

  /** Without a `DATA` column no cell changes: the cleaned rows are exactly the
      complete input rows, in order. */
  lemma CleanWithoutDateColumn(t: Table)
    requires DateColumn !in t.columns
    ensures Clean(t).rows == DropIncomplete(t.rows)
    ensures var ks := KeptIndices(t.rows);
      |Clean(t).rows| == |ks| &&
      (forall j :: 0 <= j < |ks| ==> ks[j] < |t.rows| && Clean(t).rows[j] == t.rows[ks[j]]) &&
      (forall i :: 0 <= i < |t.rows| ==> (Complete(t.rows[i]) <==> i in ks))
  {
    DropIncompleteSpec(t.rows);
  }

  /** With a `DATA` column at position d, input row i is kept exactly when every
      other cell is present and its `DATA` cell coerces to a date; a kept row equals
      the input row except that its `DATA` cell holds that date. */
  lemma CleanWithDateColumn(t: Table)
    requires DateColumn in t.columns && WellFormed(t)
    ensures var d := Strings.FirstIndex(t.columns, DateColumn);
      var ks := KeptIndices(Coerce(t).rows);
      |Clean(t).rows| == |ks| &&
      (forall i :: 0 <= i < |t.rows| ==>
        (i in ks <==>
          CoerceDateCell(t.rows[i][d]).Some? &&
          forall k :: 0 <= k < |t.columns| && k != d ==> t.rows[i][k].Some?)) &&
      (forall j :: 0 <= j < |ks| ==>
        ks[j] < |t.rows| &&
        |Clean(t).rows[j]| == |t.columns| &&
        Clean(t).rows[j][d] == CoerceDateCell(t.rows[ks[j]][d]) &&
        (forall k :: 0 <= k < |t.columns| && k != d ==> Clean(t).rows[j][k] == t.rows[ks[j]][k]))
  {
    var d := Strings.FirstIndex(t.columns, DateColumn);
    var c := Coerce(t);
    DropIncompleteSpec(c.rows);
    forall i | 0 <= i < |t.rows|
      ensures Complete(c.rows[i]) <==>
        CoerceDateCell(t.rows[i][d]).Some? &&
        forall k :: 0 <= k < |t.columns| && k != d ==> t.rows[i][k].Some?
    {
      assert c.rows[i] == t.rows[i][d := CoerceDateCell(t.rows[i][d])];
      CompleteAfterUpdate(t.rows[i], d, CoerceDateCell(t.rows[i][d]));
    }
  }

  /** Every kept `DATA` cell is a valid date, and it is the date the input cell
      of the same row spelled as text (or already held). */
  lemma CleanDatesValid(t: Table)
    requires DateColumn in t.columns && WellFormed(t)
    ensures WellFormed(Clean(t))
    ensures |Clean(t).rows| == |KeptIndices(Coerce(t).rows)|
    ensures var d := Strings.FirstIndex(t.columns, DateColumn);
      var ks := KeptIndices(Coerce(t).rows);
      forall j :: 0 <= j < |ks| ==>
        ks[j] < |t.rows| &&
        var cell, input := Clean(t).rows[j][d], t.rows[ks[j]][d];
        cell.Some? && cell.value.Timestamp? && ValidDate(cell.value.date) &&
        (input == cell ||
         (input.Some? && input.value.Text? && ParseDate(input.value.text) == Some(cell.value.date)))
  {
    CleanShape(t);
    CleanWithDateColumn(t);
  }

  /** A row whose `DATA` cell spells an existing date and whose other cells are
      all present survives cleaning, with that date in its `DATA` cell and every
      other cell as it was. */
  lemma ValidDateRowKept(t: Table, i: nat, s: string, dt: Date)
    requires DateColumn in t.columns && WellFormed(t) && i < |t.rows|
    requires t.rows[i][Strings.FirstIndex(t.columns, DateColumn)] == Some(Text(s)) && ParseDate(s) == Some(dt)
    requires forall k :: 0 <= k < |t.columns| && k != Strings.FirstIndex(t.columns, DateColumn) ==> t.rows[i][k].Some?
    ensures exists j :: (0 <= j < |Clean(t).rows| &&
      Clean(t).rows[j] == t.rows[i][Strings.FirstIndex(t.columns, DateColumn) := Some(Timestamp(dt))])
  {
    var d := Strings.FirstIndex(t.columns, DateColumn);
    var ks := KeptIndices(Coerce(t).rows);
    CleanWithDateColumn(t);
    assert i in ks;
    var j :| 0 <= j < |ks| && ks[j] == i;
    assert Clean(t).rows[j] == t.rows[i][d := Some(Timestamp(dt))];
  }

  /** In particular a date written dd/mm/yyyy is kept as that date. */
  lemma FormattedDateRowKept(t: Table, i: nat, dt: Date)
    requires DateColumn in t.columns && WellFormed(t) && i < |t.rows|
    requires ValidDate(dt) && dt.year < 10000
    requires t.rows[i][Strings.FirstIndex(t.columns, DateColumn)] == Some(Text(FormatDate(dt)))
    requires forall k :: 0 <= k < |t.columns| && k != Strings.FirstIndex(t.columns, DateColumn) ==> t.rows[i][k].Some?
    ensures exists j :: (0 <= j < |Clean(t).rows| &&
      Clean(t).rows[j] == t.rows[i][Strings.FirstIndex(t.columns, DateColumn) := Some(Timestamp(dt))])
  {
    ParseFormatDate(dt);
    ValidDateRowKept(t, i, FormatDate(dt), dt);
  }

  /** The scenario of an unparseable "31/13/2024" next to a valid "01/02/2023",
      with every other cell present: the first row is dropped, the second kept
      with its date read as 1 February 2023. */
  lemma ScenarioMonthThirteen(t: Table, x: Value, y: Value)
    requires t.columns == [DateColumn, "NOME"]
    requires t.rows == [[Some(Text("31/13/2024")), Some(x)], [Some(Text("01/02/2023")), Some(y)]]
    ensures Clean(t) == Table(t.columns, [[Some(Timestamp(Date(1, 2, 2023))), Some(y)]])
  {
    CoerceScenarioCells();
    CleanTwoRows(t, Some(Timestamp(Date(1, 2, 2023))));
  }

  /** Two rows with the date column first: when the first row's date is
      unreadable and the second's reads as `g`, only the second row remains. */
  lemma CleanTwoRows(t: Table, g: Cell)
    requires |t.columns| == 2 && t.columns[0] == DateColumn && |t.rows| == 2
    requires |t.rows[0]| == 2 && |t.rows[1]| == 2
    requires CoerceDateCell(t.rows[0][0]) == None
    requires CoerceDateCell(t.rows[1][0]) == g && g.Some? && t.rows[1][1].Some?
    ensures Clean(t) == Table(t.columns, [[g, t.rows[1][1]]])
  {
    var r0, r1 := t.rows[0], t.rows[1];
    assert t.rows == [r0, r1];
    var c0, c1 := [None, r0[1]], [g, r1[1]];
    assert Strings.FirstIndex(t.columns, DateColumn) == 0;
    assert r0[0 := None] == c0;
    assert r1[0 := g] == c1;
    CoerceFirstColumnOfTwo(r0, r1);
    assert Coerce(t).rows == [c0, c1];
    assert !Complete(c0) by { assert c0[0] == None; }
    assert Complete(c1);
    ScenarioDrop(c0, c1);
  }

  lemma CoerceFirstColumnOfTwo(r0: Row, r1: Row)
    requires |r0| > 0 && |r1| > 0
    ensures CoerceColumn([r0, r1], 0) == [r0[0 := CoerceDateCell(r0[0])], r1[0 := CoerceDateCell(r1[0])]]
  {
  }

  lemma CoerceScenarioCells()
    ensures CoerceDateCell(Some(Text("31/13/2024"))) == None
    ensures CoerceDateCell(Some(Text("01/02/2023"))) == Some(Timestamp(Date(1, 2, 2023)))
  {
    ParseDateMonthThirteen();
    ParseDateFirstFebruary();
  }

  lemma ScenarioDrop(c0: Row, c1: Row)
    requires !Complete(c0) && Complete(c1)
    ensures DropIncomplete([c0, c1]) == [c1]
  {
    assert [c0, c1][..1] == [c0];
    assert [c0][..0] == [];
    assert DropIncomplete([c0]) == [];
  }

  /** A data frame whose `DATA` column `clean_data` rewrites in place. */
  class FrameObject {
    var columns: seq<string>
    var rows: seq<Row>

    constructor (t: Table)
      ensures columns == t.columns && rows == t.rows
    {
      columns := t.columns;
      rows := t.rows;
    }

    function AsTable(): Table
      reads this
    {
      Table(columns, rows)
    }
  }

  /** `clean_data(df)`: line 11 assigns the coerced column into the caller's
      frame, line 13 returns a new, filtered frame. A `fault` is taken to be raised
      by the conversion, before the assignment. */
  method CleanData(df: FrameObject, fault: bool) returns (r: Table)
    modifies df
    ensures df.AsTable() == if fault then old(df.AsTable()) else Coerce(old(df.AsTable()))
    ensures r == CleanResult(old(df.AsTable()), fault)
  {
    if fault {
      return EmptyFrame;
    }
    if DateColumn in df.columns {
      df.rows := CoerceColumn(df.rows, Strings.FirstIndex(df.columns, DateColumn));
    }
    r := Table(df.columns, DropIncomplete(df.rows));
  }
}
