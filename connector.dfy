/** The two pieces of local logic in the SQLAlchemy-based connector that the
    driver calls: the table name is lowercased, and a Series is turned into a
    one-row frame, before the rows are handed to pandas' `to_sql`. */
module Connector {
  import opened Tables

  predicate IsUpper(c: char) {
    'A' <= c <= 'Z'
  }

  /** `str.lower()` on one character, for the ASCII letters. */
  function LowerChar(c: char): (l: char)
    ensures IsUpper(c) ==> l as int == c as int + 32
    ensures !IsUpper(c) ==> l == c
    ensures !IsUpper(l)
  {
    if IsUpper(c) then (c as int + 32) as char else c
  }

  /** `table_name.lower()`, for ASCII text. */
  function ToLower(s: string): (r: string)
    ensures |r| == |s|
    ensures forall i :: 0 <= i < |s| ==> r[i] == LowerChar(s[i])
  {
    if s == [] then [] else [LowerChar(s[0])] + ToLower(s[1..])
  }

  /** Lowercasing keeps the length, leaves no capital, changes only capitals, and
      a lowercased name is its own lowercase. */
  lemma ToLowerProperties(s: string)
    ensures |ToLower(s)| == |s|
    ensures forall i :: 0 <= i < |s| ==> !IsUpper(ToLower(s)[i])
    ensures forall i :: 0 <= i < |s| && !IsUpper(s[i]) ==> ToLower(s)[i] == s[i]
    ensures ToLower(ToLower(s)) == ToLower(s)
  {
    var l := ToLower(s);
    assert forall i :: 0 <= i < |l| ==> ToLower(l)[i] == l[i];
  }

  /** The destination table and rows passed to `to_sql` by `insert_data(table_name,
      data)`: the lowercased name, and the frame, a Series becoming one row. */
  function InsertTarget(table: string, data: Data): (target: (string, Table))
    ensures target.0 == ToLower(table)
    ensures data.Series? ==> target.1 == Table(data.index, [data.values])
    ensures data.Frame? ==> target.1 == data.table
  {
    (ToLower(table), AsFrame(data))
  }
}
