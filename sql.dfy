/** The SQL text the legacy connector builds: positional placeholders, the
    INSERT and DELETE statements, and a reader for them that serves as their inverse. */
module Sql {
  import opened Wrappers
  import opened Strings

  /** One positional bind marker, `:i`. */
  function Marker(i: nat): string {
    ":" + NatToString(i)
  }

  function Markers(ns: seq<nat>): (ms: seq<string>)
    ensures |ms| == |ns|
  {
    if ns == [] then [] else [Marker(ns[0])] + Markers(ns[1..])
  }

  /** The column positions 1..n, as `i+1 for i in range(n)` gives them. */
  function Positions(n: nat): (ps: seq<nat>)
    ensures |ps| == n && forall i :: 0 <= i < n ==> ps[i] == i + 1
  {
    seq(n, i => i + 1)
  }

  /** `', '.join([':' + str(i+1) for i in range(n)])`. */
  function Placeholders(n: nat): string {
    Join(Markers(Positions(n)), ", ")
  }

  /** `INSERT INTO <table> VALUES (<placeholders>)`, the table name verbatim. */
  function InsertStatement(table: string, arity: nat): string {
    InsertPrefix + table + ValuesKeyword + Placeholders(arity) + ")"
  }

  /** `DELETE FROM <table>`, the table name verbatim. */
  function DeleteStatement(table: string): string {
    DeletePrefix + table
  }

  /** Reads a non-empty list of markers `:n1, :n2, ...` back into its numbers. */
  function ParseMarkers(s: string): Option<seq<nat>>
    decreases |s|
  {
    if s == [] || s[0] != ':' then None
    else
      var k := DigitRun(s[1..]);
      if k == 0 then None
      else
        var n := DecimalValue(s[1..][..k]);
        var rest := s[1 + k..];
        if rest == [] then Some([n])
        else if |rest| >= 2 && rest[0] == ',' && rest[1] == ' ' then
          match ParseMarkers(rest[2..])
          case Some(ns) => Some([n] + ns)
          case None => None
        else None
  }

  /** Joining markers with ", " loses nothing: the numbers read back in order. */
  lemma {:induction false} ParseJoinedMarkers(ns: seq<nat>)
    requires |ns| > 0
    ensures ParseMarkers(Join(Markers(ns), ", ")) == Some(ns)
  {
    if |ns| == 1 {
      ParseLastMarker(ns[0], Join(Markers(ns), ", "));
      assert [ns[0]] == ns;
    } else {
      ParseJoinedMarkers(ns[1..]);
      JoinMarkersCons(ns);
      ParseMarkerThen(ns[0], Join(Markers(ns[1..]), ", "), ns[1..], Join(Markers(ns), ", "));
      assert [ns[0]] + ns[1..] == ns;
    }
  }

  lemma JoinMarkersCons(ns: seq<nat>)
    requires |ns| > 1
    ensures Join(Markers(ns), ", ") == Marker(ns[0]) + (", " + Join(Markers(ns[1..]), ", "))
  {
    var ms := Markers(ns);
    assert ms[0] == Marker(ns[0]) && ms[1..] == Markers(ns[1..]);
  }

  /** A marker alone reads back as its number. */
  lemma ParseLastMarker(n: nat, s: string)
    requires s == Join(Markers([n]), ", ")
    ensures ParseMarkers(s) == Some([n])
  {
    assert Markers([n]) == [Marker(n)];
    assert s == Marker(n) + "";
    MarkerSplits(NatToString(n), "");
  }

  /** A marker, `, ` and a readable list read back as the marker's number first. */
  lemma ParseMarkerThen(n: nat, tail: string, ns: seq<nat>, s: string)
    requires ParseMarkers(tail) == Some(ns)
    requires s == Marker(n) + (", " + tail)
    ensures ParseMarkers(s) == Some([n] + ns)
  {
    var rest := ", " + tail;
    MarkerSplits(NatToString(n), rest);
    assert rest[2..] == tail;
  }

  /** Where the reader splits `:<digits><rest>` when `rest` does not start with a digit. */
  lemma MarkerSplits(d: string, rest: string)
    requires |d| >= 1 && AllDigits(d)
    requires rest == [] || rest[0] == ','
    ensures var s := ":" + d + rest;
      s[0] == ':' && s[1..] == d + rest && DigitRun(s[1..]) == |d| &&
      s[1..][..|d|] == d && s[1 + |d|..] == rest
  {
    var s := ":" + d + rest;
    assert s[1..] == d + rest;
    DigitRunOfDigits(d, rest);
  }

  /** The placeholder list for n columns is empty for none and otherwise lists
      exactly the positions 1..n, in order. */
  lemma PlaceholdersRoundTrip(n: nat)
    ensures n == 0 <==> Placeholders(n) == ""
    ensures n > 0 ==> ParseMarkers(Placeholders(n)) == Some(Positions(n))
  {
    if n > 0 {
      ParseJoinedMarkers(Positions(n));
      assert Placeholders(n)[0] == ':';
    }
  }

  datatype Statement = Insert(table: string, arity: nat) | Delete(table: string)

  const InsertPrefix := "INSERT INTO "
  const DeletePrefix := "DELETE FROM "
  const ValuesKeyword := " VALUES ("

  /** Reads the two statement forms the connector sends. */
  function ParseStatement(s: string): Option<Statement>
  {
    if |s| >= |InsertPrefix| && s[..|InsertPrefix|] == InsertPrefix then ParseInsertTail(s[|InsertPrefix|..])
    else if |s| >= |DeletePrefix| && s[..|DeletePrefix|] == DeletePrefix then Some(Delete(s[|DeletePrefix|..]))
    else None
  }

  lemma Prefix(p: string, x: string)
    ensures (p + x)[..|p|] == p && (p + x)[|p|..] == x
  {
  }

  /** `<table> VALUES (<markers>)`, the markers being exactly 1..n. */
  function ParseInsertTail(s: string): Option<Statement>
  {
    if ' ' !in s then None
    else
      var i := FirstIndex(s, ' ');
      var tail := s[i..];
      if |tail| > |ValuesKeyword| && tail[..|ValuesKeyword|] == ValuesKeyword && tail[|tail| - 1] == ')' then
        var inner := tail[|ValuesKeyword|..|tail| - 1];
        if inner == "" then Some(Insert(s[..i], 0))
        else match ParseMarkers(inner)
          case Some(ns) => if ns == Positions(|ns|) then Some(Insert(s[..i], |ns|)) else None
          case None => None
      else None
  }

  /** An INSERT statement names its table verbatim and its arity (given a table
      name without spaces, as SQL identifiers are). */
  lemma ParseInsertStatement(table: string, arity: nat)
    requires ' ' !in table
    ensures ParseStatement(InsertStatement(table, arity)) == Some(Insert(table, arity))
  {
    var p := Placeholders(arity);
    var rest := table + (ValuesKeyword + (p + ")"));
    assert InsertStatement(table, arity) == InsertPrefix + rest;
    Prefix(InsertPrefix, rest);
    PlaceholdersRoundTrip(arity);
    ParseInsertTailOf(table, p, arity);
  }

  lemma ParseInsertTailOf(table: string, p: string, n: nat)
    requires ' ' !in table
    requires (p == "" && n == 0) || (n > 0 && p != "" && ParseMarkers(p) == Some(Positions(n)))
    ensures ParseInsertTail(table + (ValuesKeyword + (p + ")"))) == Some(Insert(table, n))
  {
    var tail := ValuesKeyword + (p + ")");
    var rest := table + tail;
    assert rest[|table|] == ' ';
    var i := FirstIndex(rest, ' ');
    assert i == |table|;
    assert rest[..i] == table && rest[i..] == tail;
    Prefix(ValuesKeyword, p + ")");
    assert tail[|ValuesKeyword|..|tail| - 1] == p;
  }

  /** A DELETE statement names its table verbatim. */
  lemma ParseDeleteStatement(table: string)
    ensures ParseStatement(DeleteStatement(table)) == Some(Delete(table))
  {
    var s := DeleteStatement(table);
    Prefix(DeletePrefix, table);
    assert s[0] == 'D' && InsertPrefix[0] == 'I';
  }
}
