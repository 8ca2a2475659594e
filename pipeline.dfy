/** The driver `main`: clear the Oracle table, fetch the specialities, write
    them to one spreadsheet tab, read another tab back, clean it, and insert its
    rows one at a time. Every collaborator is an outcome given in advance; the
    run yields the exit code and the calls made, in order. */
module Pipeline {
  import opened Wrappers
  import opened Tables
  import opened DataProcessing
  import Connector

  const OracleTable := "DADOS_RELA_VISITAS_MEDICOS"
  const Query := "\nSELECT\n    DESCRICAO\nFROM\n    ESPECIALIDADE_MEDICA\nORDER BY\n    1\n"
  const WriteTab := "ESPECIALIDADES"
  const ReadTab := "BASE"

  /** What each collaborator does when called: whether `clear_data` returns, the
      frame `fetch_data` returns (None: it raises), the `MEDIC_VISIT` variable,
      whether `write_sheet` returns, the frame `read_sheet` returns (None: it
      raises or exits), whether `clean_data` fails internally, and the index of
      the first `insert_data` call that raises, if any. */
  datatype Collaborators = Collaborators(
    clearOk: bool,
    fetched: Option<Table>,
    sheetUrl: Option<string>,
    writeOk: bool,
    sheetData: Option<Table>,
    cleanFault: bool,
    insertFailsAt: Option<nat>)

  /** A call `main` makes, with the arguments it passes. */
  datatype Call =
    | ClearCall(table: string)
    | FetchCall(query: string)
    | WriteCall(url: string, tab: string, data: Table)
    | ReadCall(url: string, tab: string)
    | CleanCall(data: Table)
    | InsertCall(table: string, row: Data)

  /** The process exit code and the calls made. */
  datatype RunResult = RunResult(code: int, calls: seq<Call>)

  /** `if not google_sheet_url`: unset or empty. */
  predicate UrlMissing(url: Option<string>) {
    url.None? || url.value == ""
  }

  /** `cleaned_data.iloc[i, :]`: row i as a Series indexed by the column names. */
  function RowOf(t: Table, i: nat): Data
    requires i < |t.rows|
  {
    Series(t.columns, t.rows[i])
  }

  /** The first m calls of the insert loop. */
  function InsertCalls(t: Table, m: nat): (cs: seq<Call>)
    requires m <= |t.rows|
    ensures |cs| == m
    ensures forall i :: 0 <= i < m ==> cs[i] == InsertCall(OracleTable, RowOf(t, i))
  {
    seq(m, i requires 0 <= i < m => InsertCall(OracleTable, RowOf(t, i)))
  }

  /** Whether one of the n insert calls raises. */
  predicate InsertFails(failsAt: Option<nat>, n: nat) {
    failsAt.Some? && failsAt.value < n
  }

  /** How many insert calls the loop makes over n rows: up to and including the
      first that raises. */
  function InsertsMade(failsAt: Option<nat>, n: nat): (m: nat)
    ensures m <= n
  {
    if InsertFails(failsAt, n) then failsAt.value + 1 else n
  }

  /** `main()` as a function of the collaborators' outcomes. */
  function PipelineRun(env: Collaborators): RunResult
  {
    var c0 := [ClearCall(OracleTable)];
    if !env.clearOk then RunResult(1, c0)
    else
      var c1 := c0 + [FetchCall(Query)];
      if env.fetched.None? || IsEmpty(env.fetched.value) || UrlMissing(env.sheetUrl) then RunResult(1, c1)
      else
        var url := env.sheetUrl.value;
        var c2 := c1 + [WriteCall(url, WriteTab, env.fetched.value)];
        if !env.writeOk then RunResult(1, c2)
        else
          var c3 := c2 + [ReadCall(url, ReadTab)];
          if env.sheetData.None? || IsEmpty(env.sheetData.value) then RunResult(1, c3)
          else
            var c4 := c3 + [CleanCall(env.sheetData.value)];
            var cleaned := CleanResult(env.sheetData.value, env.cleanFault);
            if IsEmpty(cleaned) then RunResult(1, c4)
            else
              var n := |cleaned.rows|;
              RunResult(if InsertFails(env.insertFailsAt, n) then 1 else 0,
                        c4 + InsertCalls(cleaned, InsertsMade(env.insertFailsAt, n)))
  }

  /** `main()`, stage by stage. The read frame is handed to `clean_data`,
      which rewrites its DATA column in place. */
  method Run(env: Collaborators) returns (code: int, calls: seq<Call>)
    ensures RunResult(code, calls) == PipelineRun(env)
  {
    // 1. clear_data(oracle_table)
    calls := [ClearCall(OracleTable)];
    if !env.clearOk {
      return 1, calls;
    }
    // 2. fetch_data(query)
    calls := calls + [FetchCall(Query)];
    if env.fetched.None? {
      return 1, calls;
    }
    var oracleData := env.fetched.value;
    if IsEmpty(oracleData) {
      return 1, calls;
    }
    // 3. write_sheet(google_sheet_url, "ESPECIALIDADES", oracle_data)
    if UrlMissing(env.sheetUrl) {
      return 1, calls;
    }
    var url := env.sheetUrl.value;
    calls := calls + [WriteCall(url, WriteTab, oracleData)];
    if !env.writeOk {
      return 1, calls;
    }
    // 4. read_sheet(google_sheet_url, "BASE")
    calls := calls + [ReadCall(url, ReadTab)];
    if env.sheetData.None? {
      return 1, calls;
    }
    var googleData := env.sheetData.value;
    if IsEmpty(googleData) {
      return 1, calls;
    }
    // 5. clean_data(google_data)
    calls := calls + [CleanCall(googleData)];
    var frame := new FrameObject(googleData);
    var cleaned := CleanData(frame, env.cleanFault);
    if IsEmpty(cleaned) {
      return 1, calls;
    }
    // 6. for _ in range(len(cleaned_data)): insert_data(oracle_table, cleaned_data.iloc[_, :])
    ghost var before := calls;
    var i := 0;
    while i < |cleaned.rows|
      invariant 0 <= i <= |cleaned.rows|
      invariant calls == before + InsertCalls(cleaned, i)
      invariant env.insertFailsAt.Some? ==> env.insertFailsAt.value >= i
    {
      calls := calls + [InsertCall(OracleTable, RowOf(cleaned, i))];
      if env.insertFailsAt == Some(i) {
        assert InsertCalls(cleaned, i + 1) == InsertCalls(cleaned, i) + [InsertCall(OracleTable, RowOf(cleaned, i))];
        return 1, calls;
      }
      assert InsertCalls(cleaned, i + 1) == InsertCalls(cleaned, i) + [InsertCall(OracleTable, RowOf(cleaned, i))];
      i := i + 1;
    }
    return 0, calls;
  }

  // ---------------------------------------------------------------------------
  // Properties of a run

  /** Which of the six stages a call belongs to. */
  function StageIndex(c: Call): nat {
    match c
    case ClearCall(_) => 0
    case FetchCall(_) => 1
    case WriteCall(_, _, _) => 2
    case ReadCall(_, _) => 3
    case CleanCall(_) => 4
    case InsertCall(_, _) => 5
  }

  /** The rows carried by the insert calls of a trace, in order. */
  function Inserted(calls: seq<Call>): seq<Data>
  {
    if calls == [] then []
    else (if calls[0].InsertCall? then [calls[0].row] else []) + Inserted(calls[1..])
  }

  lemma {:induction false} InsertedAppend(a: seq<Call>, b: seq<Call>)
    ensures Inserted(a + b) == Inserted(a) + Inserted(b)
  {
    if a == [] {
      assert a + b == b;
    } else {
      var head := if a[0].InsertCall? then [a[0].row] else [];
      assert (a + b)[0] == a[0] && (a + b)[1..] == a[1..] + b;
      InsertedAppend(a[1..], b);
      calc {
        Inserted(a + b);
        head + Inserted(a[1..] + b);
        head + (Inserted(a[1..]) + Inserted(b));
        (head + Inserted(a[1..])) + Inserted(b);
      }
    }
  }

  lemma {:induction false} InsertedOfInserts(t: Table, m: nat)
    requires m <= |t.rows|
    ensures Inserted(InsertCalls(t, m)) == seq(m, i requires 0 <= i < m => RowOf(t, i))
  {
    if m > 0 {
      assert InsertCalls(t, m) == InsertCalls(t, m - 1) + [InsertCall(OracleTable, RowOf(t, m - 1))];
      InsertedOfInserts(t, m - 1);
      InsertedAppend(InsertCalls(t, m - 1), [InsertCall(OracleTable, RowOf(t, m - 1))]);
      assert Inserted([InsertCall(OracleTable, RowOf(t, m - 1))]) == [RowOf(t, m - 1)];
    }
  }

  lemma InsertedNone(calls: seq<Call>)
    requires forall j :: 0 <= j < |calls| ==> !calls[j].InsertCall?
    ensures Inserted(calls) == []
  {
    if calls != [] {
      InsertedNone(calls[1..]);
    }
  }

  /** The frame `clean_data` returns in a run that gets that far. */
  function Cleaned(env: Collaborators): Table
    requires env.sheetData.Some?
  {
    CleanResult(env.sheetData.value, env.cleanFault)
  }

  /** Every stage before the insert loop succeeds and the cleaned frame is not empty. */
  predicate ReachesInserts(env: Collaborators) {
    env.clearOk && env.fetched.Some? && !IsEmpty(env.fetched.value) && !UrlMissing(env.sheetUrl) &&
    env.writeOk && env.sheetData.Some? && !IsEmpty(env.sheetData.value) && !IsEmpty(Cleaned(env))
  }

  /** The stages run in order, clear, fetch, write, read, clean, then the inserts:
      call i belongs to stage i for the first five and every later call is an insert. */
  lemma StageOrder(env: Collaborators)
    ensures var r := PipelineRun(env);
      |r.calls| >= 1 &&
      forall i :: 0 <= i < |r.calls| ==> StageIndex(r.calls[i]) == if i < 5 then i else 5
  {
    var r := PipelineRun(env);
    if ReachesInserts(env) {
      var n := |Cleaned(env).rows|;
      var pre := r.calls[..5];
      assert r.calls == pre + InsertCalls(Cleaned(env), InsertsMade(env.insertFailsAt, n));
    }
  }

  /** The tab names and arguments: the fetch runs `query`, the write goes to tab
      ESPECIALIDADES with the fetched frame, the read comes from tab BASE at the
      same URL, the clean gets the frame read, and every insert targets
      `oracle_table`. */
  lemma CallArguments(env: Collaborators)
    ensures var r := PipelineRun(env);
      r.calls[0] == ClearCall(OracleTable) &&
      forall c :: c in r.calls ==>
        (c.FetchCall? ==> c.query == Query) &&
        (c.WriteCall? ==> c.tab == WriteTab && Some(c.url) == env.sheetUrl && Some(c.data) == env.fetched) &&
        (c.ReadCall? ==> c.tab == ReadTab && Some(c.url) == env.sheetUrl) &&
        (c.CleanCall? ==> Some(c.data) == env.sheetData) &&
        (c.InsertCall? ==> c.table == OracleTable)
  {
    StageOrder(env);
  }

  /** `write_sheet` is always handed a non-empty frame, so its own early return
      for empty data is never taken from `main`. */
  lemma WriteNeverEmpty(env: Collaborators)
    ensures forall c :: c in PipelineRun(env).calls && c.WriteCall? ==> !IsEmpty(c.data)
  {
  }

  /** A failed clear stops the run with exit code 1 before the fetch. */
  lemma ClearFailureStops(env: Collaborators)
    requires !env.clearOk
    ensures PipelineRun(env) == RunResult(1, [ClearCall(OracleTable)])
  {
  }

  /** A fetch that raises or returns no rows, or a missing `MEDIC_VISIT`, exits
      with 1 and writes nothing to the spreadsheet. */
  lemma NoWriteWithoutData(env: Collaborators)
    requires env.clearOk
    requires env.fetched.None? || IsEmpty(env.fetched.value) || UrlMissing(env.sheetUrl)
    ensures var r := PipelineRun(env);
      r.code == 1 && forall c :: c in r.calls ==> !c.WriteCall? && !c.ReadCall?
  {
  }

  /** A read that fails or yields an empty frame, or a cleaning that leaves none,
      exits with 1 and inserts nothing. */
  lemma NoInsertWithoutRows(env: Collaborators)
    requires env.clearOk && env.fetched.Some? && !IsEmpty(env.fetched.value) && !UrlMissing(env.sheetUrl) && env.writeOk
    requires env.sheetData.None? || IsEmpty(env.sheetData.value) || IsEmpty(Cleaned(env))
    ensures var r := PipelineRun(env);
      r.code == 1 && Inserted(r.calls) == [] && forall c :: c in r.calls ==> !c.InsertCall?
  {
    var r := PipelineRun(env);
    StageOrder(env);
    InsertedNone(r.calls);
  }

  /** The exit code is 0 exactly when every stage succeeds and no insert raises,
      and 1 otherwise. */
  lemma ExitCode(env: Collaborators)
    ensures var r := PipelineRun(env);
      (r.code == 0 || r.code == 1) &&
      (r.code == 0 <==> ReachesInserts(env) && !InsertFails(env.insertFailsAt, |Cleaned(env).rows|))
  {
  }

  /** On success there is exactly one insert per cleaned row, insert i carrying
      row i, and nothing after the last insert. */
  lemma SuccessInsertsEveryRow(env: Collaborators)
    requires PipelineRun(env).code == 0
    ensures ReachesInserts(env)
    ensures var r, t := PipelineRun(env), Cleaned(env);
      |r.calls| == 5 + |t.rows| &&
      (forall i :: 0 <= i < |t.rows| ==> r.calls[5 + i] == InsertCall(OracleTable, RowOf(t, i))) &&
      Inserted(r.calls) == seq(|t.rows|, i requires 0 <= i < |t.rows| => RowOf(t, i))
  {
    ExitCode(env);
    InsertFacts(env);
  }

  /** When insert k raises, inserts 0..k were made, row i in call 5 + i, none
      after, and the run exits with 1; the clear made first stays the only one. */
  lemma InsertFailureStops(env: Collaborators, k: nat)
    requires ReachesInserts(env) && env.insertFailsAt == Some(k) && k < |Cleaned(env).rows|
    ensures var r, t := PipelineRun(env), Cleaned(env);
      r.code == 1 && |r.calls| == 5 + k + 1 &&
      Inserted(r.calls) == seq(k + 1, i requires 0 <= i < k + 1 => RowOf(t, i)) &&
      r.calls[0] == ClearCall(OracleTable) &&
      forall i :: 1 <= i < |r.calls| ==> !r.calls[i].ClearCall?
  {
    InsertFacts(env);
    StageOrder(env);
  }

  lemma InsertFacts(env: Collaborators)
    requires ReachesInserts(env)
    ensures var r, t := PipelineRun(env), Cleaned(env);
      var m := InsertsMade(env.insertFailsAt, |t.rows|);
      |r.calls| == 5 + m &&
      (forall i :: 5 <= i < |r.calls| ==> r.calls[i] == InsertCall(OracleTable, RowOf(t, i - 5))) &&
      Inserted(r.calls) == seq(m, i requires 0 <= i < m => RowOf(t, i))
  {
    var r, t := PipelineRun(env), Cleaned(env);
    var m := InsertsMade(env.insertFailsAt, |t.rows|);
    var pre := r.calls[..5];
    assert r.calls == pre + InsertCalls(t, m);
    assert forall j :: 0 <= j < 5 ==> !pre[j].InsertCall?;
    InsertedNone(pre);
    InsertedAppend(pre, InsertCalls(t, m));
    InsertedOfInserts(t, m);
  }

  /** What each insert hands to `to_sql`: `oracle_table` lowercased and a
      one-row frame holding that cleaned row under the cleaned columns, with no
      cell missing. */
  lemma InsertTargets(env: Collaborators)
    requires ReachesInserts(env)
    ensures var r, t := PipelineRun(env), Cleaned(env);
      forall i :: 5 <= i < |r.calls| ==>
        var c := r.calls[i];
        i - 5 < |t.rows| && c.InsertCall? && c.table == OracleTable &&
        Connector.InsertTarget(c.table, c.row) == (Connector.ToLower(c.table), Table(t.columns, [t.rows[i - 5]])) &&
        Complete(t.rows[i - 5])
  {
    var r, t := PipelineRun(env), Cleaned(env);
    InsertFacts(env);
    CleanShape(env.sheetData.value);
  }
}
