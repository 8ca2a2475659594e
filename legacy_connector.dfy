/** The legacy Oracle connector's `insert_data` and `clear_data`: the calls they
    issue on the cursor and connection, recorded as a trace of events, and what
    those calls leave committed in the destination table. */
module LegacyConnector {
  import opened Wrappers
  import opened Tables
  import opened Sql
  import opened Batching

  /** A call the connector makes on the driver. */
  datatype Event =
    | Execute(sql: string)
    | ExecuteMany(sql: string, batch: seq<Row>)
    | Commit
    | CloseCursor
    | CloseConnection

  /** Where the driver raises: opening the connection, or the execute call with
      the given index (0 for the DELETE; batch k for the k-th `executemany`). */
  datatype Fault = NoFault | ConnectFails | ExecuteFails(call: nat)

  /** Whether the call returned normally, and the driver calls it made. */
  datatype Outcome = Outcome(ok: bool, events: seq<Event>)

  const DefaultBatchSize := 500

  /** The `finally` block: the cursor and then the connection are closed. */
  const Closing := [CloseCursor, CloseConnection]

  /** One `executemany` and one `commit` per batch, in order. */
  function Pairs(sql: string, batches: seq<seq<Row>>): seq<Event>
  {
    if batches == [] then [] else [ExecuteMany(sql, batches[0]), Commit] + Pairs(sql, batches[1..])
  }

  /** The batch loop from batch index k on: stops at the first `executemany` that raises. */
  function BatchRun(sql: string, batches: seq<seq<Row>>, fault: Fault, k: nat): Outcome
    decreases |batches|
  {
    if batches == [] then Outcome(true, [])
    else if fault == ExecuteFails(k) then Outcome(false, [ExecuteMany(sql, batches[0])])
    else
      var rest := BatchRun(sql, batches[1..], fault, k + 1);
      Outcome(rest.ok, [ExecuteMany(sql, batches[0]), Commit] + rest.events)
  }

  /** `insert_data(table_name, data, batch_size)` on the legacy connector. A zero
      batch size makes `range` raise; a negative one makes the range empty. */
  function InsertRun(table: string, data: Data, batchSize: int, fault: Fault): (r: Outcome)
    ensures fault == ConnectFails ==> r == Outcome(false, [])
    ensures fault != ConnectFails ==> |r.events| >= 2 && r.events[|r.events| - 2..] == Closing
  {
    if fault == ConnectFails then Outcome(false, [])
    else
      var frame := AsFrame(data);
      var body :=
        if batchSize == 0 then Outcome(false, [])
        else if batchSize < 0 then Outcome(true, [])
        else BatchRun(InsertStatement(table, |frame.columns|), Chunks(frame.rows, batchSize), fault, 0);
      Outcome(body.ok, body.events + Closing)
  }

  /** `clear_data(table_name)` on the legacy connector. */
  function ClearRun(table: string, fault: Fault): Outcome
  {
    if fault == ConnectFails then Outcome(false, [])
    else if fault == ExecuteFails(0) then Outcome(false, [Execute(DeleteStatement(table))] + Closing)
    else Outcome(true, [Execute(DeleteStatement(table)), Commit] + Closing)
  }

  function Drop(rows: seq<Row>, i: nat): seq<Row> {
    if i <= |rows| then rows[i..] else []
  }

  /** The loop from the row offset i and batch index k on. */
  function RunFrom(sql: string, rows: seq<Row>, batchSize: nat, fault: Fault, i: nat, k: nat): Outcome
    requires batchSize > 0
  {
    BatchRun(sql, Chunks(Drop(rows, i), batchSize), fault, k)
  }

  /** One turn of the loop: the slice at offset i, then the rest from i + batch_size. */
  lemma RunFromStep(sql: string, rows: seq<Row>, batchSize: nat, fault: Fault, i: nat, k: nat)
    requires batchSize > 0 && i < |rows|
    ensures var batch, rest := rows[i..Min(i + batchSize, |rows|)], RunFrom(sql, rows, batchSize, fault, i + batchSize, k + 1);
      RunFrom(sql, rows, batchSize, fault, i, k) ==
        if fault == ExecuteFails(k) then Outcome(false, [ExecuteMany(sql, batch)])
        else Outcome(rest.ok, [ExecuteMany(sql, batch), Commit] + rest.events)
  {
    var rest := rows[i..];
    var m := Min(batchSize, |rest|);
    assert rest[..m] == rows[i..Min(i + batchSize, |rows|)];
    assert rest[m..] == Drop(rows, i + batchSize);
  }

  /** `insert_data(table_name, data, batch_size)`: the placeholder and statement
      text of lines 69-70, the row tuples of line 72, the loop of lines 75-78 and the
      `finally` block of lines 83-85, issuing the driver calls in order. `InsertRun`
      is its specification: the lemmas that relate several runs (a clear and then
      an insert, say) cannot call a method, so they are stated over the function. */
  method InsertData(table: string, data: Data, batchSize: int, fault: Fault) returns (ok: bool, events: seq<Event>)
    ensures Outcome(ok, events) == InsertRun(table, data, batchSize, fault)
  {
    if fault == ConnectFails {
      return false, [];
    }
    var frame := AsFrame(data);
    var query := InsertStatement(table, |frame.columns|);
    if batchSize > 0 {
      ok, events := SendBatches(query, frame.rows, batchSize, fault);
    } else {
      ok, events := batchSize != 0, [];
    }
    events := events + Closing;
  }

  /** `for i in range(0, total_rows, batch_size)`: one `executemany` and one
      `commit` per slice `rows[i:i + batch_size]`, stopping at the first that raises. */
  method SendBatches(query: string, rows: seq<Row>, batchSize: nat, fault: Fault) returns (ok: bool, events: seq<Event>)
    requires batchSize > 0
    ensures Outcome(ok, events) == BatchRun(query, Chunks(rows, batchSize), fault, 0)
  {
    var total := |rows|;
    events := [];
    ok := true;
    var i, k := 0, 0;
    ghost var spec := SendStart(query, rows, batchSize, fault);
    while i < total && ok
      invariant Sent(query, rows, batchSize, fault, i, k, events, spec, ok)
      decreases total - i, ok
    {
      var batch := rows[i..Min(i + batchSize, total)];
      SendStep(query, rows, batchSize, fault, i, k, events, spec);
      events := events + [ExecuteMany(query, batch)];
      if fault == ExecuteFails(k) {
        ok := false;
      } else {
        events := events + [Commit];
        i, k := i + batchSize, k + 1;
      }
    }
    SendDone(query, rows, batchSize, fault, i, k, events, spec, ok);
  }

  /** The loop invariant: while the loop runs, what has been sent followed by the
      loop from offset i and batch k is the whole run; once it stopped, what has
      been sent is. */
  predicate Sent(sql: string, rows: seq<Row>, batchSize: nat, fault: Fault, i: nat, k: nat,
                 events: seq<Event>, spec: Outcome, ok: bool)
    requires batchSize > 0
  {
    if ok then
      spec.ok == RunFrom(sql, rows, batchSize, fault, i, k).ok &&
      spec.events == events + RunFrom(sql, rows, batchSize, fault, i, k).events
    else spec == Outcome(false, events)
  }

  /** Before the first turn nothing is sent and the loop from offset 0 is the whole run. */
  lemma SendStart(sql: string, rows: seq<Row>, batchSize: nat, fault: Fault) returns (spec: Outcome)
    requires batchSize > 0
    ensures spec == BatchRun(sql, Chunks(rows, batchSize), fault, 0)
    ensures Sent(sql, rows, batchSize, fault, 0, 0, [], spec, true)
  {
    assert Drop(rows, 0) == rows;
    spec := RunFrom(sql, rows, batchSize, fault, 0, 0);
    assert [] + spec.events == spec.events;
  }

  /** One turn keeps the invariant: a failing batch ends the trace, any other is
      followed by its commit and the loop moves to the next offset. */
  lemma SendStep(sql: string, rows: seq<Row>, batchSize: nat, fault: Fault, i: nat, k: nat, events: seq<Event>, spec: Outcome)
    requires batchSize > 0 && i < |rows|
    requires Sent(sql, rows, batchSize, fault, i, k, events, spec, true)
    ensures var sent := events + [ExecuteMany(sql, rows[i..Min(i + batchSize, |rows|)])];
      if fault == ExecuteFails(k) then Sent(sql, rows, batchSize, fault, i, k, sent, spec, false)
      else Sent(sql, rows, batchSize, fault, i + batchSize, k + 1, sent + [Commit], spec, true)
  {
    RunFromStep(sql, rows, batchSize, fault, i, k);
    StepSplice(events, ExecuteMany(sql, rows[i..Min(i + batchSize, |rows|)]), fault == ExecuteFails(k),
      RunFrom(sql, rows, batchSize, fault, i, k), RunFrom(sql, rows, batchSize, fault, i + batchSize, k + 1), spec);
  }

  /** SendStep over outcomes as plain values: the turn's trace spliced after what
      was already sent. */
  lemma StepSplice(events: seq<Event>, send: Event, failing: bool, cur: Outcome, rest: Outcome, spec: Outcome)
    requires cur == if failing then Outcome(false, [send]) else Outcome(rest.ok, [send, Commit] + rest.events)
    requires spec.ok == cur.ok && spec.events == events + cur.events
    ensures if failing then spec == Outcome(false, events + [send])
      else spec.ok == rest.ok && spec.events == events + [send] + [Commit] + rest.events
  {
    if !failing {
      assert events + ([send, Commit] + rest.events) == events + [send] + [Commit] + rest.events;
    }
  }

  /** When the loop ends, past the last row or at a failure, what was sent is the run. */
  lemma SendDone(sql: string, rows: seq<Row>, batchSize: nat, fault: Fault, i: nat, k: nat,
                 events: seq<Event>, spec: Outcome, ok: bool)
    requires batchSize > 0 && (ok ==> i >= |rows|)
    requires Sent(sql, rows, batchSize, fault, i, k, events, spec, ok)
    ensures spec == Outcome(ok, events)
  {
    if ok {
      RunFromDone(sql, rows, batchSize, fault, i, k);
      assert events + [] == events;
    }
  }

  /** Past the last row, the loop sends nothing and succeeds. */
  lemma RunFromDone(sql: string, rows: seq<Row>, batchSize: nat, fault: Fault, i: nat, k: nat)
    requires batchSize > 0 && i >= |rows|
    ensures RunFrom(sql, rows, batchSize, fault, i, k) == Outcome(true, [])
  {
    assert Drop(rows, i) == [];
  }

  /** `clear_data(table_name)`, lines 87-101: one DELETE, then one commit, then
      the `finally` block, issued in order; `ClearRun` is its specification, for
      the same reason as `InsertRun`. */
  method ClearData(table: string, fault: Fault) returns (ok: bool, events: seq<Event>)
    ensures Outcome(ok, events) == ClearRun(table, fault)
  {
    if fault == ConnectFails {
      return false, [];
    }
    events := [Execute(DeleteStatement(table))];
    ok := fault != ExecuteFails(0);
    if ok {
      events := events + [Commit];
    }
    events := events + Closing;
  }

  // ---------------------------------------------------------------------------
  // Reading traces back

  /** The batches passed to `executemany`, in order. */
  function ExecutedBatches(events: seq<Event>): seq<seq<Row>>
  {
    if events == [] then []
    else (if events[0].ExecuteMany? then [events[0].batch] else []) + ExecutedBatches(events[1..])
  }

  function CommitCount(events: seq<Event>): nat
  {
    if events == [] then 0 else (if events[0] == Commit then 1 else 0) + CommitCount(events[1..])
  }

  lemma {:induction false} TraceAppend(a: seq<Event>, b: seq<Event>)
    ensures ExecutedBatches(a + b) == ExecutedBatches(a) + ExecutedBatches(b)
    ensures CommitCount(a + b) == CommitCount(a) + CommitCount(b)
  {
    if a == [] {
      assert a + b == b;
    } else {
      var head := if a[0].ExecuteMany? then [a[0].batch] else [];
      assert (a + b)[0] == a[0] && (a + b)[1..] == a[1..] + b;
      TraceAppend(a[1..], b);
      calc {
        ExecutedBatches(a + b);
        head + ExecutedBatches(a[1..] + b);
        head + (ExecutedBatches(a[1..]) + ExecutedBatches(b));
        (head + ExecutedBatches(a[1..])) + ExecutedBatches(b);
      }
    }
  }

  lemma {:induction false} PairsTrace(sql: string, batches: seq<seq<Row>>)
    ensures ExecutedBatches(Pairs(sql, batches)) == batches
    ensures CommitCount(Pairs(sql, batches)) == |batches|
  {
    if batches != [] {
      PairsTrace(sql, batches[1..]);
      TraceAppend([ExecuteMany(sql, batches[0]), Commit], Pairs(sql, batches[1..]));
    }
  }

  /** The number of batches the loop gets through before the fault, if any. */
  function Completed(fault: Fault, k: nat, n: nat): nat {
    if fault.ExecuteFails? && k <= fault.call < k + n then fault.call - k else n
  }

  /** The loop commits every batch before the failing one, attempts the failing
      one, and attempts nothing after it. */
  lemma {:induction false} BatchRunShape(sql: string, batches: seq<seq<Row>>, fault: Fault, k: nat)
    ensures var f := Completed(fault, k, |batches|);
      var o := BatchRun(sql, batches, fault, k);
      f <= |batches| &&
      (o.ok <==> f == |batches|) &&
      o.events == Pairs(sql, batches[..f]) + (if f < |batches| then [ExecuteMany(sql, batches[f])] else [])
  {
    if batches != [] {
      BatchRunShape(sql, batches[1..], fault, k + 1);
      var f := Completed(fault, k, |batches|);
      if fault != ExecuteFails(k) {
        assert f > 0;
        assert Completed(fault, k + 1, |batches| - 1) == f - 1;
        assert batches[1..][..f - 1] == batches[..f][1..];
        assert f < |batches| ==> batches[1..][f - 1] == batches[f];
      } else {
        assert batches[..0] == [];
      }
    }
  }

  /** Every row was sent in one `executemany` per slice: the slices fall in
      order and partition the rows, each holds 1..batch_size rows, and each was
      committed, ceil(rows / batch_size) commits in all. */
  predicate AllBatchesCommitted(events: seq<Event>, rows: seq<Row>, batchSize: int)
    requires batchSize > 0
  {
    ExecutedBatches(events) == Chunks(rows, batchSize) &&
    Flatten(ExecutedBatches(events)) == rows &&
    (forall b :: b in ExecutedBatches(events) ==> 0 < |b| <= batchSize) &&
    CommitCount(events) == |ExecutedBatches(events)| == (|rows| + batchSize - 1) / batchSize
  }

  /** With a positive batch size and no fault reached, the insert succeeds,
      sends and commits every row in slices, and ends with the `finally` block. */
  lemma InsertSucceeds(table: string, data: Data, batchSize: int, fault: Fault)
    requires batchSize > 0 && fault != ConnectFails
    requires fault.ExecuteFails? ==> fault.call >= |Chunks(AsFrame(data).rows, batchSize)|
    ensures var r := InsertRun(table, data, batchSize, fault);
      r.ok && AllBatchesCommitted(r.events, AsFrame(data).rows, batchSize) &&
      r.events[|r.events| - 2..] == Closing
  {
    InsertRunPositive(table, data, batchSize, fault);
    LoopSucceeds(InsertStatement(table, |AsFrame(data).columns|), AsFrame(data).rows, batchSize, fault);
  }

  /** At the default `batch_size=500` an insert with no failure commits every
      row, in ceil(rows / 500) slices of at most 500 rows. */
  lemma InsertAtDefaultBatchSize(table: string, data: Data)
    ensures var r := InsertRun(table, data, DefaultBatchSize, NoFault);
      r.ok && AllBatchesCommitted(r.events, AsFrame(data).rows, 500) &&
      CommitCount(r.events) == (|AsFrame(data).rows| + 499) / 500
  {
    InsertSucceeds(table, data, DefaultBatchSize, NoFault);
  }

  /** The batch loop and `finally` block over any statement text, when no fault is reached. */
  lemma LoopSucceeds(sql: string, rows: seq<Row>, batchSize: int, fault: Fault)
    requires batchSize > 0
    requires fault.ExecuteFails? ==> fault.call >= |Chunks(rows, batchSize)|
    ensures var o := BatchRun(sql, Chunks(rows, batchSize), fault, 0);
      o.ok && AllBatchesCommitted(o.events + Closing, rows, batchSize)
  {
    var cs := Chunks(rows, batchSize);
    BatchRunShape(sql, cs, fault, 0);
    assert Completed(fault, 0, |cs|) == |cs|;
    assert cs[..|cs|] == cs;
    assert BatchRun(sql, cs, fault, 0).events == Pairs(sql, cs);
    PairsTrace(sql, cs);
    TraceAppend(Pairs(sql, cs), Closing);
    ClosingTrace();
    FlattenChunks(rows, batchSize);
    ChunkSizes(rows, batchSize);
    ChunkCount(rows, batchSize);
  }

  /** With a reachable connection and a positive batch size, the insert is the
      batch loop over the slices of the rows followed by the `finally` block. */
  lemma InsertRunPositive(table: string, data: Data, batchSize: int, fault: Fault)
    requires batchSize > 0 && fault != ConnectFails
    ensures var o := BatchRun(InsertStatement(table, |AsFrame(data).columns|), Chunks(AsFrame(data).rows, batchSize), fault, 0);
      InsertRun(table, data, batchSize, fault) == Outcome(o.ok, o.events + Closing)
  {
  }

  /** When `executemany` of batch k raises, batches 0..k-1 were sent and
      committed, batch k was attempted and not committed, and no later batch was
      attempted; the call fails. */
  lemma InsertFailsAt(table: string, data: Data, batchSize: int, k: nat)
    requires batchSize > 0 && k < |Chunks(AsFrame(data).rows, batchSize)|
    ensures var r := InsertRun(table, data, batchSize, ExecuteFails(k));
      !r.ok && StoppedAt(r.events, Chunks(AsFrame(data).rows, batchSize), k) &&
      r.events[|r.events| - 2..] == Closing
  {
    InsertRunPositive(table, data, batchSize, ExecuteFails(k));
    LoopFailsAt(InsertStatement(table, |AsFrame(data).columns|), Chunks(AsFrame(data).rows, batchSize), k);
  }

  /** Batches 0..k were attempted, in order, and only 0..k-1 were committed. */
  predicate StoppedAt(events: seq<Event>, batches: seq<seq<Row>>, k: nat)
    requires k < |batches|
  {
    ExecutedBatches(events) == batches[..k + 1] && CommitCount(events) == k
  }

  /** The batch loop and `finally` block over any statement text, when call k raises. */
  lemma LoopFailsAt(sql: string, cs: seq<seq<Row>>, k: nat)
    requires k < |cs|
    ensures var o := BatchRun(sql, cs, ExecuteFails(k), 0);
      !o.ok && StoppedAt(o.events + Closing, cs, k)
  {
    var o := BatchRun(sql, cs, ExecuteFails(k), 0);
    var pairs, failing := Pairs(sql, cs[..k]), [ExecuteMany(sql, cs[k])];
    BatchRunShape(sql, cs, ExecuteFails(k), 0);
    assert Completed(ExecuteFails(k), 0, |cs|) == k;
    assert o.events == pairs + failing;
    PairsTrace(sql, cs[..k]);
    TraceAppend(pairs, failing);
    TraceAppend(pairs + failing, Closing);
    assert ExecutedBatches(failing) == [cs[k]] && CommitCount(failing) == 0;
    ClosingTrace();
    assert cs[..k] + [cs[k]] == cs[..k + 1];
  }

  /** No rows means no `executemany` and no commit; a zero batch size fails and
      a negative one sends nothing, both before any driver call but the closing ones. */
  lemma InsertNothingSent(table: string, data: Data, batchSize: int, fault: Fault)
    requires fault != ConnectFails
    requires |AsFrame(data).rows| == 0 || batchSize <= 0
    ensures var r := InsertRun(table, data, batchSize, fault);
      r.events == Closing && ExecutedBatches(r.events) == [] && CommitCount(r.events) == 0 &&
      (r.ok <==> batchSize != 0)
  {
    var rows := AsFrame(data).rows;
    if batchSize > 0 {
      assert Chunks(rows, batchSize) == [];
      assert BatchRun(InsertStatement(table, |AsFrame(data).columns|), [], fault, 0) == Outcome(true, []);
    }
    assert [] + Closing == Closing;
    ClosingTrace();
  }

  /** The `finally` block executes nothing and commits nothing. */
  lemma ClosingTrace()
    ensures ExecutedBatches(Closing) == [] && CommitCount(Closing) == 0
  {
    assert Closing[1..][1..] == [];
  }

  // ---------------------------------------------------------------------------
  // What a trace leaves in the destination table

  /** The rows of one table: those committed, those sent in the open transaction,
      and whether the open transaction deletes everything first. */
  datatype TxState = TxState(committed: seq<Row>, pending: seq<Row>, clearPending: bool)

  predicate Idle(st: TxState) {
    st.pending == [] && !st.clearPending
  }

  /** One driver call's effect on `table`; closing the connection rolls back
      what was not committed. */
  function Step(table: string, st: TxState, e: Event): TxState
  {
    match e
    case Execute(sql) =>
      if ParseStatement(sql) == Some(Delete(table)) then TxState(st.committed, [], true) else st
    case ExecuteMany(sql, batch) =>
      (match ParseStatement(sql)
       case Some(Insert(t, _)) => if t == table then st.(pending := st.pending + batch) else st
       case _ => st)
    case Commit => TxState((if st.clearPending then [] else st.committed) + st.pending, [], false)
    case CloseCursor => st
    case CloseConnection => TxState(st.committed, [], false)
  }

  function Replay(table: string, st: TxState, events: seq<Event>): TxState
    decreases |events|
  {
    if events == [] then st else Replay(table, Step(table, st, events[0]), events[1..])
  }

  lemma {:induction false} ReplayAppend(table: string, st: TxState, a: seq<Event>, b: seq<Event>)
    ensures Replay(table, st, a + b) == Replay(table, Replay(table, st, a), b)
    decreases |a|
  {
    if a == [] {
      assert a + b == b;
    } else {
      assert (a + b)[1..] == a[1..] + b;
      ReplayAppend(table, Step(table, st, a[0]), a[1..], b);
    }
  }

  /** Statement text that the driver reads as an INSERT into `table`. */
  predicate InsertsInto(sql: string, table: string) {
    var p := ParseStatement(sql);
    p.Some? && p.value.Insert? && p.value.table == table
  }

  lemma {:induction false} ReplayPairs(table: string, sql: string, batches: seq<seq<Row>>, st: TxState)
    requires InsertsInto(sql, table) && Idle(st)
    ensures Replay(table, st, Pairs(sql, batches)) == TxState(st.committed + Flatten(batches), [], false)
  {
    if batches == [] {
      assert st.committed + Flatten(batches) == st.committed;
    } else {
      var pair, rest := [ExecuteMany(sql, batches[0]), Commit], Pairs(sql, batches[1..]);
      var next := TxState(st.committed + batches[0], [], false);
      calc {
        Replay(table, st, Pairs(sql, batches));
        Replay(table, st, pair + rest);
        { ReplayAppend(table, st, pair, rest); }
        Replay(table, Replay(table, st, pair), rest);
        { ReplayPair(table, sql, batches[0], st); }
        Replay(table, next, rest);
        { ReplayPairs(table, sql, batches[1..], next); }
        TxState(next.committed + Flatten(batches[1..]), [], false);
        { assert next.committed + Flatten(batches[1..]) == st.committed + Flatten(batches); }
        TxState(st.committed + Flatten(batches), [], false);
      }
    }
  }

  /** One `executemany` and its commit append the batch to what is committed. */
  lemma ReplayPair(table: string, sql: string, batch: seq<Row>, st: TxState)
    requires InsertsInto(sql, table) && Idle(st)
    ensures Replay(table, st, [ExecuteMany(sql, batch), Commit]) == TxState(st.committed + batch, [], false)
  {
    var sent := Step(table, st, ExecuteMany(sql, batch));
    assert sent == TxState(st.committed, batch, false);
    assert [ExecuteMany(sql, batch), Commit][1..] == [Commit];
    assert [Commit][1..] == [];
  }

  /** What `insert_data` leaves in its table: all the rows appended when it
      succeeds; when batch k fails, exactly the rows of the batches before it,
      the first k*batch_size rows. Nothing is left uncommitted. */
  lemma InsertCommits(table: string, data: Data, batchSize: int, fault: Fault, st: TxState)
    requires ' ' !in table && Idle(st) && batchSize > 0 && fault != ConnectFails
    ensures var r, rows := InsertRun(table, data, batchSize, fault), AsFrame(data).rows;
      var k := Completed(fault, 0, |Chunks(rows, batchSize)|);
      Replay(table, st, r.events) ==
        TxState(st.committed + (if r.ok then rows else rows[..RowsBefore(|rows|, batchSize, k)]), [], false)
  {
    var sql := InsertStatement(table, |AsFrame(data).columns|);
    ParseInsertStatement(table, |AsFrame(data).columns|);
    InsertRunPositive(table, data, batchSize, fault);
    LoopCommits(table, sql, AsFrame(data).rows, batchSize, fault, st);
  }

  /** The batch loop and `finally` block over any INSERT text into `table`. */
  lemma LoopCommits(table: string, sql: string, rows: seq<Row>, batchSize: int, fault: Fault, st: TxState)
    requires InsertsInto(sql, table) && Idle(st) && batchSize > 0
    ensures var o := BatchRun(sql, Chunks(rows, batchSize), fault, 0);
      var k := Completed(fault, 0, |Chunks(rows, batchSize)|);
      Replay(table, st, o.events + Closing) ==
        TxState(st.committed + (if o.ok then rows else rows[..RowsBefore(|rows|, batchSize, k)]), [], false)
  {
    var cs := Chunks(rows, batchSize);
    var k := Completed(fault, 0, |cs|);
    var o := BatchRun(sql, cs, fault, 0);
    BatchRunShape(sql, cs, fault, 0);
    var tail := (if k < |cs| then [ExecuteMany(sql, cs[k])] else []) + Closing;
    assert o.events + Closing == Pairs(sql, cs[..k]) + tail;
    ReplayAppend(table, st, Pairs(sql, cs[..k]), tail);
    ReplayPairs(table, sql, cs[..k], st);
    var mid := TxState(st.committed + Flatten(cs[..k]), [], false);
    ReplayRollsBack(table, sql, if k < |cs| then [cs[k]] else [], mid);
    assert Replay(table, st, o.events + Closing) == mid;
    FlattenChunksPrefix(rows, batchSize, k);
    if o.ok {
      FlattenChunks(rows, batchSize);
      assert cs[..k] == cs;
    }
  }

  /** Batches sent after the last commit, then the `finally` block: closing the
      connection rolls them back, and what was committed stays. */
  lemma {:induction false} ReplayRollsBack(table: string, sql: string, batches: seq<seq<Row>>, st: TxState)
    requires InsertsInto(sql, table) && !st.clearPending && |batches| <= 1
    ensures var sent := if batches == [] then [] else [ExecuteMany(sql, batches[0])];
      Replay(table, st, sent + Closing) == TxState(st.committed, [], false)
  {
    assert Closing[1..] == [CloseConnection] && [CloseConnection][1..] == [];
    if batches != [] {
      var e := ExecuteMany(sql, batches[0]);
      assert ([e] + Closing)[1..] == Closing;
      assert Step(table, st, e).committed == st.committed && !Step(table, st, e).clearPending;
    } else {
      assert [] + Closing == Closing;
    }
  }

  /** `clear_data` sends one DELETE and exactly one commit; on success the table
      is empty, whatever it held. */
  lemma ClearEmpties(table: string, fault: Fault, st: TxState)
    ensures var r := ClearRun(table, fault);
      (r.ok <==> fault != ConnectFails && fault != ExecuteFails(0)) &&
      (fault != ConnectFails ==> r.events[0] == Execute(DeleteStatement(table))) &&
      CommitCount(r.events) == (if r.ok then 1 else 0) &&
      (r.ok ==> Replay(table, st, r.events) == TxState([], [], false))
  {
    ParseDeleteStatement(table);
    var r := ClearRun(table, fault);
    var del := Execute(DeleteStatement(table));
    if fault != ConnectFails {
      var tail := (if r.ok then [Commit] else []) + Closing;
      assert r.events == [del] + tail;
      TraceAppend([del], tail);
      TraceAppend(if r.ok then [Commit] else [], Closing);
      ClosingTrace();
      assert CommitCount([del]) == 0;
      if r.ok {
        assert CommitCount([Commit]) == 1;
        ReplayAppend(table, st, [del], [Commit] + Closing);
        ReplayAppend(table, Step(table, st, del), [Commit], Closing);
        var cleared := TxState(st.committed, [], true);
        assert Replay(table, st, [del]) == cleared;
        assert Replay(table, cleared, [Commit]) == TxState([], [], false);
        assert Replay(table, TxState([], [], false), Closing) == TxState([], [], false);
      }
    }
  }

  /** A successful clear followed by a successful insert leaves the table
      holding exactly the inserted rows, whatever it held before. */
  lemma ClearThenInsert(table: string, data: Data, batchSize: int, st: TxState)
    requires ' ' !in table && batchSize > 0
    ensures var c, i := ClearRun(table, NoFault), InsertRun(table, data, batchSize, NoFault);
      c.ok && i.ok && Replay(table, st, c.events + i.events) == TxState(AsFrame(data).rows, [], false)
  {
    var c, i := ClearRun(table, NoFault), InsertRun(table, data, batchSize, NoFault);
    ClearEmpties(table, NoFault, st);
    ReplayAppend(table, st, c.events, i.events);
    InsertSucceeds(table, data, batchSize, NoFault);
    InsertCommits(table, data, batchSize, NoFault, TxState([], [], false));
  }
}
