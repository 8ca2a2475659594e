# Oracle / Google Sheets ETL — a verified model

The repository is a small ETL job with these steps:

- It empties an Oracle table.
- It reads a list of medical specialities from Oracle.
- It writes that list to the `ESPECIALIDADES` tab of a spreadsheet.
- It reads the spreadsheet's `BASE` tab back.
- It cleans those rows: the `DATA` column becomes dates and incomplete rows are dropped.
- It inserts the cleaned rows into Oracle, one row per call.

This Dafny project models the three parts of the job that hold logic of their own, and proves what each one promises.

* **Row cleaning** (`clean_data`): modules `Dates`, `Tables` and `DataProcessing`.
  - A table is an ordered column list plus rows of optional cells. A missing cell is `None`.
  - `CoerceDateCell` reads a `DATA` cell written `day/month/year` into a Gregorian date, or makes it missing.
  - `DropIncomplete` keeps the complete rows, in order.
  - `DataProcessing.CleanData` is a method over a mutable `FrameObject`. It rewrites the `DATA` column in the caller's frame, as line 11 of the source does. It then returns a new, filtered table.
* **Legacy batched insert** (`insert_data` / `clear_data` of the cx_Oracle connector): modules `Strings`, `Sql`, `Batching` and `LegacyConnector`.
  - The placeholder list and the INSERT and DELETE texts come with a reader that inverts them.
  - The rows are split into slices of `batch_size`, stepping by `batch_size`.
  - `SendBatches` runs the send loop and records a trace of driver events: `executemany`, `commit`, cursor and connection `close`.
  - `Replay` gives the trace a transactional meaning. Work since the last commit is lost when the connection closes.
  - A driver failure is a parameter: the connection fails, or the k-th execute call fails.
* **Pipeline driver** (`main`): module `Pipeline`, with the SQLAlchemy connector's lowercasing helper in `Connector`.
  - Every collaborator is an outcome fixed in advance (`Collaborators`).
  - `Pipeline.Run` runs the six stages in order. It exits with 1 at the first failure and records the calls made, with their arguments.
  - `PipelineRun` is the same run stated as a function, and `Run` is proved equal to it.

`main.py` imports the SQLAlchemy-based connector `mods/oracle_connector.py`, not the legacy one. The driver therefore models `insert_data` and `clear_data` as opaque outcomes. It states what each insert call hands to pandas' `to_sql`: the lowercased table name (`mods/oracle_connector.py:66`) and a one-row frame. The legacy connector, by contrast, uses the table name verbatim in its SQL text (`mods/oracle_connector_old.py:70`).

## Model

| member | source | states |
|---|---|---|
| Dates.DaysInMonth | mods/data_processing.py:11 | month lengths of the Gregorian calendar: 31 exactly for months 1, 3, 5, 7, 8, 10 and 12; 30 exactly for 4, 6, 9 and 11; 29 exactly for February of a leap year; 28 exactly for February of any other year |
| Dates.ParseDate | mods/data_processing.py:11 | a date read with format `%d/%m/%Y` is always an existing calendar day |
| Dates.ParseDateSpelled | mods/data_processing.py:11 | a text is read as date d if and only if it is literally a one- or two-digit day, '/', a one- or two-digit month, '/', and a four-digit year whose values name the existing day d |
| Dates.ParseFormatDate | mods/data_processing.py:11 | every valid date with a four-digit year, written as dd/mm/yyyy, is read back as itself |
| Dates.ParseDateMonthThirteen | mods/data_processing.py:11 | "31/13/2024" is not a date |
| Dates.ParseDateFirstFebruary | mods/data_processing.py:11 | "01/02/2023" reads as 1 February 2023 |
| Dates.LeapDayExamples | mods/data_processing.py:11 | 29 February exists in 2024 and 2000 but not in 2023 or 1900; 31 April, month 13 and day 0 do not exist |
| DataProcessing.CoerceDateCell | mods/data_processing.py:11 | `errors='coerce'`: a coerced `DATA` cell is either missing or a valid date; a text cell that reads as a date becomes that date, and one that does not becomes missing |
| DataProcessing.Coerce | mods/data_processing.py:10-11 | specified by `CoerceSpec` |
| DataProcessing.CoerceSpec | mods/data_processing.py:10-11 | over every row, dropped ones included: columns, row count and row lengths are kept; without a `DATA` column nothing changes; with one, each row's `DATA` cell becomes its coerced value, which is missing or a valid date, and every other cell is unchanged |
| DataProcessing.DropIncompleteSpec | mods/data_processing.py:13 | `dropna` keeps exactly the rows with no missing cell: the kept positions ascend, each kept row is the input row at its position, and a row is kept if and only if it is complete |
| DataProcessing.DropIncomplete | mods/data_processing.py:13 | specified by `DropIncompleteSpec`: the complete rows, in their original order, and only those |
| DataProcessing.KeptIndicesBound | mods/data_processing.py:13 | no more rows are kept than there were |
| DataProcessing.CleanResult | mods/data_processing.py:8-20 | an internal failure yields the empty frame, which is `.empty`; otherwise the result is the coerced and filtered table |
| DataProcessing.Clean | mods/data_processing.py:10-16 | specified by `CleanShape`, `CleanWithoutDateColumn`, `CleanWithDateColumn`, `CleanDatesValid` and `ValidDateRowKept` |
| DataProcessing.CleanShape | mods/data_processing.py:10-13 | the cleaned table has the input's columns, no more rows than the input, and no missing cell in any row, and it is well formed when the input is |
| DataProcessing.CleanWithoutDateColumn | mods/data_processing.py:10-13 | without a `DATA` column no cell changes: the output is the complete input rows, in order, and a row is kept if and only if it is complete |
| DataProcessing.CleanWithDateColumn | mods/data_processing.py:10-13 | with a `DATA` column, row i is kept if and only if its date cell coerces and every other cell is present; a kept row equals its input row except that the `DATA` cell holds the coerced date |
| DataProcessing.CleanDatesValid | mods/data_processing.py:10-13 | every kept `DATA` cell is a valid date, either the input's own value or the date its text spells |
| DataProcessing.ValidDateRowKept | mods/data_processing.py:11-13 | a row whose `DATA` text reads as date dt and whose other cells are present is kept, with `DATA` holding dt and every other cell unchanged |
| DataProcessing.FormattedDateRowKept | mods/data_processing.py:11-13 | every valid date written dd/mm/yyyy in the `DATA` cell of an otherwise complete row is kept as that date |
| DataProcessing.ScenarioMonthThirteen | mods/data_processing.py:11-13 | for the rows "31/13/2024" and "01/02/2023", the first is dropped and the second is kept as 1 February 2023 with its other cell untouched |
| DataProcessing.CleanData | mods/data_processing.py:8-20 | the method leaves the caller's frame with its `DATA` column coerced (untouched on failure) and returns `clean_data`'s result |
| Strings.NatToString | mods/oracle_connector_old.py:69 | `str(i+1)`: a non-empty digit string with no leading zero whose decimal value is the number |
| Sql.ParseJoinedMarkers | mods/oracle_connector_old.py:69 | a non-empty list of markers `:n`, joined by ", ", is read back as the same numbers |
| Sql.Placeholders | mods/oracle_connector_old.py:69 | specified by `PlaceholdersRoundTrip` |
| Sql.PlaceholdersRoundTrip | mods/oracle_connector_old.py:69 | the placeholder list is empty exactly for zero columns; otherwise it reads back as exactly `:1` … `:n` |
| Sql.InsertStatement | mods/oracle_connector_old.py:70 | specified by `ParseInsertStatement` |
| Sql.ParseInsertStatement | mods/oracle_connector_old.py:69-70 | the INSERT text names the table verbatim and has one placeholder per column, for any table name without spaces |
| Sql.DeleteStatement | mods/oracle_connector_old.py:91 | specified by `ParseDeleteStatement` |
| Sql.ParseDeleteStatement | mods/oracle_connector_old.py:91 | the DELETE text names the table verbatim |
| Tables.AsFrame | mods/oracle_connector_old.py:66-67 | a Series becomes a one-row frame whose columns are its index and whose single row is its values; a frame is left as is |
| Tables.SeriesOfRow | mods/oracle_connector_old.py:66-72 | row i of a well-formed table, taken as a Series and turned back into a frame, is one row with that table's columns and that row's values, in column order |
| Batching.Chunks | mods/oracle_connector_old.py:75-76 | specified by `FlattenChunks`, `ChunkSizes`, `ChunkCount`, `ChunkAt` and `FlattenChunksPrefix` |
| Batching.FlattenChunks | mods/oracle_connector_old.py:72-77 | the batches, concatenated in order, give back the row list exactly |
| Batching.ChunkSizes | mods/oracle_connector_old.py:75-76 | every batch is non-empty and holds at most `batch_size` rows |
| Batching.ChunkCount | mods/oracle_connector_old.py:74-76 | there are ceil(total / batch_size) batches |
| Batching.ChunkAt | mods/oracle_connector_old.py:75-76 | batch k is `rows[k*batch_size : k*batch_size + batch_size]`, so it starts below the total |
| Batching.FlattenChunksPrefix | mods/oracle_connector_old.py:75-77 | the first k batches together are the first min(k*batch_size, total) rows |
| LegacyConnector.InsertRun | mods/oracle_connector_old.py:61-85 | a failed connection produces no event and no success; otherwise every run, failed or not, ends by closing the cursor and then the connection |
| LegacyConnector.InsertData | mods/oracle_connector_old.py:61-85 | the method's outcome and driver trace are those of `InsertRun` |
| LegacyConnector.SendBatches | mods/oracle_connector_old.py:75-78 | the `for i in range(0, total, batch_size)` loop sends the batches in order, one `executemany` then one `commit` each, and stops at the first failing execute |
| LegacyConnector.BatchRun | mods/oracle_connector_old.py:75-82 | specified by `BatchRunShape` and, through `InsertRun`, by `InsertSucceeds`, `InsertFailsAt` and `InsertCommits` |
| LegacyConnector.BatchRunShape | mods/oracle_connector_old.py:75-82 | the loop's trace is the pairs for the batches that completed, followed by the failing batch when there is one; it succeeds exactly when nothing failed |
| LegacyConnector.InsertSucceeds | mods/oracle_connector_old.py:72-85 | with a positive batch size and no failure, the insert succeeds, executes exactly the batches ceil(total/batch_size) in number, each non-empty and at most `batch_size`, concatenating to the rows, commits once per batch, and closes |
| LegacyConnector.InsertAtDefaultBatchSize | mods/oracle_connector_old.py:61-78 | at the default `batch_size=500` a run with no failure succeeds and commits every row in ceil(rows / 500) slices of 1 to 500 rows |
| LegacyConnector.InsertFailsAt | mods/oracle_connector_old.py:75-85 | when batch k fails, batches 0..k are executed, exactly k commits were made, nothing later is attempted, the run reports the error, and both closes happen |
| LegacyConnector.InsertNothingSent | mods/oracle_connector_old.py:61-78 | with no rows, or a batch size of zero or below, no `executemany` and no commit are sent; zero raises (like `range` with step 0) and a negative size succeeds sending nothing |
| LegacyConnector.InsertCommits | mods/oracle_connector_old.py:75-85 | the table gains exactly the rows, in order, when the insert succeeds, and exactly the rows of the committed batches (the first min(k*batch_size, total)) when batch k fails; the failed batch is rolled back |
| LegacyConnector.ReplayPairs | mods/oracle_connector_old.py:75-78 | committed `executemany` pairs append their batches to the table in order |
| LegacyConnector.ClearData | mods/oracle_connector_old.py:87-101 | the method's outcome and driver trace are those of `clear_data`: connect, DELETE, commit, close the cursor and the connection |
| LegacyConnector.ClearRun | mods/oracle_connector_old.py:87-101 | specified by `ClearEmpties` |
| LegacyConnector.ClearEmpties | mods/oracle_connector_old.py:87-101 | `clear_data` succeeds unless connecting or the DELETE fails, sends `DELETE FROM <table>` first and exactly one commit on success, and then leaves the table empty |
| LegacyConnector.ClearThenInsert | mods/oracle_connector_old.py:61-101 | a successful clear followed by a successful insert leaves the table holding exactly the inserted rows, whatever it held before |
| Connector.ToLower | mods/oracle_connector.py:66 | lowercasing keeps the length and lowercases each character in place |
| Connector.ToLowerProperties | mods/oracle_connector.py:66 | a lowercased name has no capital, keeps every non-capital, and is its own lowercase |
| Connector.InsertTarget | mods/oracle_connector.py:66-69 | `to_sql` gets the lowercased name, and a one-row frame for a Series or the frame itself otherwise |
| Pipeline.Run | main.py:26-98 | the method's exit code and call trace are those of `PipelineRun` |
| Pipeline.PipelineRun | main.py:26-98 | specified by `StageOrder`, `CallArguments`, `ExitCode`, the early-exit lemmas, `SuccessInsertsEveryRow` and `InsertFailureStops` |
| Pipeline.StageOrder | main.py:32-90 | the calls run clear, fetch, write, read, clean and then only inserts, each of the first five stages at most once, in that order, and every call after the fifth an insert |
| Pipeline.CallArguments | main.py:33-90 | the first call clears `oracle_table`; the fetch runs `query`; the write goes to tab ESPECIALIDADES with the fetched frame; the read comes from tab BASE at the same URL; the clean gets the frame read; every insert targets `oracle_table` |
| Pipeline.ClearFailureStops | main.py:32-37 | a failed clear exits with 1, and no call follows it |
| Pipeline.NoWriteWithoutData | main.py:41-51 | a fetch that raises or returns an empty frame, or an unset or empty `MEDIC_VISIT`, exits with 1 before any spreadsheet call |
| Pipeline.WriteNeverEmpty | main.py:42-55 | the frame handed to `write_sheet` is never empty, so its own early return (mods/google_sheets.py:46-48) is never taken from `main` |
| Pipeline.NoInsertWithoutRows | main.py:63-83 | a read that fails or is empty, or a cleaning that leaves an empty frame, exits with 1 and makes no insert |
| Pipeline.ExitCode | main.py:26-98 | the exit code is 0 or 1, and it is 0 exactly when every stage succeeds and no insert raises |
| Pipeline.InsertsMade | main.py:87-94 | the loop never makes more inserts than there are cleaned rows |
| Pipeline.SuccessInsertsEveryRow | main.py:87-91 | on exit code 0 there is exactly one insert per cleaned row, insert i carries row i, and nothing follows the last insert |
| Pipeline.InsertFailureStops | main.py:87-94 | when insert k raises, inserts 0..k were made with row i in the i-th, none after, and the run exits with 1; the clear made first is the only clear, so it is never undone |
| Pipeline.InsertTargets | main.py:89-90 | each insert passes `oracle_table` and cleaned row i; `to_sql` receives the lowercased name and a one-row frame with the cleaned columns whose row has no missing cell |

## Left out

- SQLAlchemy engine creation, `pd.read_sql` and `DataFrame.to_sql` in `mods/oracle_connector.py` are library calls, and so is the chunking `to_sql` does. The driver sees `fetch_data`, `clear_data` and `insert_data` only as outcomes. Only the lowercasing and the Series-to-frame step are modelled (`Connector`).
- The once-only Oracle client initialisation guard in both connectors depends on filesystem checks and driver exceptions, and it is not modelled.
- The gspread calls (authentication, `get_all_records`, `clear`, `append_row`, `update`) are outcomes of `write_sheet` and `read_sheet`. No write-then-read round trip is claimed: the header row is appended and the data is then written from A1, which likely overwrites that header.
- Dates.ParseDate: accepts exactly day and month fields of one or two digits and a four-digit year, separated by '/'. pandas' lexing of `%d/%m/%Y` (surrounding whitespace, other widths) and its Timestamp year range (1677-2262) are not modelled.
- What counts as missing is decided by pandas and is not derived here. A missing cell is an explicit `None`; an empty string is text, not missing, so `dropna` keeps it. A `DATA` cell that holds a number becomes missing; one that already holds a valid date is kept.
- Floating-point cells and NaN as a value are not modelled. Cells are text, integers or dates.
- Duplicate column names are not modelled: the first `DATA` column is the one coerced.
- Connector.ToLower: models Python's `str.lower` on ASCII letters only, not the full Unicode mapping.
- Pipeline.InsertTargets: states the target name as the lowercase of `oracle_table`, and does not spell the lowercased literal out.
- Driver failures are modelled as a failed connection or a failing execute call. A failing commit or close is not modelled separately. The legacy connector catches only `cx_Oracle.Error` before re-raising. Both that and any other exception end the call with cleanup and an error, which the model records as `ok == false`.
- `clean_data`'s internal failure is a boolean parameter. It is taken to be raised before the `DATA` column is assigned, so on failure the caller's frame is unchanged.
- Logging, the tqdm progress bar, dotenv loading and the mechanics of `sys.exit` are not modelled. A `SystemExit` raised inside a stage passes through `main`'s own `except Exception` handlers, so the run ends with code 1 in every failure case. The model records only that exit code.
- Real database and spreadsheet effects beyond the transactional replay of the legacy connector's trace are not modelled. The same holds for f-string SQL with a table name that contains spaces or quotes.
