# ISS telemetry store and queries, modelled in Dafny

The system polls a satellite-position feed once a second. It is meant to
append each sample to an SQLite table, `telemetry` (as written it stores only
the first; see Findings), and serves three read queries over
that table: the latest sample, the full history, and an analytics summary.
The summary holds the longitude and altitude extremes and the five largest
altitude jumps between rows with consecutive ids.

This project models that core as pure functions over an immutable table value:

- `nullable.dfy`, module `Nullable`: `Option`, which stands for SQL NULL and for
  a `dict.get` that found nothing.
- `store.dfy`, module `Store` (`db.py`): rows, the table with its AUTOINCREMENT
  counter, `init_db`, and `insert_telemetry`. A falsy argument skips the insert.
  A falsy feed timestamp falls back to "now". The new row gets a fresh id and
  copies the feed fields verbatim.
- `queries.dfy`, module `Queries` (`app.py`): `/api/current`, `/api/data`, and
  the MIN/MAX summary of `/api/analytics`.
- `jumps.dfy`, module `Jumps` (`app.py`): the self-join on `t2.id = t1.id + 1`,
  `ORDER BY delta DESC` and `LIMIT 5`.
- `scenarios.dfy`, module `Scenarios`: the analytics queries worked out on four
  concrete samples.
- `collector.dfy`, module `Collector` (`app.py`): one loop iteration of the
  collector thread (fetch result → insert), a run over a finite sequence of
  cycles, and the loop as written, whose log line ends the thread (see Findings).

Modelling choices:

- "Now" is a parameter `now: int`. The UTC formatting
  `utcfromtimestamp(ts).isoformat() + "Z"` is a parameter `format: int -> string`.
  So `ts_utc` depends on `timestamp_unix` alone by construction.
- The argument of `insert_telemetry` is `Payload`. It is `Falsy` for `None` or
  `{}`, and otherwise `Dict(reading)`. A `Reading` holds the seven values the
  insert reads with `data.get`, and each of them may be `None`.
- The feed timestamp is typed as an integer. Its truthiness is "present and
  non-zero".
- The rowid AUTOINCREMENT hands out is one more than the larger of two numbers:
  the largest rowid present, and the table's sqlite_sequence counter.
- SQL does not fix the order of rows with equal sort keys. The contracts leave
  that order open: "some ordering by timestamp", "non-increasing in delta".
  The implementations are stable insertion sorts, but no contract depends on
  that choice.
- NULL sorts below every number, as in SQLite. A jump whose altitude is NULL
  therefore has a NULL delta and ranks last.
- SQL `MIN` and `MAX` over no non-NULL values are NULL. On an empty table all
  four summary fields are therefore NULL.
- `/api/current` orders by `timestamp_unix`, so the row it returns is the one
  with the largest timestamp, which need not be the one with the largest id.
- The jump query orders by `delta` alone. Jumps with equal deltas may come in
  any order.
- Latitude, longitude and altitude may be NULL. The insert stores whatever
  `data.get` returns.
- The self-join is modelled in two steps. First come the index pairs (i, j) of
  rows with `id_j = id_i + 1`, in nested-loop order. Then each pair becomes
  one jump row. So the join yields one jump per matching pair.

## Model

| member | source | states |
|---|---|---|
| `Store.NextId` | db.py:12 | The AUTOINCREMENT id is above every id present and above the counter; in a valid table it is the counter plus one |
| `Store.InitDb` | db.py:7-24 | `CREATE TABLE IF NOT EXISTS`: afterwards the table exists; an existing table is returned unchanged; a missing one is created empty |
| `Store.InitDbIdempotent` | db.py:10-11 | Running `init_db` twice equals running it once, and it keeps every existing row |
| `Store.Append` | db.py:31-45 | Adds exactly one row at the end and leaves earlier rows in place. The row's id exceeds every earlier id and the counter, and becomes the new counter. The six feed fields are copied verbatim. The timestamp is the feed's when truthy, else `now`. `ts_utc` is the formatting of that timestamp. Valid ids, dense ids and formatting are all preserved |
| `Store.InsertTelemetry` | db.py:26-47 | A falsy argument leaves the database unchanged, even without a table. A truthy one fails when the table is missing, and otherwise appends exactly one row as described for `Append` |
| `Store.InsertAfterInitSucceeds` | app.py:14-17 | Once `init_db` has run, `insert_telemetry` never fails and keeps the ids valid |
| `Queries.Current` | app.py:31-34 | The result is empty iff the table is empty; otherwise it is a row of the table whose timestamp no row exceeds |
| `Queries.CurrentIsLastInserted` | app.py:31 | With timestamps strictly increasing in insertion order, `/api/current` returns the last inserted row |
| `Queries.SortByTime` | app.py:41 | Returns a permutation of the rows, ascending by `timestamp_unix` |
| `Queries.Data` | app.py:41-44 | Returns as many points as there are rows, namely the projections of the rows to latitude, longitude, altitude and `ts_utc`, as a multiset |
| `Queries.DataIsTimeOrdered` | app.py:41-42 | The `/api/data` list is the projection of some ascending-by-timestamp permutation of the rows |
| `Queries.DataInInsertionOrder` | app.py:41-44 | With strictly increasing timestamps, `/api/data` lists the rows' projections in insertion order |
| `Queries.MinOf` | app.py:51 | SQL `MIN` is NULL iff every value is NULL; otherwise it is a value that occurs and is at most every non-NULL value |
| `Queries.MaxOf` | app.py:51 | SQL `MAX` is NULL iff every value is NULL; otherwise it is a value that occurs and is at least every non-NULL value |
| `Queries.Summarize` | app.py:51-52 | On an empty table all four fields are NULL. A minimum is present iff its maximum is, iff some row has a value in that column, and then min ≤ max |
| `Jumps.MakeJump` | app.py:55-56 | The delta is NULL iff either altitude is NULL; otherwise it is non-negative and equals `a2 - a1` or `a1 - a2` |
| `Jumps.JoinPairsMembers` | app.py:57-58 | The nested-loop join over the first m t1 rows lists exactly the index pairs (i, j) with i < m and `id_j = id_i + 1`, in strictly increasing (i, j) order, so each pair once |
| `Jumps.AdjacentPairs` | app.py:57-58 | The pairs the join matches: every listed pair satisfies `id_j = id_i + 1`, no pair is listed twice, and every such pair is listed |
| `Jumps.AdjacentJumps` | app.py:55-58 | One jump per matching pair: entry k is the jump of the k-th pair of `AdjacentPairs`. A jump is in the result iff some pair (i, j) with `id_j = id_i + 1` produces it |
| `Jumps.Rank` | app.py:59 | Returns a permutation of the jumps that is non-increasing in delta, with NULL deltas last |
| `Jumps.Top` | app.py:59-60 | `ORDER BY delta DESC LIMIT 5`. The result has min(5, n) entries, is a sub-multiset of the input, and is non-increasing. No jump left out exceeds any jump kept |
| `Jumps.TopJumps` | app.py:54-62 | The jump list has min(5, number of adjacent-id pairs) entries. It is a sub-multiset of the join's jumps, so no jump appears more often than pairs produce it. Each entry comes from an adjacent-id pair. The list is non-increasing in delta, and no jump left out has a larger delta than a reported one |
| `Jumps.DenseJumps` | app.py:57-60 | In a table filled only by inserts (ids 1..n), the join yields exactly the n − 1 jumps between consecutive rows, in row order, so min(5, n − 1) jumps are reported |
| `Scenarios.JumpExample` | app.py:54-62 | Four samples with ids 1 to 4 and altitudes 400, 405, 398 and 420 give the jump list 22 (ids 3→4), 7 (ids 2→3), 5 (ids 1→2) |
| `Scenarios.SummaryExample` | app.py:51 | The same samples give altitude extremes 398 and 420, and NULL longitude extremes because no longitude was recorded |
| `Collector.Step` | app.py:16-17 | One cycle: a failed fetch (`None`) writes no row; a successful fetch appends exactly one row built from it |
| `Collector.Run` | app.py:15-20 | Corrected loop (see Findings): over any sequence of cycles, the table gains one row per successful fetch and earlier rows stay unchanged in place. Valid, dense and formatted tables stay so |
| `Collector.RunStoresFetched` | app.py:15-17 | Corrected loop (see Findings): the k-th row a run adds stores the k-th successful fetch: its six feed fields verbatim, its timestamp when truthy and that cycle's clock otherwise, and the formatting of that timestamp |
| `Collector.Collect` | app.py:13-20 | Corrected loop (see Findings): `init_db` then the loop keeps existing rows. After them comes one row per successful fetch, the k-th storing the k-th successful fetch's reading. From a database without the table, the rows get ids 1..n |
| `Collector.StepAsWritten` | app.py:16-19 | As written: a failed fetch keeps the loop running with the table unchanged. A successful fetch inserts its row and then ends the thread |
| `Collector.RunAsWritten` | app.py:15-20 | As written, the loop keeps the earlier rows. The row it adds, if any, stores the first successful fetch |
| `Collector.CollectAsWritten` | app.py:13-20 | `collector()` as written: `init_db`, then the loop that dies at the first successful fetch. It keeps the existing rows, adds exactly one row iff some fetch succeeds, that row stores the first successful fetch, and the thread has died iff some fetch succeeded |
| `Collector.AsWrittenStoresAtMostOne` | app.py:18-19 | As written, a run stores exactly one row if any fetch succeeds and none otherwise, and it dies iff some fetch succeeds |
| `Collector.AsWrittenLosesSamples` | app.py:19 | With two or more successful fetches, the loop as written keeps fewer rows than the intended loop |

## Left out

- HTTP plumbing is not modelled: Flask routing, `jsonify`, `send_from_directory` and `app.run`. The queries return Dafny values in place of JSON.
- The sqlite connection, cursor, commit and close are replaced by the immutable table value. Errors of the medium are not modelled, apart from the missing table.
- The background thread, `while True` and `time.sleep(RATE_LIMIT)` are not modelled. A run is a finite sequence of cycles, and concurrency with the readers is out of scope.
- `fetch_iss_data` is not modelled: it performs an HTTP request. Its result enters as `Option<Reading>`: `None` after a request error, otherwise the seven-key dictionary.
- The clock (`datetime.utcnow`) and `utcfromtimestamp(...).isoformat()` are parameters. Out-of-range timestamps, for which the formatting raises, are not modelled.
- The fallback clock value enters as the parameter `now`. db.py:31 computes it as `int(datetime.utcnow().timestamp())`, and Python reads that naive UTC datetime as local time. So on a host outside UTC the value, and the `ts_utc` derived from it, is off by the host's UTC offset. The model takes whatever value the clock yields and does not model that offset.
- The `print` logging is not modelled, except that the log line raises (see Findings).
- Floating point: coordinates and deltas are exact `real`s, so rounding in `ABS(a2 - a1)` is not modelled.
- The feed timestamp is typed as an integer. The falsy non-integers `0.0`, `""` and `False` are not modelled. SQLite type affinity is not modelled either: the feed is assumed to give numbers for numeric columns.
- The 64-bit rowid limit, at which AUTOINCREMENT fails with SQLITE_FULL, is not modelled: ids are unbounded.
- `Queries.Current`, `Queries.Data`, `Queries.Summarize` and `Jumps.TopJumps` take an existing table: they assume `init_db` has run. A request that arrives before the collector thread's `init_db()` (app.py:14) fails with SQLite's "no such table" error at app.py:31, 41, 51 or 54. That failure is not modelled.

## Findings

| source | as written | input that shows it | evidently intended | confidence | as-written member | corrected member |
|---|---|---|---|---|---|---|
| app.py:18-19 | After a successful insert, the collector's log line reads `data['ts_utc']`. The dictionary from `fetch_iss_data` (fetch_iss.py:12-20) never has that key, so the line raises KeyError. The exception ends the collector thread after its first stored sample | Any run whose first successful fetch returns the seven-key dictionary; a second successful fetch is never stored | Log the sample (e.g. with the stored `ts_utc` or the feed timestamp) and continue the loop, storing one row per successful fetch | high; not executed | `Collector.AsWrittenStoresAtMostOne`, `Collector.CollectAsWritten` | `Collector.Run`, `Collector.RunStoresFetched`, `Collector.Collect` |
