/**
  The background collector: `init_db()` once, then forever fetch one sample,
  hand it to `insert_telemetry` and log it. The thread, the sleep and the HTTP
  request are left out: a run is a finite sequence of ticks, each carrying what
  the fetch returned and the clock reading of that cycle.
 */
module Collector {
  import opened Nullable
  import opened Store

  /** One cycle's inputs: what `fetch_iss_data` returned (`None` after a
      request error) and the clock value `insert_telemetry` falls back to
      when the feed timestamp is falsy. */
  datatype Tick = Tick(fetched: Option<Reading>, now: int)

  /** The keys of the dictionary `fetch_iss_data` returns on success. */
  const FetchedKeys: set<string> := {"id", "name", "latitude", "longitude", "altitude", "velocity", "timestamp"}

  /** The fetch result as `insert_telemetry` sees it: `None` is falsy, and the
      seven-key dictionary of a successful fetch is truthy. */
  function ToPayload(fetched: Option<Reading>): Payload {
    match fetched
    case None => Falsy
    case Some(reading) => Dict(reading)
  }

  /** The number of cycles whose fetch succeeded. */
  function Successes(ticks: seq<Tick>): nat {
    if |ticks| == 0 then 0
    else (if ticks[0].fetched.Some? then 1 else 0) + Successes(ticks[1..])
  }

  /** The cycles whose fetch succeeded, in order. */
  function Fetched(ticks: seq<Tick>): (fs: seq<Tick>)
    ensures |fs| == Successes(ticks)
    ensures forall k :: 0 <= k < |fs| ==> fs[k].fetched.Some?
  {
    if |ticks| == 0 then []
    else (if ticks[0].fetched.Some? then [ticks[0]] else []) + Fetched(ticks[1..])
  }

  /** `row` is the row an insert stores for the successful cycle `tick`. */
  predicate StoresTick(row: Row, tick: Tick, format: int -> string) {
    tick.fetched.Some? && StoredReading(row, tick.fetched.value, tick.now, format)
  }

  /** One iteration of the loop, on the table `init_db` created: a failed fetch
      writes nothing, a successful one appends exactly one row. */
  function Step(t: Table, tick: Tick, format: int -> string): (r: Table)
    ensures tick.fetched.None? ==> r == t
    ensures tick.fetched.Some? ==> Appended(t, r, tick.fetched.value, tick.now, format)
    ensures Valid(t) ==> Valid(r)
    ensures Formatted(t, format) ==> Formatted(r, format)
    ensures Dense(t) ==> Dense(r)
  {
    match InsertTelemetry(Database(Some(t)), ToPayload(tick.fetched), tick.now, format)
    case Ok(db) => db.telemetry.value
    case Err(_) => t
  }

  /** The corrected loop over a sequence of cycles, every cycle running
      whatever the previous one did: one row per successful fetch, after the earlier rows,
      which stay untouched. */
  function Run(t: Table, ticks: seq<Tick>, format: int -> string): (r: Table)
    ensures |r.rows| == |t.rows| + Successes(ticks)
    ensures r.rows[..|t.rows|] == t.rows
    ensures Valid(t) ==> Valid(r)
    ensures Formatted(t, format) ==> Formatted(r, format)
    ensures Dense(t) ==> Dense(r)
    decreases |ticks|
  {
    if |ticks| == 0 then t
    else
      var t' := Step(t, ticks[0], format);
      var r := Run(t', ticks[1..], format);
      assert r.rows[..|t.rows|] == r.rows[..|t'.rows|][..|t.rows|];
      r
  }

  /** The rows a run adds hold the successful fetches' readings, one row per
      fetch, in fetch order: the k-th added row stores the k-th successful
      cycle's reading, with that cycle's clock when the feed timestamp is falsy. */
  lemma {:induction false} RunStoresFetched(t: Table, ticks: seq<Tick>, format: int -> string)
    ensures forall k :: 0 <= k < Successes(ticks) ==>
      StoresTick(Run(t, ticks, format).rows[|t.rows| + k], Fetched(ticks)[k], format)
    decreases |ticks|
  {
    if |ticks| > 0 {
      var t' := Step(t, ticks[0], format);
      RunStoresFetched(t', ticks[1..], format);
      if ticks[0].fetched.None? {
        StoredAfterSkip(t, Run(t, ticks[1..], format), ticks, format);
      } else {
        StoredAfterFirst(t, t', Run(t', ticks[1..], format), ticks, format);
      }
    }
  }

  /** A failed first cycle stores nothing: the rows a run stores are those
      the rest of the run stores. */
  lemma {:induction false} StoredAfterSkip(t: Table, r: Table, ticks: seq<Tick>, format: int -> string)
    requires |ticks| > 0 && ticks[0].fetched.None?
    requires |r.rows| == |t.rows| + Successes(ticks[1..])
    requires forall k :: 0 <= k < Successes(ticks[1..]) ==>
      StoresTick(r.rows[|t.rows| + k], Fetched(ticks[1..])[k], format)
    ensures forall k :: 0 <= k < Successes(ticks) ==>
      StoresTick(r.rows[|t.rows| + k], Fetched(ticks)[k], format)
  {
    assert Fetched(ticks) == Fetched(ticks[1..]);
  }

  /** The rows a run stores after a successful first cycle are that cycle's
      row followed by the rows the rest of the run stores. */
  lemma {:induction false} StoredAfterFirst(t: Table, t': Table, r: Table, ticks: seq<Tick>, format: int -> string)
    requires |ticks| > 0 && ticks[0].fetched.Some?
    requires Appended(t, t', ticks[0].fetched.value, ticks[0].now, format)
    requires |r.rows| == |t'.rows| + Successes(ticks[1..]) && r.rows[..|t'.rows|] == t'.rows
    requires forall k :: 0 <= k < Successes(ticks[1..]) ==>
      StoresTick(r.rows[|t'.rows| + k], Fetched(ticks[1..])[k], format)
    ensures forall k :: 0 <= k < Successes(ticks) ==>
      StoresTick(r.rows[|t.rows| + k], Fetched(ticks)[k], format)
  {
    assert Fetched(ticks) == [ticks[0]] + Fetched(ticks[1..]);
    forall k | 0 <= k < Successes(ticks)
      ensures StoresTick(r.rows[|t.rows| + k], Fetched(ticks)[k], format)
    {
      if k == 0 {
        assert r.rows[|t.rows|] == r.rows[..|t'.rows|][|t.rows|];
      } else {
        assert r.rows[|t.rows| + k] == r.rows[|t'.rows| + (k - 1)];
      }
    }
  }

  /** `collector()` with the corrected loop: `init_db()`, then `Run`. After the rows already
      stored comes one row per successful fetch, holding its reading; starting
      from a database without the table, the rows get ids 1, 2, ... in fetch order. */
  function Collect(db: Database, ticks: seq<Tick>, format: int -> string): (r: Table)
    ensures var base := if db.telemetry.Some? then |db.telemetry.value.rows| else 0;
      && |r.rows| == base + Successes(ticks)
      && forall k :: 0 <= k < Successes(ticks) ==> StoresTick(r.rows[base + k], Fetched(ticks)[k], format)
    ensures db.telemetry.Some? && Valid(db.telemetry.value) ==> Valid(r)
    ensures db.telemetry.Some? ==>
      |db.telemetry.value.rows| <= |r.rows| && r.rows[..|db.telemetry.value.rows|] == db.telemetry.value.rows
    ensures db.telemetry.None? ==> Dense(r) && |r.rows| == Successes(ticks)
  {
    RunStoresFetched(InitDb(db).telemetry.value, ticks, format);
    Run(InitDb(db).telemetry.value, ticks, format)
  }

  // ---------------------------------------------------------------------------
  // The loop as written: its log line reads `data['ts_utc']`, a key the fetched
  // dictionary never has, so the first successful cycle raises KeyError after
  // its insert and the collector thread ends.

  datatype Cycle = Running(table: Table) | Died(table: Table)

  /** One iteration as written: the insert, then `if data: print(... data['ts_utc'] ...)`. */
  function StepAsWritten(t: Table, tick: Tick, format: int -> string): (c: Cycle)
    ensures tick.fetched.None? ==> c == Running(t)
    ensures tick.fetched.Some? ==> c.Died? && Appended(t, c.table, tick.fetched.value, tick.now, format)
  {
    var t' := Step(t, tick, format);
    if tick.fetched.Some? && "ts_utc" !in FetchedKeys then Died(t') else Running(t')
  }

  /** The loop as written, which stops at the first cycle that raises. It
      keeps the earlier rows, and the row it adds, if any, holds the reading of
      the first successful fetch. */
  function RunAsWritten(t: Table, ticks: seq<Tick>, format: int -> string): (c: Cycle)
    ensures |t.rows| <= |c.table.rows| && c.table.rows[..|t.rows|] == t.rows
    ensures Successes(ticks) > 0 && |t.rows| < |c.table.rows| ==>
      StoresTick(c.table.rows[|t.rows|], Fetched(ticks)[0], format)
    decreases |ticks|
  {
    if |ticks| == 0 then Running(t)
    else
      match StepAsWritten(t, ticks[0], format)
      case Died(t') => Died(t')
      case Running(t') =>
        assert Fetched(ticks) == Fetched(ticks[1..]);
        RunAsWritten(t', ticks[1..], format)
  }

  /** As written, the collector stores at most one sample per process, and any
      successful fetch ends it. */
  lemma {:induction false} AsWrittenStoresAtMostOne(t: Table, ticks: seq<Tick>, format: int -> string)
    ensures |RunAsWritten(t, ticks, format).table.rows| == |t.rows| + (if Successes(ticks) > 0 then 1 else 0)
    ensures RunAsWritten(t, ticks, format).Died? <==> Successes(ticks) > 0
    decreases |ticks|
  {
    if |ticks| > 0 {
      if ticks[0].fetched.None? {
        AsWrittenStoresAtMostOne(t, ticks[1..], format);
      }
    }
  }

  /** `collector()` as written: `init_db()`, then the loop that dies at the
      first successful fetch. Exactly one row is added iff some fetch succeeds,
      and it stores the first successful fetch. */
  function CollectAsWritten(db: Database, ticks: seq<Tick>, format: int -> string): (c: Cycle)
    ensures c.Died? <==> Successes(ticks) > 0
    ensures var base := if db.telemetry.Some? then |db.telemetry.value.rows| else 0;
      && |c.table.rows| == base + (if Successes(ticks) > 0 then 1 else 0)
      && (Successes(ticks) > 0 ==> StoresTick(c.table.rows[base], Fetched(ticks)[0], format))
    ensures db.telemetry.Some? ==> c.table.rows[..|db.telemetry.value.rows|] == db.telemetry.value.rows
  {
    AsWrittenStoresAtMostOne(InitDb(db).telemetry.value, ticks, format);
    RunAsWritten(InitDb(db).telemetry.value, ticks, format)
  }

  /** The discrepancy: with two successful fetches the loop as written keeps
      one row where the intended loop keeps two. */
  lemma AsWrittenLosesSamples(t: Table, ticks: seq<Tick>, format: int -> string)
    requires Successes(ticks) >= 2
    ensures |RunAsWritten(t, ticks, format).table.rows| < |Run(t, ticks, format).rows|
  {
    AsWrittenStoresAtMostOne(t, ticks, format);
  }
}
