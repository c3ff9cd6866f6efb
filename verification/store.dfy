/**
  The append-only `telemetry` table and the two operations that write to it:
  `init_db` (create the table if it is missing) and `insert_telemetry`
  (append one row built from a feed dictionary).

  The sqlite connection is replaced by an immutable value: a table is its rows
  in rowid order together with the AUTOINCREMENT counter SQLite keeps for it.
  The clock and the UTC formatting are parameters.
 */
module Store {
  import opened Nullable

  /** What `insert_telemetry` reads from its dictionary argument, key by key,
      with `data.get(key)`: a missing key and an explicit `None` both read as `None`. */
  datatype Reading = Reading(
    satId: Option<int>,       // data.get("id")
    name: Option<string>,     // data.get("name")
    latitude: Option<real>,
    longitude: Option<real>,
    altitude: Option<real>,
    velocity: Option<real>,
    timestamp: Option<int>)   // epoch seconds

  /** The argument of `insert_telemetry`, split by Python truthiness: `None` and
      the empty dictionary are falsy; any other dictionary is truthy and is
      known to the insert only through the keys it reads. */
  datatype Payload = Falsy | Dict(reading: Reading)

  /** One row of the `telemetry` table, one field per column. */
  datatype Row = Row(
    id: int,
    satId: Option<int>,
    name: Option<string>,
    latitude: Option<real>,
    longitude: Option<real>,
    altitude: Option<real>,
    velocity: Option<real>,
    timestampUnix: int,
    tsUtc: string)

  /** The `telemetry` table: its rows in rowid order, and `counter`, the
      largest rowid ever handed out (the table's entry in sqlite_sequence). */
  datatype Table = Table(rows: seq<Row>, counter: nat)

  /** The database file, which may or may not hold the `telemetry` table yet. */
  datatype Database = Database(telemetry: Option<Table>)

  datatype DbError = NoSuchTable

  datatype Result<T> = Ok(value: T) | Err(error: DbError)

  /** The table `CREATE TABLE` makes: no rows, no rowid handed out yet. */
  const EmptyTable := Table([], 0)

  /** Python truthiness of an integer-or-None: `None` and `0` are falsy. */
  predicate Truthy(v: Option<int>) {
    v.Some? && v.value != 0
  }

  /** Rowids are positive, strictly increase in row order, and never exceed the counter. */
  predicate Valid(t: Table) {
    && (forall i :: 0 <= i < |t.rows| ==> 1 <= t.rows[i].id <= t.counter)
    && (forall i, j :: 0 <= i < j < |t.rows| ==> t.rows[i].id < t.rows[j].id)
  }

  /** Every row's `ts_utc` is the formatting of its own `timestamp_unix`. */
  predicate Formatted(t: Table, format: int -> string) {
    forall i :: 0 <= i < |t.rows| ==> t.rows[i].tsUtc == format(t.rows[i].timestampUnix)
  }

  /** The rowids of a table filled only by inserts: 1, 2, ..., n. */
  predicate Dense(t: Table) {
    && t.counter == |t.rows|
    && forall i :: 0 <= i < |t.rows| ==> t.rows[i].id == i + 1
  }

  /** `row` holds the six feed fields of `reading` unchanged. */
  predicate CopiesReading(row: Row, reading: Reading) {
    && row.satId == reading.satId
    && row.name == reading.name
    && row.latitude == reading.latitude
    && row.longitude == reading.longitude
    && row.altitude == reading.altitude
    && row.velocity == reading.velocity
  }

  /** `row` is what an insert stores for `reading` at time `now`: the six
      feed fields copied verbatim, the feed's timestamp when truthy and `now`
      otherwise, and `ts_utc` the formatting of that timestamp. */
  predicate StoredReading(row: Row, reading: Reading, now: int, format: int -> string) {
    && CopiesReading(row, reading)
    && row.timestampUnix == (if Truthy(reading.timestamp) then reading.timestamp.value else now)
    && row.tsUtc == format(row.timestampUnix)
  }

  /** What one insert promises: `after` is `before` with exactly one row added
      at the end, whose id is fresh and becomes the new counter, and which
      stores `reading` as `StoredReading` says. */
  predicate Appended(before: Table, after: Table, reading: Reading, now: int, format: int -> string) {
    && |after.rows| == |before.rows| + 1
    && after.rows[..|before.rows|] == before.rows
    && (forall i :: 0 <= i < |before.rows| ==> before.rows[i].id < after.rows[|before.rows|].id)
    && before.counter < after.rows[|before.rows|].id
    && after.counter == after.rows[|before.rows|].id
    && StoredReading(after.rows[|before.rows|], reading, now, format)
  }

  /** The largest rowid present, or 0 for no rows. */
  function MaxId(rows: seq<Row>): (m: nat)
    ensures forall i :: 0 <= i < |rows| ==> rows[i].id <= m
    ensures m == 0 || exists i :: 0 <= i < |rows| && rows[i].id == m
  {
    if |rows| == 0 then 0
    else
      var m := MaxId(rows[..|rows| - 1]);
      if rows[|rows| - 1].id > m then rows[|rows| - 1].id else m
  }

  /** The rowid AUTOINCREMENT gives the next row: one more than both the
      largest rowid present and the largest ever handed out. */
  function NextId(t: Table): (id: nat)
    ensures t.counter < id
    ensures forall i :: 0 <= i < |t.rows| ==> t.rows[i].id < id
    ensures Valid(t) ==> id == t.counter + 1
  {
    var m := MaxId(t.rows);
    (if m > t.counter then m else t.counter) + 1
  }

  /** `CREATE TABLE IF NOT EXISTS telemetry (...)`. */
  function InitDb(db: Database): (r: Database)
    ensures r.telemetry.Some?
    ensures db.telemetry.Some? ==> r == db
    ensures db.telemetry.None? ==> r.telemetry.value == EmptyTable
  {
    if db.telemetry.Some? then db else Database(Some(EmptyTable))
  }

  /** Running `init_db` a second time changes nothing. */
  lemma InitDbIdempotent(db: Database)
    ensures InitDb(InitDb(db)) == InitDb(db)
    ensures db.telemetry.Some? ==> InitDb(db).telemetry.value.rows == db.telemetry.value.rows
  {
  }

  /** The `INSERT` of a truthy dictionary into an existing table. */
  function Append(t: Table, reading: Reading, now: int, format: int -> string): (r: Table)
    ensures Appended(t, r, reading, now, format)
    ensures Valid(t) ==> Valid(r)
    ensures Formatted(t, format) ==> Formatted(r, format)
    ensures Dense(t) ==> Dense(r)
  {
    var id := NextId(t);
    var ts := if Truthy(reading.timestamp) then reading.timestamp.value else now;
    var row := Row(id, reading.satId, reading.name, reading.latitude, reading.longitude,
                   reading.altitude, reading.velocity, ts, format(ts));
    assert (t.rows + [row])[..|t.rows|] == t.rows;
    Table(t.rows + [row], id)
  }

  /** `insert_telemetry(data)`: a falsy argument returns before the database is
      touched; otherwise one row is appended, which fails when `init_db` has
      not created the table. */
  function InsertTelemetry(db: Database, data: Payload, now: int, format: int -> string): (r: Result<Database>)
    ensures data.Falsy? ==> r == Ok(db)
    ensures data.Dict? && db.telemetry.None? ==> r == Err(NoSuchTable)
    ensures data.Dict? && db.telemetry.Some? ==>
      && r.Ok? && r.value.telemetry.Some?
      && Appended(db.telemetry.value, r.value.telemetry.value, data.reading, now, format)
  {
    match data
    case Falsy => Ok(db)
    case Dict(reading) =>
      match db.telemetry
      case None => Err(NoSuchTable)
      case Some(t) => Ok(Database(Some(Append(t, reading, now, format))))
  }

  /** After `init_db`, an insert never fails, and it keeps the rowids valid. */
  lemma InsertAfterInitSucceeds(db: Database, data: Payload, now: int, format: int -> string)
    ensures InsertTelemetry(InitDb(db), data, now, format).Ok?
    ensures db.telemetry.None? || Valid(db.telemetry.value) ==>
      Valid(InsertTelemetry(InitDb(db), data, now, format).value.telemetry.value)
  {
  }
}
