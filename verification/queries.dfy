/**
  The read queries behind `/api/current`, `/api/data` and the summary half of
  `/api/analytics`, as pure functions of the table's rows. Where SQL leaves the
  order of equal sort keys open, the contracts leave it open too.
 */
module Queries {
  import opened Nullable
  import opened Store

  // ---------------------------------------------------------------------------
  // /api/current: SELECT * ... ORDER BY timestamp_unix DESC LIMIT 1

  /** `r` is a row of `rows` whose timestamp no row exceeds. */
  predicate IsLatest(rows: seq<Row>, r: Row) {
    r in rows && forall i :: 0 <= i < |rows| ==> rows[i].timestampUnix <= r.timestampUnix
  }

  /** A row with the greatest timestamp (the last such row, a choice SQL leaves open). */
  function Latest(rows: seq<Row>): (r: Row)
    requires |rows| > 0
    ensures IsLatest(rows, r)
  {
    if |rows| == 1 then rows[0]
    else
      var best := Latest(rows[..|rows| - 1]);
      assert rows == rows[..|rows| - 1] + [rows[|rows| - 1]];
      if rows[|rows| - 1].timestampUnix >= best.timestampUnix then rows[|rows| - 1] else best
  }

  /** The `/api/current` answer: no row exactly when the table is empty,
      otherwise a row with the greatest timestamp. */
  function Current(t: Table): (r: Option<Row>)
    ensures r.None? <==> |t.rows| == 0
    ensures r.Some? ==> IsLatest(t.rows, r.value)
  {
    if |t.rows| == 0 then None else Some(Latest(t.rows))
  }

  /** With timestamps that strictly increase in insertion order, `/api/current`
      returns the row inserted last. */
  lemma CurrentIsLastInserted(t: Table)
    requires forall i, j :: 0 <= i < j < |t.rows| ==> t.rows[i].timestampUnix < t.rows[j].timestampUnix
    requires |t.rows| > 0
    ensures Current(t) == Some(t.rows[|t.rows| - 1])
  {
    var r := Current(t).value;
    var k :| 0 <= k < |t.rows| && t.rows[k] == r;
    assert t.rows[|t.rows| - 1].timestampUnix <= r.timestampUnix;
  }

  // ---------------------------------------------------------------------------
  // /api/data: SELECT latitude, longitude, altitude, ts_utc ... ORDER BY timestamp_unix ASC

  /** The four columns `/api/data` selects. */
  datatype Point = Point(latitude: Option<real>, longitude: Option<real>, altitude: Option<real>, tsUtc: string)

  function Project(r: Row): Point {
    Point(r.latitude, r.longitude, r.altitude, r.tsUtc)
  }

  function ProjectAll(rows: seq<Row>): seq<Point> {
    if |rows| == 0 then [] else [Project(rows[0])] + ProjectAll(rows[1..])
  }

  predicate TimeSorted(s: seq<Row>) {
    forall i, j :: 0 <= i < j < |s| ==> s[i].timestampUnix <= s[j].timestampUnix
  }

  /** `s` is one of the orders `ORDER BY timestamp_unix ASC` may return `rows` in. */
  predicate IsTimeOrdering(rows: seq<Row>, s: seq<Row>) {
    multiset(s) == multiset(rows) && TimeSorted(s)
  }

  function InsertByTime(x: Row, s: seq<Row>): (r: seq<Row>)
    requires TimeSorted(s)
    ensures TimeSorted(r)
    ensures multiset(r) == multiset(s) + multiset{x}
  {
    if |s| == 0 then [x]
    else if x.timestampUnix <= s[0].timestampUnix then [x] + s
    else
      var rest := InsertByTime(x, s[1..]);
      assert s == [s[0]] + s[1..];
      HeadBelowInsert(x, s, rest);
      [s[0]] + rest
  }

  /** Inserting a later row into the tail of a sorted sequence keeps its head first. */
  lemma HeadBelowInsert(x: Row, s: seq<Row>, rest: seq<Row>)
    requires TimeSorted(s) && |s| > 0 && s[0].timestampUnix < x.timestampUnix
    requires multiset(rest) == multiset(s[1..]) + multiset{x}
    ensures forall k :: 0 <= k < |rest| ==> s[0].timestampUnix <= rest[k].timestampUnix
  {
    forall k | 0 <= k < |rest|
      ensures s[0].timestampUnix <= rest[k].timestampUnix
    {
      assert rest[k] in multiset(rest);
      if rest[k] != x {
        assert rest[k] in multiset(s[1..]);
        var m :| 0 <= m < |s[1..]| && s[1..][m] == rest[k];
        assert s[m + 1] == rest[k];
      }
    }
  }

  /** A stable insertion sort by timestamp. */
  function SortByTime(rows: seq<Row>): (s: seq<Row>)
    ensures IsTimeOrdering(rows, s)
  {
    if |rows| == 0 then []
    else
      assert rows == [rows[0]] + rows[1..];
      InsertByTime(rows[0], SortByTime(rows[1..]))
  }

  /** The `/api/data` answer. */
  function Data(t: Table): (ps: seq<Point>)
    ensures |ps| == |t.rows|
    ensures multiset(ps) == multiset(ProjectAll(t.rows))
  {
    var s := SortByTime(t.rows);
    ProjectPermutation(s, t.rows);
    ProjectLength(s);
    assert |s| == |multiset(s)| == |multiset(t.rows)| == |t.rows|;
    ProjectAll(s)
  }

  lemma {:induction false} ProjectLength(rows: seq<Row>)
    ensures |ProjectAll(rows)| == |rows|
    decreases |rows|
  {
    if |rows| > 0 {
      ProjectLength(rows[1..]);
    }
  }

  lemma {:induction false} ProjectConcat(a: seq<Row>, b: seq<Row>)
    ensures ProjectAll(a + b) == ProjectAll(a) + ProjectAll(b)
    decreases |a|
  {
    if |a| > 0 {
      assert (a + b)[1..] == a[1..] + b;
      ProjectConcat(a[1..], b);
    } else {
      assert a + b == b;
    }
  }

  /** Taking one row out of a sequence takes its point out of the projection. */
  lemma ProjectRemove(b: seq<Row>, k: int)
    requires 0 <= k < |b|
    ensures multiset(ProjectAll(b)) == multiset{Project(b[k])} + multiset(ProjectAll(b[..k] + b[k + 1..]))
  {
    var pre, post := b[..k], b[k + 1..];
    assert b == pre + ([b[k]] + post);
    ProjectConcat(pre, [b[k]] + post);
    assert ProjectAll([b[k]] + post) == [Project(b[k])] + ProjectAll(post);
    ProjectConcat(pre, post);
    var p, q := ProjectAll(pre), ProjectAll(post);
    assert ProjectAll(b) == p + ([Project(b[k])] + q);
    assert multiset(p + ([Project(b[k])] + q)) == multiset(p) + multiset{Project(b[k])} + multiset(q);
    assert multiset(ProjectAll(pre + post)) == multiset(p) + multiset(q);
  }

  /** Removing the element at position k removes one occurrence of it. */
  lemma RemoveAt<T>(b: seq<T>, k: int)
    requires 0 <= k < |b|
    ensures multiset(b[..k] + b[k + 1..]) == multiset(b) - multiset{b[k]}
  {
    assert b == b[..k] + [b[k]] + b[k + 1..];
  }

  /** Taking the same row out of two orderings of the same rows leaves two
      orderings of the same rows. */
  lemma TailsAgree(a: seq<Row>, b: seq<Row>, k: int)
    requires multiset(a) == multiset(b) && |a| > 0
    requires 0 <= k < |b| && b[k] == a[0]
    ensures multiset(a[1..]) == multiset(b[..k] + b[k + 1..])
  {
    RemoveAt(b, k);
    assert a == [a[0]] + a[1..];
    assert multiset(a) == multiset{a[0]} + multiset(a[1..]);
  }

  lemma ProjectFirst(a: seq<Row>)
    requires |a| > 0
    ensures multiset(ProjectAll(a)) == multiset{Project(a[0])} + multiset(ProjectAll(a[1..]))
  {
    assert ProjectAll(a) == [Project(a[0])] + ProjectAll(a[1..]);
  }

  /** Projecting two orderings of the same rows gives the same points. */
  lemma {:induction false} ProjectPermutation(a: seq<Row>, b: seq<Row>)
    requires multiset(a) == multiset(b)
    ensures multiset(ProjectAll(a)) == multiset(ProjectAll(b))
    decreases |a|
  {
    if |a| == 0 {
      assert |b| == |multiset(b)| == 0;
    } else {
      assert a[0] in multiset(b);
      var k :| 0 <= k < |b| && b[k] == a[0];
      var rest := b[..k] + b[k + 1..];
      TailsAgree(a, b, k);
      ProjectPermutation(a[1..], rest);
      ProjectRemove(b, k);
      ProjectFirst(a);
    }
  }

  /** `/api/data` lists every row's four columns in one of the orders
      `ORDER BY timestamp_unix ASC` allows. */
  lemma DataIsTimeOrdered(t: Table)
    ensures exists s :: IsTimeOrdering(t.rows, s) && Data(t) == ProjectAll(s)
  {
    var s := SortByTime(t.rows);
    assert IsTimeOrdering(t.rows, s) && Data(t) == ProjectAll(s);
  }

  /** When timestamps strictly increase, there is only one time ordering. */
  lemma {:induction false} TimeOrderingUnique(rows: seq<Row>, s: seq<Row>)
    requires forall i, j :: 0 <= i < j < |rows| ==> rows[i].timestampUnix < rows[j].timestampUnix
    requires IsTimeOrdering(rows, s)
    ensures s == rows
    decreases |rows|
  {
    if |rows| == 0 {
      assert |s| == |multiset(s)| == 0;
    } else {
      assert |s| == |multiset(s)| == |multiset(rows)| == |rows|;
      assert s[0] in multiset(rows);
      var k :| 0 <= k < |rows| && rows[k] == s[0];
      assert rows[0] in multiset(s);
      var m :| 0 <= m < |s| && s[m] == rows[0];
      assert s[0].timestampUnix <= s[m].timestampUnix;
      assert rows[k].timestampUnix <= rows[0].timestampUnix;
      assert k == 0;
      assert rows == [rows[0]] + rows[1..];
      assert s == [s[0]] + s[1..];
      assert multiset(rows) == multiset{rows[0]} + multiset(rows[1..]);
      assert multiset(s) == multiset{s[0]} + multiset(s[1..]);
      assert s[0] == rows[0];
      assert multiset(s[1..]) == multiset(s) - multiset{s[0]};
      assert multiset(rows[1..]) == multiset(rows) - multiset{rows[0]};
      TimeOrderingUnique(rows[1..], s[1..]);
    }
  }

  /** With timestamps that strictly increase in insertion order (one writer,
      one sample per second), `/api/data` lists the rows in insertion order. */
  lemma DataInInsertionOrder(t: Table)
    requires forall i, j :: 0 <= i < j < |t.rows| ==> t.rows[i].timestampUnix < t.rows[j].timestampUnix
    ensures Data(t) == ProjectAll(t.rows)
  {
    TimeOrderingUnique(t.rows, SortByTime(t.rows));
  }

  // ---------------------------------------------------------------------------
  // /api/analytics summary: MIN/MAX of longitude and altitude (NULLs ignored)

  datatype Column = Longitude | Altitude

  function Cell(r: Row, c: Column): Option<real> {
    match c
    case Longitude => r.longitude
    case Altitude => r.altitude
  }

  /** SQL `MIN(column)`: NULL when no row has a value, else the least value present. */
  function MinOf(rows: seq<Row>, c: Column): (m: Option<real>)
    ensures m.None? <==> forall i :: 0 <= i < |rows| ==> Cell(rows[i], c).None?
    ensures m.Some? ==> exists i :: 0 <= i < |rows| && Cell(rows[i], c) == m
    ensures m.Some? ==> forall i :: 0 <= i < |rows| && Cell(rows[i], c).Some? ==> m.value <= Cell(rows[i], c).value
  {
    if |rows| == 0 then None
    else
      var rest := MinOf(rows[..|rows| - 1], c);
      var last := Cell(rows[|rows| - 1], c);
      assert forall i :: 0 <= i < |rows| - 1 ==> rows[..|rows| - 1][i] == rows[i];
      if last.None? then rest
      else if rest.None? || last.value < rest.value then last
      else rest
  }

  /** SQL `MAX(column)`: NULL when no row has a value, else the greatest value present. */
  function MaxOf(rows: seq<Row>, c: Column): (m: Option<real>)
    ensures m.None? <==> forall i :: 0 <= i < |rows| ==> Cell(rows[i], c).None?
    ensures m.Some? ==> exists i :: 0 <= i < |rows| && Cell(rows[i], c) == m
    ensures m.Some? ==> forall i :: 0 <= i < |rows| && Cell(rows[i], c).Some? ==> Cell(rows[i], c).value <= m.value
  {
    if |rows| == 0 then None
    else
      var rest := MaxOf(rows[..|rows| - 1], c);
      var last := Cell(rows[|rows| - 1], c);
      assert forall i :: 0 <= i < |rows| - 1 ==> rows[..|rows| - 1][i] == rows[i];
      if last.None? then rest
      else if rest.None? || last.value > rest.value then last
      else rest
  }

  /** The `summary` object of `/api/analytics`. */
  datatype Summary = Summary(minLon: Option<real>, maxLon: Option<real>, minAlt: Option<real>, maxAlt: Option<real>)

  function Summarize(t: Table): (r: Summary)
    ensures |t.rows| == 0 ==> r == Summary(None, None, None, None)
    ensures r.minLon.Some? <==> r.maxLon.Some?
    ensures r.minLon.Some? ==> r.minLon.value <= r.maxLon.value
    ensures r.minAlt.Some? <==> r.maxAlt.Some?
    ensures r.minAlt.Some? ==> r.minAlt.value <= r.maxAlt.value
    ensures r.minAlt.Some? <==> exists i :: 0 <= i < |t.rows| && t.rows[i].altitude.Some?
    ensures r.minLon.Some? <==> exists i :: 0 <= i < |t.rows| && t.rows[i].longitude.Some?
  {
    Summary(MinOf(t.rows, Longitude), MaxOf(t.rows, Longitude), MinOf(t.rows, Altitude), MaxOf(t.rows, Altitude))
  }
}
