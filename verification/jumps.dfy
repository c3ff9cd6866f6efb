/**
  The "largest altitude jumps" half of `/api/analytics`: the self-join of the
  telemetry table on `t2.id = t1.id + 1`, ordered by `delta` descending and cut
  at five rows. SQL fixes no order among equal deltas, so the contracts only
  ask for a non-increasing order.
 */
module Jumps {
  import opened Nullable
  import opened Store

  /** The `LIMIT` of the jump query. */
  const Limit := 5

  /** One row of the jump query: both samples' `ts_utc` and altitude, and the
      absolute altitude difference (NULL when either altitude is NULL). */
  datatype Jump = Jump(t1: string, a1: Option<real>, t2: string, a2: Option<real>, delta: Option<real>)

  function Min(a: int, b: int): int {
    if a < b then a else b
  }

  /** SQL `ABS`. */
  function Abs(x: real): real {
    if x < 0.0 then -x else x
  }

  /** The jump row the join produces for the pair (r1, r2). */
  function MakeJump(r1: Row, r2: Row): (j: Jump)
    ensures j.t1 == r1.tsUtc && j.t2 == r2.tsUtc && j.a1 == r1.altitude && j.a2 == r2.altitude
    ensures j.delta.Some? <==> r1.altitude.Some? && r2.altitude.Some?
    ensures j.delta.Some? ==> 0.0 <= j.delta.value
    ensures j.delta.Some? ==>
      j.delta.value == r2.altitude.value - r1.altitude.value || j.delta.value == r1.altitude.value - r2.altitude.value
  {
    var delta := if r1.altitude.Some? && r2.altitude.Some? then Some(Abs(r2.altitude.value - r1.altitude.value)) else None;
    Jump(r1.tsUtc, r1.altitude, r2.tsUtc, r2.altitude, delta)
  }

  /** SQLite's ascending order on a nullable real: NULL sorts below every number. */
  predicate AtMost(a: Option<real>, b: Option<real>) {
    a.None? || (b.Some? && a.value <= b.value)
  }

  /** Row j follows row i in id order with no id in between: the join condition. */
  predicate Adjacent(rows: seq<Row>, i: int, j: int) {
    0 <= i < |rows| && 0 <= j < |rows| && rows[j].id == rows[i].id + 1
  }

  /** Index pair p comes before q in the join's nested-loop order: by t1 row, then by t2 row. */
  predicate Before(p: (int, int), q: (int, int)) {
    p.0 < q.0 || (p.0 == q.0 && p.1 < q.1)
  }

  /** The inner loop of the join: outer row i paired with each of the first n
      rows whose id is row i's plus one, as index pairs. */
  function PartnerPairs(rows: seq<Row>, i: int, n: nat): seq<(int, int)>
    requires n <= |rows|
  {
    if n == 0 then []
    else PartnerPairs(rows, i, n - 1) + (if Adjacent(rows, i, n - 1) then [(i, n - 1)] else [])
  }

  /** The join with the first m rows as the t1 side and all rows as the t2 side. */
  function JoinPairs(rows: seq<Row>, m: nat): seq<(int, int)>
    requires m <= |rows|
  {
    if m == 0 then []
    else JoinPairs(rows, m - 1) + PartnerPairs(rows, m - 1, |rows|)
  }

  lemma {:induction false} PartnerPairsMembers(rows: seq<Row>, i: int, n: nat)
    requires n <= |rows|
    ensures forall k :: 0 <= k < |PartnerPairs(rows, i, n)| ==>
      PartnerPairs(rows, i, n)[k].0 == i && PartnerPairs(rows, i, n)[k].1 < n
    ensures forall k :: 0 <= k < |PartnerPairs(rows, i, n)| ==>
      Adjacent(rows, PartnerPairs(rows, i, n)[k].0, PartnerPairs(rows, i, n)[k].1)
    ensures forall a, b :: 0 <= a < b < |PartnerPairs(rows, i, n)| ==>
      PartnerPairs(rows, i, n)[a].1 < PartnerPairs(rows, i, n)[b].1
    ensures forall j :: 0 <= j < n && Adjacent(rows, i, j) ==> (i, j) in PartnerPairs(rows, i, n)
    decreases n
  {
    if n > 0 {
      PartnerPairsMembers(rows, i, n - 1);
      var pre, last := PartnerPairs(rows, i, n - 1), if Adjacent(rows, i, n - 1) then [(i, n - 1)] else [];
      var ps := pre + last;
      assert PartnerPairs(rows, i, n) == ps;
      forall k | 0 <= k < |ps|
        ensures ps[k].0 == i && ps[k].1 < n && Adjacent(rows, ps[k].0, ps[k].1)
      {
        if k < |pre| {
          assert ps[k] == pre[k];
        } else {
          assert ps[k] == last[0];
        }
      }
      forall a, b | 0 <= a < b < |ps|
        ensures ps[a].1 < ps[b].1
      {
        if b < |pre| {
          assert ps[a] == pre[a] && ps[b] == pre[b];
        } else {
          assert ps[a] == pre[a] && ps[b] == last[0];
        }
      }
      forall j | 0 <= j < n && Adjacent(rows, i, j)
        ensures (i, j) in ps
      {
        if j < n - 1 {
          assert (i, j) in pre;
        } else {
          assert ps[|pre|] == (i, j);
        }
      }
    }
  }

  /** The join of the first m t1 rows lists every adjacent-id pair whose t1 row
      is among them, each once, in nested-loop order. */
  lemma {:induction false} JoinPairsMembers(rows: seq<Row>, m: nat)
    requires m <= |rows|
    ensures forall k :: 0 <= k < |JoinPairs(rows, m)| ==> JoinPairs(rows, m)[k].0 < m
    ensures forall k :: 0 <= k < |JoinPairs(rows, m)| ==>
      Adjacent(rows, JoinPairs(rows, m)[k].0, JoinPairs(rows, m)[k].1)
    ensures forall a, b :: 0 <= a < b < |JoinPairs(rows, m)| ==> Before(JoinPairs(rows, m)[a], JoinPairs(rows, m)[b])
    ensures forall i, j :: 0 <= i < m && Adjacent(rows, i, j) ==> (i, j) in JoinPairs(rows, m)
    decreases m
  {
    if m > 0 {
      JoinPairsMembers(rows, m - 1);
      PartnerPairsMembers(rows, m - 1, |rows|);
      var pre, last := JoinPairs(rows, m - 1), PartnerPairs(rows, m - 1, |rows|);
      var ps := pre + last;
      assert JoinPairs(rows, m) == ps;
      forall k | 0 <= k < |ps|
        ensures ps[k].0 < m && Adjacent(rows, ps[k].0, ps[k].1)
      {
        if k < |pre| {
          assert ps[k] == pre[k];
        } else {
          assert ps[k] == last[k - |pre|];
        }
      }
      forall a, b | 0 <= a < b < |ps|
        ensures Before(ps[a], ps[b])
      {
        if b < |pre| {
          assert ps[a] == pre[a] && ps[b] == pre[b];
        } else if a < |pre| {
          assert ps[a] == pre[a] && ps[b] == last[b - |pre|];
          assert ps[a].0 < m - 1 == ps[b].0;
        } else {
          assert ps[a] == last[a - |pre|] && ps[b] == last[b - |pre|];
        }
      }
    }
  }

  /** The index pairs (i, j) the self-join matches: `rows[j].id = rows[i].id + 1`. */
  function AdjacentPairs(rows: seq<Row>): (ps: seq<(int, int)>)
    ensures forall k :: 0 <= k < |ps| ==> Adjacent(rows, ps[k].0, ps[k].1)
    ensures forall a, b :: 0 <= a < b < |ps| ==> ps[a] != ps[b]
    ensures forall i, j :: Adjacent(rows, i, j) ==> (i, j) in ps
  {
    JoinPairsMembers(rows, |rows|);
    JoinPairs(rows, |rows|)
  }

  /** The jump rows of the index pairs ps, in the same order. */
  function JumpsOf(rows: seq<Row>, ps: seq<(int, int)>): (js: seq<Jump>)
    requires forall k :: 0 <= k < |ps| ==> Adjacent(rows, ps[k].0, ps[k].1)
  {
    seq(|ps|, k requires 0 <= k < |ps| && Adjacent(rows, ps[k].0, ps[k].1) => MakeJump(rows[ps[k].0], rows[ps[k].1]))
  }

  /** Every pair of rows with adjacent ids, as jump rows: the join before
      `ORDER BY` and `LIMIT`. There is one jump per matching pair, so a jump
      occurs as often as pairs produce it. */
  function AdjacentJumps(rows: seq<Row>): (js: seq<Jump>)
    ensures |js| == |AdjacentPairs(rows)|
    ensures forall k :: 0 <= k < |js| ==>
      js[k] == MakeJump(rows[AdjacentPairs(rows)[k].0], rows[AdjacentPairs(rows)[k].1])
    ensures forall x :: x in js <==> exists i, j :: Adjacent(rows, i, j) && x == MakeJump(rows[i], rows[j])
  {
    var ps := AdjacentPairs(rows);
    var js := JumpsOf(rows, ps);
    forall i, j | Adjacent(rows, i, j)
      ensures MakeJump(rows[i], rows[j]) in js
    {
      var k :| 0 <= k < |ps| && ps[k] == (i, j);
      assert js[k] == MakeJump(rows[i], rows[j]);
    }
    js
  }

  /** Non-increasing in `delta`, NULL deltas last: an order `ORDER BY delta DESC` may return. */
  predicate Ranked(js: seq<Jump>) {
    forall i, j :: 0 <= i < j < |js| ==> AtMost(js[j].delta, js[i].delta)
  }

  function InsertRanked(x: Jump, js: seq<Jump>): (r: seq<Jump>)
    requires Ranked(js)
    ensures Ranked(r)
    ensures multiset(r) == multiset(js) + multiset{x}
  {
    if |js| == 0 then [x]
    else if AtMost(js[0].delta, x.delta) then [x] + js
    else
      var rest := InsertRanked(x, js[1..]);
      assert js == [js[0]] + js[1..];
      HeadAboveInsert(x, js, rest);
      [js[0]] + rest
  }

  /** Inserting a smaller jump into the tail of a ranked list keeps its head first. */
  lemma HeadAboveInsert(x: Jump, js: seq<Jump>, rest: seq<Jump>)
    requires Ranked(js) && |js| > 0 && !AtMost(js[0].delta, x.delta)
    requires multiset(rest) == multiset(js[1..]) + multiset{x}
    ensures forall k :: 0 <= k < |rest| ==> AtMost(rest[k].delta, js[0].delta)
  {
    forall k | 0 <= k < |rest|
      ensures AtMost(rest[k].delta, js[0].delta)
    {
      assert rest[k] in multiset(rest);
      if rest[k] != x {
        assert rest[k] in multiset(js[1..]);
        var m :| 0 <= m < |js[1..]| && js[1..][m] == rest[k];
        assert js[m + 1] == rest[k];
      }
    }
  }

  /** A stable insertion sort by `delta`, largest first. */
  function Rank(js: seq<Jump>): (r: seq<Jump>)
    ensures Ranked(r)
    ensures multiset(r) == multiset(js)
  {
    if |js| == 0 then []
    else
      assert js == [js[0]] + js[1..];
      InsertRanked(js[0], Rank(js[1..]))
  }

  /** `ORDER BY delta DESC LIMIT 5` applied to the jump rows `js`. */
  function Top(js: seq<Jump>): (r: seq<Jump>)
    ensures |r| == Min(Limit, |js|)
    ensures multiset(r) <= multiset(js)
    ensures Ranked(r)
    ensures forall x :: x in multiset(js) - multiset(r) ==>
      forall k :: 0 <= k < |r| ==> AtMost(x.delta, r[k].delta)
  {
    var ranked := Rank(js);
    assert |ranked| == |multiset(ranked)| == |multiset(js)| == |js|;
    var n := Min(Limit, |ranked|);
    RankedPrefixIsTop(ranked, n);
    ranked[..n]
  }

  /** The jump list of `/api/analytics`: min(5, number of adjacent-id pairs)
      of the join's jumps, each taken at most as often as the join yields it,
      largest first, and no jump left out is larger than one reported. */
  function TopJumps(rows: seq<Row>): (r: seq<Jump>)
    ensures |r| == Min(Limit, |AdjacentPairs(rows)|)
    ensures multiset(r) <= multiset(AdjacentJumps(rows))
    ensures forall x :: x in r ==> exists i, j :: Adjacent(rows, i, j) && x == MakeJump(rows[i], rows[j])
    ensures Ranked(r)
    ensures forall x :: x in multiset(AdjacentJumps(rows)) - multiset(r) ==>
      forall k :: 0 <= k < |r| ==> AtMost(x.delta, r[k].delta)
  {
    var all := AdjacentJumps(rows);
    var top := Top(all);
    forall x | x in top
      ensures x in all
    {
      assert x in multiset(top);
    }
    top
  }

  /** The first n entries of a ranked list are its n largest. */
  lemma RankedPrefixIsTop(ranked: seq<Jump>, n: nat)
    requires Ranked(ranked)
    requires n <= |ranked|
    ensures multiset(ranked[..n]) <= multiset(ranked)
    ensures forall x :: x in multiset(ranked) - multiset(ranked[..n]) ==>
      forall k :: 0 <= k < n ==> AtMost(x.delta, ranked[k].delta)
  {
    var top, rest := ranked[..n], ranked[n..];
    assert ranked == top + rest;
    assert multiset(ranked) == multiset(top) + multiset(rest);
    assert multiset(ranked) - multiset(top) == multiset(rest);
    forall x: Jump | x in multiset(rest)
      ensures forall k :: 0 <= k < n ==> AtMost(x.delta, ranked[k].delta)
    {
      var m :| 0 <= m < |rest| && rest[m] == x;
      assert ranked[n + m] == x;
    }
  }

  /** The jump from each row to the next one, in row order. */
  function ConsecutiveJumps(rows: seq<Row>): (js: seq<Jump>)
    ensures |js| == if |rows| < 2 then 0 else |rows| - 1
    ensures forall k :: 0 <= k < |js| ==> js[k] == MakeJump(rows[k], rows[k + 1])
  {
    seq(if |rows| < 2 then 0 else |rows| - 1, k requires 0 <= k < |rows| - 1 => MakeJump(rows[k], rows[k + 1]))
  }

  /** The pairs (k, k + 1) for k < c: each row with the next one. */
  function Consecutive(c: nat): (ps: seq<(int, int)>)
    ensures |ps| == c
    ensures forall k :: 0 <= k < c ==> ps[k] == (k, k + 1)
  {
    seq(c, k => (k, k + 1))
  }

  lemma ConsecutiveSnoc(c: nat)
    ensures Consecutive(c + 1) == Consecutive(c) + [(c, c + 1)]
  {
    var l, r := Consecutive(c + 1), Consecutive(c) + [(c, c + 1)];
    assert forall k :: 0 <= k < c + 1 ==> l[k] == r[k];
  }

  /** With ids 1..n, row i pairs with exactly row i + 1, if it is among the first n rows. */
  lemma {:induction false} DensePartnerPairs(rows: seq<Row>, i: int, n: nat)
    requires forall j :: 0 <= j < |rows| ==> rows[j].id == j + 1
    requires 0 <= i < |rows| && n <= |rows|
    ensures PartnerPairs(rows, i, n) == if i + 1 < n then [(i, i + 1)] else []
    decreases n
  {
    if n > 0 {
      DensePartnerPairs(rows, i, n - 1);
    }
  }

  /** With ids 1..n, the join of the first m rows pairs each of them with its successor. */
  lemma {:induction false} DenseJoinPairs(rows: seq<Row>, m: nat)
    requires forall j :: 0 <= j < |rows| ==> rows[j].id == j + 1
    requires 0 < |rows| && m <= |rows|
    ensures JoinPairs(rows, m) == Consecutive(Min(m, |rows| - 1))
    decreases m
  {
    if m > 0 {
      DenseJoinPairs(rows, m - 1);
      DensePartnerPairs(rows, m - 1, |rows|);
      assert JoinPairs(rows, m) == JoinPairs(rows, m - 1) + PartnerPairs(rows, m - 1, |rows|);
      if m < |rows| {
        ConsecutiveSnoc(m - 1);
      }
    }
  }

  /** In a table filled only by inserts (ids 1..n) the join yields exactly the
      n - 1 jumps between consecutive rows, so min(5, n - 1) are reported. */
  lemma DenseJumps(t: Table)
    requires Dense(t)
    ensures AdjacentJumps(t.rows) == ConsecutiveJumps(t.rows)
    ensures |TopJumps(t.rows)| == if |t.rows| == 0 then 0 else Min(Limit, |t.rows| - 1)
  {
    if |t.rows| > 0 {
      DenseJoinPairs(t.rows, |t.rows|);
      var js, cj := AdjacentJumps(t.rows), ConsecutiveJumps(t.rows);
      assert forall k :: 0 <= k < |js| ==> js[k] == cj[k];
    }
  }
}
