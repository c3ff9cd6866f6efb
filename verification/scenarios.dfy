/**
  Worked examples: the analytics queries on four samples whose altitudes are
  400, 405, 398 and 420, inserted with ids 1 to 4.
 */
module Scenarios {
  import opened Nullable
  import opened Store
  import opened Queries
  import opened Jumps

  /** A sample with only an id, an altitude and a timestamp. */
  function Sample(id: int, altitude: real): Row {
    Row(id, None, None, None, None, Some(altitude), None, id, "")
  }

  const Samples := [Sample(1, 400.0), Sample(2, 405.0), Sample(3, 398.0), Sample(4, 420.0)]

  /** Ranking three jumps whose deltas are 5, 7 and 22 reverses them. */
  lemma RankThree(j1: Jump, j2: Jump, j3: Jump)
    requires j1.delta == Some(5.0) && j2.delta == Some(7.0) && j3.delta == Some(22.0)
    ensures Rank([j1, j2, j3]) == [j3, j2, j1]
  {
    assert [j1, j2, j3][1..] == [j2, j3];
    assert [j2, j3][1..] == [j3];
    assert [j3][1..] == [];
    assert Rank([j3]) == [j3];
    InsertBelowOne(j2, j3);
    InsertBelowTwo(j1, j3, j2);
  }

  lemma InsertBelowOne(x: Jump, y: Jump)
    requires x.delta.Some? && y.delta.Some? && x.delta.value < y.delta.value
    ensures InsertRanked(x, [y]) == [y, x]
  {
    assert [y][1..] == [];
  }

  lemma InsertBelowTwo(x: Jump, y: Jump, z: Jump)
    requires x.delta.Some? && y.delta.Some? && z.delta.Some?
    requires x.delta.value < z.delta.value < y.delta.value
    ensures InsertRanked(x, [y, z]) == [y, z, x]
  {
    assert [y, z][1..] == [z];
    InsertBelowOne(x, z);
  }

  lemma SamplesDense()
    ensures Dense(Table(Samples, 4))
  {
  }

  lemma SamplesConsecutive()
    ensures ConsecutiveJumps(Samples) == [MakeJump(Samples[0], Samples[1]), MakeJump(Samples[1], Samples[2]), MakeJump(Samples[2], Samples[3])]
  {
    var cj := ConsecutiveJumps(Samples);
    assert cj[0] == MakeJump(Samples[0], Samples[1]);
    assert cj[1] == MakeJump(Samples[1], Samples[2]);
    assert cj[2] == MakeJump(Samples[2], Samples[3]);
  }

  /** The samples have ids 1 to 4, so the join pairs each with the next. */
  lemma AdjacentExample()
    ensures AdjacentJumps(Samples) == [MakeJump(Samples[0], Samples[1]), MakeJump(Samples[1], Samples[2]), MakeJump(Samples[2], Samples[3])]
  {
    SamplesDense();
    DenseJumps(Table(Samples, 4));
    SamplesConsecutive();
  }

  lemma ExampleDeltas()
    ensures MakeJump(Samples[0], Samples[1]).delta == Some(5.0)
    ensures MakeJump(Samples[1], Samples[2]).delta == Some(7.0)
    ensures MakeJump(Samples[2], Samples[3]).delta == Some(22.0)
  {
  }

  /** Keeping the top five of three jumps whose deltas are 5, 7 and 22 keeps all three, largest first. */
  lemma TopThree(j1: Jump, j2: Jump, j3: Jump)
    requires j1.delta == Some(5.0) && j2.delta == Some(7.0) && j3.delta == Some(22.0)
    ensures Top([j1, j2, j3]) == [j3, j2, j1]
  {
    RankThree(j1, j2, j3);
    assert [j3, j2, j1][..3] == [j3, j2, j1];
  }

  /** The jumps are 5, 7 and 22; all three are reported, largest first. */
  lemma JumpExample()
    ensures TopJumps(Samples) == [MakeJump(Samples[2], Samples[3]), MakeJump(Samples[1], Samples[2]), MakeJump(Samples[0], Samples[1])]
    ensures TopJumps(Samples)[0].delta == Some(22.0)
    ensures TopJumps(Samples)[1].delta == Some(7.0)
    ensures TopJumps(Samples)[2].delta == Some(5.0)
  {
    ExampleDeltas();
    AdjacentExample();
    TopThree(MakeJump(Samples[0], Samples[1]), MakeJump(Samples[1], Samples[2]), MakeJump(Samples[2], Samples[3]));
  }

  lemma MinAltitudeExample()
    ensures MinOf(Samples, Altitude) == Some(398.0)
  {
    var m := MinOf(Samples, Altitude);
    assert Cell(Samples[2], Altitude) == Some(398.0);
    var i :| 0 <= i < |Samples| && Cell(Samples[i], Altitude) == m;
    assert 398.0 <= Cell(Samples[i], Altitude).value;
  }

  lemma MaxAltitudeExample()
    ensures MaxOf(Samples, Altitude) == Some(420.0)
  {
    var m := MaxOf(Samples, Altitude);
    assert Cell(Samples[3], Altitude) == Some(420.0);
    var i :| 0 <= i < |Samples| && Cell(Samples[i], Altitude) == m;
    assert Cell(Samples[i], Altitude).value <= 420.0;
  }

  lemma NoLongitudeExample()
    ensures MinOf(Samples, Longitude) == None && MaxOf(Samples, Longitude) == None
  {
    assert forall i :: 0 <= i < |Samples| ==> Cell(Samples[i], Longitude).None?;
  }

  /** The altitude extremes are 398 and 420; no longitude was recorded, so both longitude fields are NULL. */
  lemma SummaryExample()
    ensures Summarize(Table(Samples, 4)) == Summary(None, None, Some(398.0), Some(420.0))
  {
    MinAltitudeExample();
    MaxAltitudeExample();
    NoLongitudeExample();
  }
}
