/** The convergence loop of the engine's fit, as a function: rounds of
    assignment and update until an assignment step changes no id. */
module Lloyd {
  import opened Common
  import opened Geometry
  import opened Assignment
  import opened Update

  /** What a run leaves behind: the ids of the last assignment step, the
      centres after the last update step, and whether the run stopped because
      an assignment step changed nothing (rather than running out of rounds). */
  datatype FitState = FitState(labels: seq<Byte>, centers: seq<Point>, converged: bool)

  /** At most fuel rounds from the centres `centers`. `prev` holds the ids the
      next assignment is compared with; None means there is nothing to compare
      with yet, so the round cannot end the run. Every id the run leaves names
      one of the centres, provided the ids it started from did. */
  function Iterate(points: seq<Point>, prev: Option<seq<Byte>>, centers: seq<Point>, fuel: nat): (r: FitState)
    requires |centers| > 0 || |points| == 0
    requires prev.Some? ==> |prev.value| == |points|
    ensures |r.labels| == |points| && |r.centers| == |centers|
    ensures |centers| > 0 && (prev.Some? ==> forall i :: 0 <= i < |prev.value| ==> prev.value[i] < |centers|) ==>
      forall i :: 0 <= i < |r.labels| ==> r.labels[i] < |centers|
    decreases fuel
  {
    if fuel == 0 then
      FitState(if prev.Some? then prev.value else Zeros(|points|), centers, false)
    else
      var ids := Assign(points, centers);
      var next := UpdateCenters(points, ids, centers);
      if prev.Some? && Changes(prev.value, ids) == 0 then FitState(ids, next, true)
      else Iterate(points, Some(ids), next, fuel - 1)
  }

  /** The engine's fit as written: the ids start as all zeros, and the first
      assignment step is compared with them. */
  function Run(points: seq<Point>, start: seq<Point>, fuel: nat): (r: FitState)
    requires |start| > 0 || |points| == 0
    ensures |r.labels| == |points| && |r.centers| == |start|
    ensures |start| > 0 ==> forall i :: 0 <= i < |r.labels| ==> r.labels[i] < |start|
  {
    Iterate(points, Some(Zeros(|points|)), start, fuel)
  }

  /** The run as evidently intended: the first round never ends it. */
  function RunCorrected(points: seq<Point>, start: seq<Point>, fuel: nat): (r: FitState)
    requires |start| > 0 || |points| == 0
    ensures |r.labels| == |points| && |r.centers| == |start|
    ensures |start| > 0 ==> forall i :: 0 <= i < |r.labels| ==> r.labels[i] < |start|
  {
    Iterate(points, None, start, fuel)
  }

  /** A pair of ids and centres that Lloyd's algorithm leaves unchanged: the
      assignment step reproduces the ids and the update step the centres. */
  predicate IsFixedPoint(points: seq<Point>, ids: seq<Byte>, centers: seq<Point>)
    requires |points| == |ids|
  {
    Assign(points, centers) == ids && UpdateCenters(points, ids, centers) == centers
  }

  /** Whenever the ids compared with come from a real assignment step (and
      the centres from the update that followed it), a run that stops by
      convergence stops at a fixed point. */
  lemma {:induction false} IterateConvergesToFixedPoint(points: seq<Point>, prev: Option<seq<Byte>>,
                                                        before: seq<Point>, centers: seq<Point>, fuel: nat)
    requires |centers| > 0 || |points| == 0
    requires prev.Some? ==> |prev.value| == |points|
    requires prev.Some? ==> prev.value == Assign(points, before) && centers == UpdateCenters(points, prev.value, before)
    ensures Iterate(points, prev, centers, fuel).converged ==>
      IsFixedPoint(points, Iterate(points, prev, centers, fuel).labels, Iterate(points, prev, centers, fuel).centers)
    decreases fuel
  {
    if fuel > 0 {
      var ids := Assign(points, centers);
      var next := UpdateCenters(points, ids, centers);
      if prev.Some? && Changes(prev.value, ids) == 0 {
        ChangesZeroIff(prev.value, ids);
        UpdateIdempotent(points, ids, before);
      } else {
        IterateConvergesToFixedPoint(points, Some(ids), centers, next, fuel - 1);
      }
    }
  }

  /** The corrected run stops only at a fixed point. */
  lemma RunCorrectedConvergesToFixedPoint(points: seq<Point>, start: seq<Point>, fuel: nat)
    requires |start| > 0 || |points| == 0
    ensures RunCorrected(points, start, fuel).converged ==>
      IsFixedPoint(points, RunCorrected(points, start, fuel).labels, RunCorrected(points, start, fuel).centers)
  {
    IterateConvergesToFixedPoint(points, None, start, start, fuel);
  }

  /** The two runs differ only when the first assignment step gives every
      point id 0: otherwise the first comparison with the all-zero fill counts
      changes, and from then on both runs make the same rounds. */
  lemma RunAgreesUnlessFirstAssignmentIsZero(points: seq<Point>, start: seq<Point>, fuel: nat)
    requires |start| > 0 || |points| == 0
    requires Assign(points, start) != Zeros(|points|)
    ensures Run(points, start, fuel) == RunCorrected(points, start, fuel)
  {
    ChangesZeroIff(Zeros(|points|), Assign(points, start));
  }

  /** As written, the first round ends the run when every point is nearest
      to centre 0: the ids then equal the zero fill. Two points on a line and
      two centres show the result is then not a fixed point: the point at 4
      is nearer to the moved centre 10 than to the new mean -3. */
  lemma RunStopsBeforeFixedPoint()
    ensures var points := [Point(-10.0, 0.0), Point(4.0, 0.0)];
            var r := Run(points, [Point(0.0, 0.0), Point(10.0, 0.0)], 1);
            r.converged && r.centers == [Point(-3.0, 0.0), Point(10.0, 0.0)] &&
            !IsFixedPoint(points, r.labels, r.centers)
  {
    var points := [Point(-10.0, 0.0), Point(4.0, 0.0)];
    var start := [Point(0.0, 0.0), Point(10.0, 0.0)];
    var ids := Assign(points, start);
    assert Nearest(points[0], start) == 0;
    assert Nearest(points[1], start) == 0;
    assert ids == [0, 0];
    ChangesZeroIff(Zeros(2), ids);
    var next := UpdateCenters(points, ids, start);
    assert Members(points, ids, 0, 2) == points;
    assert Members(points, ids, 1, 2) == [];
    assert points[..1] == [Point(-10.0, 0.0)] && points[..1][..0] == [];
    assert Sum(points) == Point(-6.0, 0.0);
    assert next[0] == Mean(points) == Point(-3.0, 0.0);
    assert next == [Point(-3.0, 0.0), Point(10.0, 0.0)];
    assert Nearest(points[1], next) == 1;
    assert Assign(points, next)[1] == 1;
  }
}
