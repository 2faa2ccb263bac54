/** The assignment step of Lloyd's algorithm: every point goes to the centre
    nearest to it, the lowest index winning ties, and the engine counts the
    points whose cluster id changed. */
module Assignment {
  import opened Common
  import opened Geometry

  /** j is the lowest index, among the first n centres, at minimum squared
      distance from p: no centre is nearer, and every centre before j is
      strictly farther. */
  predicate IsNearestIn(p: Point, centers: seq<Point>, n: nat, j: nat)
    requires n <= |centers|
  {
    && j < n
    && (forall i :: 0 <= i < n ==> SqDist(p, centers[j]) <= SqDist(p, centers[i]))
    && (forall i :: 0 <= i < j ==> SqDist(p, centers[j]) < SqDist(p, centers[i]))
  }

  /** The scan of the first n centres in index order, keeping a candidate that
      only a strictly nearer centre replaces. */
  function NearestIn(p: Point, centers: seq<Point>, n: nat): (j: nat)
    requires 0 < n <= |centers|
    ensures IsNearestIn(p, centers, n, j)
  {
    if n == 1 then 0
    else
      var j := NearestIn(p, centers, n - 1);
      if SqDist(p, centers[n - 1]) < SqDist(p, centers[j]) then n - 1 else j
  }

  /** At most one index satisfies the tie-breaking rule. */
  lemma NearestUnique(p: Point, centers: seq<Point>, n: nat, j1: nat, j2: nat)
    requires n <= |centers|
    requires IsNearestIn(p, centers, n, j1) && IsNearestIn(p, centers, n, j2)
    ensures j1 == j2
  {
    // both are at the minimum distance, so neither is strictly nearer
    assert SqDist(p, centers[j1]) == SqDist(p, centers[j2]);
  }

  /** The centre index the assignment step picks for p; with no centre at all
      the id keeps its initial value 0. */
  function Nearest(p: Point, centers: seq<Point>): (j: nat)
    ensures |centers| > 0 ==> IsNearestIn(p, centers, |centers|, j)
    ensures |centers| == 0 ==> j == 0
  {
    if |centers| == 0 then 0 else NearestIn(p, centers, |centers|)
  }

  /** The inner loop of the assignment step for one point: the running minimum
      starts as "no candidate yet" (the source's largest double), and a centre
      replaces the candidate only when it is strictly nearer. */
  method NearestCenter(point: Point, centers: seq<Point>) returns (clusterId: nat)
    ensures |centers| > 0 ==> IsNearestIn(point, centers, |centers|, clusterId)
    ensures |centers| == 0 ==> clusterId == 0
    ensures clusterId == Nearest(point, centers)
  {
    var minDist: Option<real> := None;
    clusterId := 0;
    for i := 0 to |centers|
      invariant i == 0 ==> minDist == None && clusterId == 0
      invariant i > 0 ==> IsNearestIn(point, centers, i, clusterId)
      invariant i > 0 ==> minDist == Some(SqDist(point, centers[clusterId]))
    {
      var dist := SqDist(point, centers[i]);
      if minDist.None? || dist < minDist.value {
        minDist := Some(dist);
        clusterId := i;
      }
    }
    if |centers| > 0 {
      NearestUnique(point, centers, |centers|, clusterId, Nearest(point, centers));
    }
  }

  /** The ids the assignment step gives the points, each stored as an 8-bit id. */
  function Assign(points: seq<Point>, centers: seq<Point>): (ids: seq<Byte>)
    ensures |ids| == |points|
    ensures forall i :: 0 <= i < |points| && |centers| > 0 ==> ids[i] < |centers|
    ensures forall i :: 0 <= i < |points| && |centers| == 0 ==> ids[i] == 0
  {
    seq(|points|, i requires 0 <= i < |points| => ToByte(Nearest(points[i], centers)))
  }

  /** With at most 256 centres no id wraps, so each id is exactly the
      lowest-index nearest centre of its point. */
  lemma AssignIsNearest(points: seq<Point>, centers: seq<Point>, i: nat)
    requires 0 < |centers| <= 256 && i < |points|
    ensures IsNearestIn(points[i], centers, |centers|, Assign(points, centers)[i])
  {
  }

  /** The number of positions below n at which two assignments differ. */
  function ChangesIn(before: seq<Byte>, after: seq<Byte>, n: nat): (count: nat)
    requires n <= |before| && n <= |after|
    ensures count <= n
  {
    if n == 0 then 0
    else ChangesIn(before, after, n - 1) + (if before[n - 1] != after[n - 1] then 1 else 0)
  }

  /** The number of points whose id differs between two assignments. */
  function Changes(before: seq<Byte>, after: seq<Byte>): (count: nat)
    requires |before| == |after|
    ensures count <= |before|
  {
    ChangesIn(before, after, |before|)
  }

  /** The count is exactly the size of the set of positions that differ. */
  lemma {:induction false} ChangesInIsCardinality(before: seq<Byte>, after: seq<Byte>, n: nat)
    requires n <= |before| && n <= |after|
    ensures ChangesIn(before, after, n) == |set i | 0 <= i < n && before[i] != after[i]|
  {
    var s := set i | 0 <= i < n && before[i] != after[i];
    if n > 0 {
      ChangesInIsCardinality(before, after, n - 1);
      var s' := set i | 0 <= i < n - 1 && before[i] != after[i];
      if before[n - 1] != after[n - 1] {
        assert s == s' + {n - 1};
      } else {
        assert s == s';
      }
    } else {
      assert s == {};
    }
  }

  /** No change is counted exactly when the two assignments are equal. */
  lemma {:induction false} ChangesInZeroIff(before: seq<Byte>, after: seq<Byte>, n: nat)
    requires n <= |before| && n <= |after|
    ensures ChangesIn(before, after, n) == 0 <==> before[..n] == after[..n]
  {
    if n > 0 {
      ChangesInZeroIff(before, after, n - 1);
      assert before[..n] == before[..n - 1] + [before[n - 1]];
      assert after[..n] == after[..n - 1] + [after[n - 1]];
      if before[..n] == after[..n] {
        assert before[..n - 1] == before[..n][..n - 1];
        assert after[..n - 1] == after[..n][..n - 1];
        assert before[n - 1] == before[..n][n - 1];
      }
    }
  }

  lemma ChangesZeroIff(before: seq<Byte>, after: seq<Byte>)
    requires |before| == |after|
    ensures Changes(before, after) == 0 <==> before == after
  {
    ChangesInZeroIff(before, after, |before|);
    assert before[..|before|] == before;
    assert after[..|after|] == after;
  }
}
