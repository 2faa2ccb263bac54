/** The quantity Lloyd's algorithm lowers: the sum, over all points, of the
    squared distance from the point to the centre of its cluster. Neither
    step of a round can increase it. */
module Objective {
  import opened Common
  import opened Geometry
  import opened Assignment
  import opened Update

  /** Every id names a centre. */
  predicate ValidIds(ids: seq<Byte>, k: nat)
  {
    forall i :: 0 <= i < |ids| ==> ids[i] < k
  }

  /** The squared distances of the first n points to the centres of their
      clusters, summed. */
  function Cost(points: seq<Point>, ids: seq<Byte>, centers: seq<Point>, n: nat): (s: real)
    requires n <= |points| && n <= |ids| && ValidIds(ids, |centers|)
    ensures s >= 0.0
  {
    if n == 0 then 0.0 else Cost(points, ids, centers, n - 1) + SqDist(points[n - 1], centers[ids[n - 1]])
  }

  /** The squared distances to q of the points among the first n whose id is c. */
  function ClusterPart(points: seq<Point>, ids: seq<Byte>, q: Point, c: nat, n: nat): (s: real)
    requires n <= |points| && n <= |ids|
  {
    if n == 0 then 0.0
    else ClusterPart(points, ids, q, c, n - 1) + (if ids[n - 1] == c then SqDist(points[n - 1], q) else 0.0)
  }

  /** The same sum taken cluster by cluster over the first k clusters. */
  function ClusterCost(points: seq<Point>, ids: seq<Byte>, centers: seq<Point>, n: nat, k: nat): (s: real)
    requires n <= |points| && n <= |ids| && k <= |centers|
  {
    if k == 0 then 0.0
    else ClusterCost(points, ids, centers, n, k - 1) + ClusterPart(points, ids, centers[k - 1], k - 1, n)
  }

  /** A cluster's part of the cost is the spread of its members around q. */
  lemma {:induction false} ClusterPartIsSpread(points: seq<Point>, ids: seq<Byte>, q: Point, c: nat, n: nat)
    requires n <= |points| && n <= |ids|
    ensures ClusterPart(points, ids, q, c, n) == Spread(Members(points, ids, c, n), q)
  {
    if n > 0 {
      ClusterPartIsSpread(points, ids, q, c, n - 1);
      MembersStep(points, ids, c, n - 1);
      if ids[n - 1] == c {
        SpreadAppend(Members(points, ids, c, n - 1), points[n - 1], q);
      }
    }
  }

  /** No other choice of ids for the same centres costs less than the
      assignment step's (with at most 256 centres, so that no id wraps). */
  lemma AssignMinimisesCost(points: seq<Point>, centers: seq<Point>, ids: seq<Byte>)
    requires 0 < |centers| <= 256 && |ids| == |points| && ValidIds(ids, |centers|)
    ensures ValidIds(Assign(points, centers), |centers|)
    ensures Cost(points, Assign(points, centers), centers, |points|) <= Cost(points, ids, centers, |points|)
  {
    var a := Assign(points, centers);
    forall i | 0 <= i < |points|
      ensures SqDist(points[i], centers[a[i]]) <= SqDist(points[i], centers[ids[i]])
    {
      AssignIsNearest(points, centers, i);
    }
    CostMonotone(points, a, ids, centers, |points|);
  }

  /** Ids that put every point no farther from its centre cost no more. */
  lemma {:induction false} CostMonotone(points: seq<Point>, ids: seq<Byte>, ids': seq<Byte>, centers: seq<Point>, n: nat)
    requires n <= |points| && n <= |ids| && n <= |ids'|
    requires ValidIds(ids, |centers|) && ValidIds(ids', |centers|)
    requires forall i :: 0 <= i < n ==> SqDist(points[i], centers[ids[i]]) <= SqDist(points[i], centers[ids'[i]])
    ensures Cost(points, ids, centers, n) <= Cost(points, ids', centers, n)
  {
    if n > 0 {
      CostMonotone(points, ids, ids', centers, n - 1);
    }
  }

  /** Adding point n to the clusters adds its distance to its own centre. */
  lemma {:induction false} ClusterCostStep(points: seq<Point>, ids: seq<Byte>, centers: seq<Point>, n: nat, k: nat)
    requires n < |points| && n < |ids| && k <= |centers|
    ensures ClusterCost(points, ids, centers, n + 1, k)
         == ClusterCost(points, ids, centers, n, k) + (if ids[n] < k then SqDist(points[n], centers[ids[n]]) else 0.0)
  {
    if k > 0 {
      ClusterCostStep(points, ids, centers, n, k - 1);
    }
  }

  /** Summing point by point and cluster by cluster give the same cost. */
  lemma {:induction false} CostByCluster(points: seq<Point>, ids: seq<Byte>, centers: seq<Point>, n: nat)
    requires n <= |points| && n <= |ids| && ValidIds(ids, |centers|)
    ensures Cost(points, ids, centers, n) == ClusterCost(points, ids, centers, n, |centers|)
  {
    if n == 0 {
      ClusterCostEmpty(points, ids, centers, |centers|);
    } else {
      CostByCluster(points, ids, centers, n - 1);
      ClusterCostStep(points, ids, centers, n - 1, |centers|);
    }
  }

  lemma {:induction false} ClusterCostEmpty(points: seq<Point>, ids: seq<Byte>, centers: seq<Point>, k: nat)
    requires k <= |centers|
    ensures ClusterCost(points, ids, centers, 0, k) == 0.0
  {
    if k > 0 {
      ClusterCostEmpty(points, ids, centers, k - 1);
    }
  }

  /** Moving every non-empty cluster's centre to its mean does not increase
      any cluster's part of the cost. */
  lemma {:induction false} UpdateLowersClusterCost(points: seq<Point>, ids: seq<Byte>, centers: seq<Point>, k: nat)
    requires |ids| == |points| && k <= |centers|
    ensures ClusterCost(points, ids, UpdateCenters(points, ids, centers), |points|, k)
         <= ClusterCost(points, ids, centers, |points|, k)
  {
    if k > 0 {
      var c := k - 1;
      UpdateLowersClusterCost(points, ids, centers, c);
      var ms := Members(points, ids, c, |points|);
      var next := UpdateCenters(points, ids, centers);
      ClusterPartIsSpread(points, ids, centers[c], c, |points|);
      ClusterPartIsSpread(points, ids, next[c], c, |points|);
      if |ms| > 0 {
        MeanMinimisesSpread(ms, centers[c]);
      }
    }
  }

  /** The update step never increases the cost of the ids it was computed from. */
  lemma UpdateLowersCost(points: seq<Point>, ids: seq<Byte>, centers: seq<Point>)
    requires |ids| == |points| && ValidIds(ids, |centers|)
    ensures Cost(points, ids, UpdateCenters(points, ids, centers), |points|) <= Cost(points, ids, centers, |points|)
  {
    var next := UpdateCenters(points, ids, centers);
    CostByCluster(points, ids, centers, |points|);
    CostByCluster(points, ids, next, |points|);
    UpdateLowersClusterCost(points, ids, centers, |centers|);
  }

  /** One round of Lloyd's algorithm (assignment, then update) never
      increases the cost: from any ids and centres, the new ids with the new
      centres cost at most what the old ids with the old centres did. */
  lemma RoundLowersCost(points: seq<Point>, ids: seq<Byte>, centers: seq<Point>)
    requires 0 < |centers| <= 256 && |ids| == |points| && ValidIds(ids, |centers|)
    ensures ValidIds(Assign(points, centers), |centers|)
    ensures Cost(points, Assign(points, centers), UpdateCenters(points, Assign(points, centers), centers), |points|)
         <= Cost(points, ids, centers, |points|)
  {
    var a := Assign(points, centers);
    AssignMinimisesCost(points, centers, ids);
    UpdateLowersCost(points, a, centers);
  }
}
