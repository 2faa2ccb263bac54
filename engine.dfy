/** The clustering engine: its state (the id of every point, the centres and a
    generation counter) and the operations fit, classify and compare, each run
    sequentially. */
module Engine {
  import opened Common
  import opened Geometry
  import opened Assignment
  import opened Update
  import opened Lloyd

  class KMeansParallel {
    /** How many fits have completed. */
    var generation: int
    /** The cluster id of every point of the last fit. */
    var cluster: seq<Byte>
    /** The centres of the last fit. */
    var clusterCenters: seq<Point>

    constructor ()
      ensures generation == 0 && cluster == [] && clusterCenters == []
    {
      generation := 0;
      cluster := [];
      clusterCenters := [];
    }

    /** The assignment step: every point gets the id of its nearest centre,
        and the points whose id changed are counted. */
    method AssignStep(points: seq<Point>) returns (changes: nat)
      requires |cluster| == |points|
      modifies this`cluster
      ensures cluster == Assign(points, clusterCenters)
      ensures changes == Changes(old(cluster), cluster)
    {
      ghost var target := Assign(points, clusterCenters);
      changes := 0;
      for pointId := 0 to |points|
        invariant |cluster| == |points|
        invariant forall m :: 0 <= m < pointId ==> cluster[m] == target[m]
        invariant forall m :: pointId <= m < |points| ==> cluster[m] == old(cluster)[m]
        invariant changes == ChangesIn(old(cluster), target, pointId)
      {
        var nearest := NearestCenter(points[pointId], clusterCenters);
        var clusterId := ToByte(nearest);
        assert clusterId == target[pointId];
        ghost var before := cluster;
        if cluster[pointId] != clusterId {
          cluster := cluster[pointId := clusterId];
          changes := changes + 1;
        }
        assert before[pointId] == old(cluster)[pointId];
      }
    }

    /** The first pass of the update step: the number of points of every
        cluster and the sum of their coordinates. */
    method Accumulate(points: seq<Point>, k: nat) returns (clusterSize: seq<int>, clusterAverage: seq<Point>)
      requires |cluster| == |points|
      requires forall i :: 0 <= i < |cluster| ==> cluster[i] < k
      ensures |clusterSize| == k && |clusterAverage| == k
      ensures forall c :: 0 <= c < k ==> clusterSize[c] == |Members(points, cluster, c, |points|)|
      ensures forall c :: 0 <= c < k ==> clusterAverage[c] == Sum(Members(points, cluster, c, |points|))
    {
      clusterSize := seq(k, _ => 0);
      clusterAverage := seq(k, _ => Point(0.0, 0.0));
      for pointId := 0 to |points|
        invariant |clusterSize| == k && |clusterAverage| == k
        invariant forall c :: 0 <= c < k ==> clusterSize[c] == |Members(points, cluster, c, pointId)|
        invariant forall c :: 0 <= c < k ==> clusterAverage[c] == Sum(Members(points, cluster, c, pointId))
      {
        var pointGroup := cluster[pointId];
        var point := points[pointId];
        var size := clusterSize[pointGroup := clusterSize[pointGroup] + 1];
        var average := clusterAverage[pointGroup := Point(clusterAverage[pointGroup].x + point.x,
                                                          clusterAverage[pointGroup].y + point.y)];
        AccumulateStep(points, cluster, k, clusterSize, clusterAverage, pointId, size, average, pointId + 1);
        clusterSize, clusterAverage := size, average;
      }
    }

    /** The update step: the points of every cluster are counted and summed
        in one pass, then every centre with at least one point moves to the
        mean of its points, and an empty cluster keeps its centre. */
    method UpdateStep(points: seq<Point>)
      requires |cluster| == |points|
      requires forall i :: 0 <= i < |cluster| ==> cluster[i] < |clusterCenters|
      modifies this`clusterCenters
      ensures clusterCenters == UpdateCenters(points, cluster, old(clusterCenters))
    {
      var k := |clusterCenters|;
      var clusterSize, clusterAverage := Accumulate(points, k);
      ghost var target := UpdateCenters(points, cluster, clusterCenters);
      for i := 0 to k
        invariant |clusterCenters| == k
        invariant forall c :: 0 <= c < i ==> clusterCenters[c] == target[c]
        invariant forall c :: i <= c < k ==> clusterCenters[c] == old(clusterCenters)[c]
      {
        if clusterSize[i] > 0 {
          clusterCenters := clusterCenters[i := Point(clusterAverage[i].x / clusterSize[i] as real,
                                                      clusterAverage[i].y / clusterSize[i] as real)];
        }
      }
    }

    /** Lloyd's algorithm from the given starting centres: the ids start at
        zero, and rounds of assignment and update repeat until an assignment
        step changes no id, for at most fuel rounds. A fit that converges
        counts one more generation. */
    method Fit(points: seq<Point>, startPoints: seq<Point>, fuel: nat) returns (converged: bool)
      requires |startPoints| > 0 || |points| == 0
      modifies this
      ensures cluster == Run(points, startPoints, fuel).labels
      ensures clusterCenters == Run(points, startPoints, fuel).centers
      ensures converged == Run(points, startPoints, fuel).converged
      ensures generation == old(generation) + (if converged then 1 else 0)
      ensures |cluster| == |points| && |clusterCenters| == |startPoints|
      ensures |startPoints| > 0 ==> forall i :: 0 <= i < |cluster| ==> cluster[i] < |clusterCenters|
    {
      cluster := Zeros(|points|);
      clusterCenters := startPoints;
      var remaining := fuel;
      converged := false;
      while remaining > 0
        invariant |cluster| == |points| && |clusterCenters| == |startPoints|
        invariant Iterate(points, Some(cluster), clusterCenters, remaining) == Run(points, startPoints, fuel)
        invariant generation == old(generation) && !converged
        decreases remaining
      {
        var changes := AssignStep(points);
        UpdateStep(points);
        if changes == 0 {
          converged := true;
          break;
        }
        remaining := remaining - 1;
      }
      if converged {
        generation := generation + 1;
      }
    }

    /** The ids of the given points under the current centres, written into
        the caller's vector after resizing it to one entry per point. With no
        centre the entries are left as they were (new ones 0). Neither the
        centres nor the engine's own ids change. */
    method Classify(points: seq<Point>, labels: seq<Byte>) returns (result: seq<Byte>)
      ensures |result| == |points|
      ensures |clusterCenters| > 0 ==> result == Assign(points, clusterCenters)
      ensures |clusterCenters| == 0 ==> result == Resize(labels, |points|, 0)
    {
      result := Resize(labels, |points|, 0);
      ghost var resized := result;
      for i := 0 to |points|
        invariant |result| == |points|
        invariant |clusterCenters| > 0 ==> forall m :: 0 <= m < i ==> result[m] == Assign(points, clusterCenters)[m]
        invariant forall m :: i <= m < |points| ==> result[m] == resized[m]
        invariant |clusterCenters| == 0 ==> result == resized
      {
        var dist: Option<real> := None;
        ghost var best := 0;
        ghost var before := result;
        for j := 0 to |clusterCenters|
          invariant |result| == |points|
          invariant forall m :: 0 <= m < |points| && m != i ==> result[m] == before[m]
          invariant j == 0 ==> dist.None? && result[i] == before[i]
          invariant j > 0 ==> IsNearestIn(points[i], clusterCenters, j, best)
          invariant j > 0 ==> dist == Some(SqDist(points[i], clusterCenters[best])) && result[i] == ToByte(best)
        {
          var tempDist := SqDist(clusterCenters[j], points[i]);
          SqDistSymmetric(clusterCenters[j], points[i]);
          if dist.None? || tempDist < dist.value {
            result := result[i := ToByte(j)];
            dist := Some(tempDist);
            best := j;
          }
        }
        if |clusterCenters| > 0 {
          NearestUnique(points[i], clusterCenters, |clusterCenters|, best, Nearest(points[i], clusterCenters));
        }
      }
    }

    /** The number of positions where the second labelling agrees with the
        first one translated through the mapping; None when some label of the
        first labelling is not a key of the mapping (the lookup fails). */
    method Compare(first: seq<Byte>, second: seq<Byte>, mapping: map<nat, nat>) returns (r: Option<nat>)
      requires |first| == |second|
      ensures r.None? <==> exists i :: 0 <= i < |first| && first[i] !in mapping
      ensures r.Some? ==> r.value == Agreements(first, second, mapping, |first|)
    {
      var good := 0;
      for i := 0 to |first|
        invariant forall m :: 0 <= m < i ==> first[m] in mapping
        invariant good == Agreements(first, second, mapping, i)
      {
        if first[i] !in mapping {
          return None;
        }
        var clusterId := mapping[first[i]];
        if second[i] == clusterId {
          good := good + 1;
        }
      }
      return Some(good);
    }
  }

  /** The number of positions below n where the second labelling equals the
      first one translated through the mapping. */
  function Agreements(first: seq<Byte>, second: seq<Byte>, mapping: map<nat, nat>, n: nat): (count: nat)
    requires n <= |first| && n <= |second|
    requires forall i :: 0 <= i < n ==> first[i] in mapping
    ensures count <= n
  {
    if n == 0 then 0
    else Agreements(first, second, mapping, n - 1) + (if second[n - 1] == mapping[first[n - 1]] then 1 else 0)
  }

  /** The count is the size of the set of agreeing positions. */
  lemma {:induction false} AgreementsIsCardinality(first: seq<Byte>, second: seq<Byte>, mapping: map<nat, nat>, n: nat)
    requires n <= |first| && n <= |second|
    requires forall i :: 0 <= i < n ==> first[i] in mapping
    ensures Agreements(first, second, mapping, n) == |set i | 0 <= i < n && second[i] == mapping[first[i]]|
  {
    var s := set i | 0 <= i < n && second[i] == mapping[first[i]];
    if n > 0 {
      AgreementsIsCardinality(first, second, mapping, n - 1);
      var s' := set i | 0 <= i < n - 1 && second[i] == mapping[first[i]];
      if second[n - 1] == mapping[first[n - 1]] {
        assert s == s' + {n - 1};
      } else {
        assert s == s';
      }
    } else {
      assert s == {};
    }
  }

  /** Every position agrees exactly when the count reaches the length. */
  lemma {:induction false} AgreementsFullIff(first: seq<Byte>, second: seq<Byte>, mapping: map<nat, nat>, n: nat)
    requires n <= |first| && n <= |second|
    requires forall i :: 0 <= i < n ==> first[i] in mapping
    ensures Agreements(first, second, mapping, n) == n <==> forall i :: 0 <= i < n ==> second[i] == mapping[first[i]]
  {
    if n > 0 {
      AgreementsFullIff(first, second, mapping, n - 1);
    }
  }
}
