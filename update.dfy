/** The update step of Lloyd's algorithm: every centre moves to the mean of
    the points assigned to it, and a centre with no point stays where it is. */
module Update {
  import opened Common
  import opened Geometry

  /** The points among the first n whose id is c, in index order. */
  function Members(points: seq<Point>, ids: seq<Byte>, c: nat, n: nat): (ms: seq<Point>)
    requires n <= |points| && n <= |ids|
    ensures |ms| <= n
  {
    if n == 0 then []
    else
      Members(points, ids, c, n - 1) + (if ids[n - 1] == c then [points[n - 1]] else [])
  }

  lemma MembersStep(points: seq<Point>, ids: seq<Byte>, c: nat, n: nat)
    requires n < |points| && n < |ids|
    ensures Members(points, ids, c, n + 1) ==
      if ids[n] == c then Members(points, ids, c, n) + [points[n]] else Members(points, ids, c, n)
  {
    assert Members(points, ids, c, n) + [] == Members(points, ids, c, n);
  }

  /** Counting and summing the points of every cluster one point at a time:
      adding point n to the count and the sum of its own cluster turns the
      figures for the first n points into those for the first n + 1. */
  lemma AccumulateStep(points: seq<Point>, ids: seq<Byte>, k: nat, size: seq<int>, average: seq<Point>, n: nat,
                       size': seq<int>, average': seq<Point>, n': nat)
    requires n < |points| == |ids| && ids[n] < k && n' == n + 1
    requires |size| == k && |average| == k
    requires forall c :: 0 <= c < k ==> size[c] == |Members(points, ids, c, n)|
    requires forall c :: 0 <= c < k ==> average[c] == Sum(Members(points, ids, c, n))
    requires size' == size[ids[n] := size[ids[n]] + 1]
    requires average' == average[ids[n] := Point(average[ids[n]].x + points[n].x, average[ids[n]].y + points[n].y)]
    ensures forall c :: 0 <= c < k ==> size'[c] == |Members(points, ids, c, n')|
    ensures forall c :: 0 <= c < k ==> average'[c] == Sum(Members(points, ids, c, n'))
  {
    forall c | 0 <= c < k
      ensures size'[c] == |Members(points, ids, c, n')|
      ensures average'[c] == Sum(Members(points, ids, c, n'))
    {
      MembersStep(points, ids, c, n);
      if c == ids[n] {
        SumAppend(Members(points, ids, c, n), points[n]);
      }
    }
  }

  /** The coordinate-wise sum of a sequence of points. */
  function Sum(ps: seq<Point>): (s: Point)
    ensures (forall i :: 0 <= i < |ps| ==> ps[i].x >= 0.0) ==> s.x >= 0.0
    ensures (forall i :: 0 <= i < |ps| ==> ps[i].y >= 0.0) ==> s.y >= 0.0
  {
    if ps == [] then Point(0.0, 0.0)
    else
      var s := Sum(ps[..|ps| - 1]);
      Point(s.x + ps[|ps| - 1].x, s.y + ps[|ps| - 1].y)
  }

  /** The centroid: the arithmetic mean of the coordinates. */
  function Mean(ps: seq<Point>): (m: Point)
    requires |ps| > 0
    ensures Point(m.x * |ps| as real, m.y * |ps| as real) == Sum(ps)
  {
    var s := Sum(ps);
    Point(s.x / |ps| as real, s.y / |ps| as real)
  }

  /** The centres after one update step from the ids of all points. */
  function UpdateCenters(points: seq<Point>, ids: seq<Byte>, centers: seq<Point>): (next: seq<Point>)
    requires |points| == |ids|
    ensures |next| == |centers|
  {
    seq(|centers|, c requires 0 <= c < |centers| =>
      var ms := Members(points, ids, c, |points|);
      if |ms| > 0 then Mean(ms) else centers[c])
  }

  lemma SumAppend(ps: seq<Point>, p: Point)
    ensures Sum(ps + [p]) == Point(Sum(ps).x + p.x, Sum(ps).y + p.y)
  {
    assert (ps + [p])[..|ps|] == ps;
  }

  /** Summing two runs of points one after the other adds their sums
      coordinate by coordinate, so the order of accumulation does not matter
      between blocks. */
  lemma {:induction false} SumConcat(a: seq<Point>, b: seq<Point>)
    ensures Sum(a + b) == Point(Sum(a).x + Sum(b).x, Sum(a).y + Sum(b).y)
  {
    if b == [] {
      assert a + b == a;
    } else {
      var b' := b[..|b| - 1];
      var p := b[|b| - 1];
      SumConcat(a, b');
      assert b == b' + [p];
      assert a + b == (a + b') + [p];
      SumAppend(a + b', p);
      SumAppend(b', p);
    }
  }

  /** The members of cluster c are the points whose id is c: every member is
      such a point, every such point is a member, and there are as many
      members as ids equal to c. */
  lemma MembersAreLabelled(points: seq<Point>, ids: seq<Byte>, c: nat, n: nat)
    requires n <= |points| && n <= |ids|
    ensures |Members(points, ids, c, n)| == multiset(ids[..n])[c]
    ensures forall p :: p in Members(points, ids, c, n) ==> exists i :: 0 <= i < n && ids[i] == c && points[i] == p
    ensures forall i :: 0 <= i < n && ids[i] == c ==> points[i] in Members(points, ids, c, n)
  {
    MembersCount(points, ids, c, n);
    MembersLabelled(points, ids, c, n);
    MembersComplete(points, ids, c, n);
  }

  lemma {:induction false} MembersCount(points: seq<Point>, ids: seq<Byte>, c: nat, n: nat)
    requires n <= |points| && n <= |ids|
    ensures |Members(points, ids, c, n)| == multiset(ids[..n])[c]
  {
    if n > 0 {
      MembersCount(points, ids, c, n - 1);
      MembersStep(points, ids, c, n - 1);
      assert ids[..n] == ids[..n - 1] + [ids[n - 1]];
      assert multiset(ids[..n]) == multiset(ids[..n - 1]) + multiset{ids[n - 1]};
    }
  }

  lemma {:induction false} MembersLabelled(points: seq<Point>, ids: seq<Byte>, c: nat, n: nat)
    requires n <= |points| && n <= |ids|
    ensures forall p :: p in Members(points, ids, c, n) ==> exists i :: 0 <= i < n && ids[i] == c && points[i] == p
  {
    if n > 0 {
      MembersLabelled(points, ids, c, n - 1);
      MembersStep(points, ids, c, n - 1);
    }
  }

  lemma {:induction false} MembersComplete(points: seq<Point>, ids: seq<Byte>, c: nat, n: nat)
    requires n <= |points| && n <= |ids|
    ensures forall i :: 0 <= i < n && ids[i] == c ==> points[i] in Members(points, ids, c, n)
  {
    if n > 0 {
      MembersComplete(points, ids, c, n - 1);
      MembersStep(points, ids, c, n - 1);
    }
  }

  /** Repeating the update from the same ids changes nothing: a non-empty
      cluster moves to the same mean again, an empty one keeps its centre. */
  lemma UpdateIdempotent(points: seq<Point>, ids: seq<Byte>, centers: seq<Point>)
    requires |points| == |ids|
    ensures UpdateCenters(points, ids, UpdateCenters(points, ids, centers)) == UpdateCenters(points, ids, centers)
  {
  }

  /** An empty cluster keeps its centre exactly; a non-empty one gets the mean. */
  lemma UpdateAt(points: seq<Point>, ids: seq<Byte>, centers: seq<Point>, c: nat)
    requires |points| == |ids| && c < |centers|
    ensures |Members(points, ids, c, |points|)| == multiset(ids)[c]
    ensures multiset(ids)[c] == 0 ==> UpdateCenters(points, ids, centers)[c] == centers[c]
    ensures |Members(points, ids, c, |points|)| > 0 ==>
      UpdateCenters(points, ids, centers)[c] == Mean(Members(points, ids, c, |points|))
  {
    MembersAreLabelled(points, ids, c, |points|);
    assert ids[..|points|] == ids;
  }

  /** The sum of squared distances from the points of ps to q. */
  function Spread(ps: seq<Point>, q: Point): (s: real)
    ensures s >= 0.0
  {
    if ps == [] then 0.0 else Spread(ps[..|ps| - 1], q) + SqDist(ps[|ps| - 1], q)
  }

  /** Adding a point to a cluster adds its squared distance to the spread. */
  lemma SpreadAppend(ps: seq<Point>, p: Point, q: Point)
    ensures Spread(ps + [p], q) == Spread(ps, q) + SqDist(p, q)
  {
    assert (ps + [p])[..|ps|] == ps;
  }

  /** The mean is the point the update step moves a centre to because it is
      the best one: the spread around any q exceeds the spread around the
      mean by |ps| times the squared distance from the mean to q. */
  lemma MeanMinimisesSpread(ps: seq<Point>, q: Point)
    requires |ps| > 0
    ensures Spread(ps, q) == Spread(ps, Mean(ps)) + |ps| as real * SqDist(Mean(ps), q)
    ensures Spread(ps, Mean(ps)) <= Spread(ps, q)
  {
    SpreadExpanded(ps, q);
    SpreadExpanded(ps, Mean(ps));
    ExpandedAroundMean(ps, q);
    ProductNonNegative(|ps| as real, SqDist(Mean(ps), q));
  }

  lemma ExpandedAroundMean(ps: seq<Point>, q: Point)
    requires |ps| > 0
    ensures Expanded(ps, q) == Expanded(ps, Mean(ps)) + |ps| as real * SqDist(Mean(ps), q)
  {
    var s := Sum(ps);
    Identity(|ps| as real, s.x, s.y, q.x, q.y, SumOfSquares(ps));
  }

  /** The sum of the squared norms of the points of ps. */
  function SumOfSquares(ps: seq<Point>): real
  {
    if ps == [] then 0.0
    else
      var p := ps[|ps| - 1];
      SumOfSquares(ps[..|ps| - 1]) + (p.x * p.x + p.y * p.y)
  }

  lemma {:induction false} SpreadExpanded(ps: seq<Point>, q: Point)
    ensures Spread(ps, q) == Expanded(ps, q)
  {
    if ps == [] {
      ZeroIdentity(q.x, q.y, Sum(ps).x, Sum(ps).y, |ps| as real);
    } else {
      SpreadExpanded(ps[..|ps| - 1], q);
      SpreadStep(ps, q);
    }
  }

  lemma SpreadStep(ps: seq<Point>, q: Point)
    requires ps != []
    requires Spread(ps[..|ps| - 1], q) == Expanded(ps[..|ps| - 1], q)
    ensures Spread(ps, q) == Expanded(ps, q)
  {
    ExpandedStep(ps[..|ps| - 1], ps[|ps| - 1], q);
    assert ps[..|ps| - 1] + [ps[|ps| - 1]] == ps;
  }

  lemma ExpandedStep(ps: seq<Point>, p: Point, q: Point)
    ensures Expanded(ps + [p], q) == Expanded(ps, q) + SqDist(p, q)
  {
    assert (ps + [p])[..|ps|] == ps;
    var s := Sum(ps);
    StepIdentity(|ps| as real, q.x, q.y, s.x, s.y, p.x, p.y);
  }

  /** The spread of ps around q, written through the sums Sum and
      SumOfSquares instead of point by point. */
  function Expanded(ps: seq<Point>, q: Point): real
  {
    SumOfSquares(ps) - 2.0 * (q.x * Sum(ps).x + q.y * Sum(ps).y) + |ps| as real * (q.x * q.x + q.y * q.y)
  }

  lemma ZeroIdentity(qx: real, qy: real, sx: real, sy: real, n: real)
    requires sx == 0.0 && sy == 0.0 && n == 0.0
    ensures 0.0 == 0.0 - 2.0 * (qx * sx + qy * sy) + n * (qx * qx + qy * qy)
  {
  }

  lemma StepIdentity(n: real, qx: real, qy: real, sx: real, sy: real, px: real, py: real)
    ensures -2.0 * (qx * (sx + px) + qy * (sy + py)) + (n + 1.0) * (qx * qx + qy * qy)
         == (-2.0 * (qx * sx + qy * sy) + n * (qx * qx + qy * qy))
            + ((qx - px) * (qx - px) + (qy - py) * (qy - py)) - (px * px + py * py)
  {
  }

  lemma Identity(n: real, sx: real, sy: real, qx: real, qy: real, t: real)
    requires n > 0.0
    ensures t - 2.0 * (qx * sx + qy * sy) + n * (qx * qx + qy * qy)
         == (t - 2.0 * ((sx / n) * sx + (sy / n) * sy) + n * ((sx / n) * (sx / n) + (sy / n) * (sy / n)))
            + n * ((qx - sx / n) * (qx - sx / n) + (qy - sy / n) * (qy - sy / n))
  {
    var mx := sx / n;
    var my := sy / n;
    DivMul(n, sx, mx);
    DivMul(n, sy, my);
    ScaledIdentity(n, mx, my, qx, qy, t);
  }

  lemma ScaledIdentity(n: real, mx: real, my: real, qx: real, qy: real, t: real)
    ensures t - 2.0 * (qx * (n * mx) + qy * (n * my)) + n * (qx * qx + qy * qy)
         == (t - 2.0 * (mx * (n * mx) + my * (n * my)) + n * (mx * mx + my * my))
            + n * ((qx - mx) * (qx - mx) + (qy - my) * (qy - my))
  {
  }

  lemma DivMul(n: real, s: real, m: real)
    requires n > 0.0 && m == s / n
    ensures s == n * m
  {
  }

  lemma ProductNonNegative(u: real, v: real)
    requires u >= 0.0 && v >= 0.0
    ensures u * v >= 0.0
  {
  }
}
