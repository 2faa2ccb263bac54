/** The test problems: cluster definitions, the data set laid out from them
    block by block, and the deterministic choice of starting centres. */
module KMeanProblem {
  import opened Common
  import opened Geometry

  /** How many points a cluster has, where its centre is, and how far its
      points spread along each axis. */
  datatype ClusterDefinition = ClusterDefinition(nPoints: nat, center: Point, stdev: Point)

  /** The number of points of the first c definitions. */
  function TotalPoints(defs: seq<ClusterDefinition>, c: nat): (total: nat)
    requires c <= |defs|
    ensures forall d :: 0 <= d < c ==> defs[d].nPoints <= total
    ensures total == 0 <==> forall d :: 0 <= d < c ==> defs[d].nPoints == 0
  {
    if c == 0 then 0 else TotalPoints(defs, c - 1) + defs[c - 1].nPoints
  }

  /** The ids of the points of the first c definitions: a block of
      defs[d].nPoints copies of d (stored in 8 bits) for every d in order. */
  function Labels(defs: seq<ClusterDefinition>, c: nat): (ids: seq<Byte>)
    requires c <= |defs|
    ensures |ids| == TotalPoints(defs, c)
  {
    if c == 0 then [] else Labels(defs, c - 1) + seq(defs[c - 1].nPoints, _ => ToByte(c - 1))
  }

  /** The points of the first c definitions, block by block; `coordinate`
      gives the i-th point of the block of definition c (so two equal
      definitions may get different points, as random sampling gives them). */
  function Coordinates(defs: seq<ClusterDefinition>, coordinate: (nat, ClusterDefinition, nat) -> Point, c: nat): (ps: seq<Point>)
    requires c <= |defs|
    ensures |ps| == TotalPoints(defs, c)
  {
    if c == 0 then []
    else Coordinates(defs, coordinate, c - 1) + seq(defs[c - 1].nPoints, i requires 0 <= i => coordinate(c - 1, defs[c - 1], i))
  }

  /** Point i of definition c sits at the offset of c (the points of all
      definitions before it) plus i, and has id c. */
  lemma {:induction false} LabelAt(defs: seq<ClusterDefinition>, n: nat, c: nat, i: nat)
    requires c < n <= |defs| && i < defs[c].nPoints
    ensures TotalPoints(defs, c) + i < TotalPoints(defs, n)
    ensures Labels(defs, n)[TotalPoints(defs, c) + i] == ToByte(c)
  {
    var prefix := Labels(defs, n - 1);
    var block := seq(defs[n - 1].nPoints, _ => ToByte(n - 1));
    assert Labels(defs, n) == prefix + block;
    if c < n - 1 {
      LabelAt(defs, n - 1, c, i);
    } else {
      assert Labels(defs, n)[|prefix| + i] == block[i];
    }
  }

  /** ... and the coordinate that its block gives to its index i. */
  lemma {:induction false} CoordinateAt(defs: seq<ClusterDefinition>, coordinate: (nat, ClusterDefinition, nat) -> Point,
                                        n: nat, c: nat, i: nat)
    requires c < n <= |defs| && i < defs[c].nPoints
    ensures TotalPoints(defs, c) + i < TotalPoints(defs, n)
    ensures Coordinates(defs, coordinate, n)[TotalPoints(defs, c) + i] == coordinate(c, defs[c], i)
  {
    var prefix := Coordinates(defs, coordinate, n - 1);
    var block := seq(defs[n - 1].nPoints, j requires 0 <= j => coordinate(n - 1, defs[n - 1], j));
    assert Coordinates(defs, coordinate, n) == prefix + block;
    if c < n - 1 {
      CoordinateAt(defs, coordinate, n - 1, c, i);
    } else {
      assert Coordinates(defs, coordinate, n)[|prefix| + i] == block[i];
    }
  }

  lemma {:induction false} TotalPointsMonotone(defs: seq<ClusterDefinition>, c: nat, d: nat)
    requires c <= d <= |defs|
    ensures TotalPoints(defs, c) <= TotalPoints(defs, d)
  {
    if c < d {
      TotalPointsMonotone(defs, c, d - 1);
    }
  }

  /** With at most 256 definitions no id wraps: the ids never decrease and
      each is the index of a definition. */
  lemma {:induction false} LabelsSorted(defs: seq<ClusterDefinition>, c: nat)
    requires c <= |defs| <= 256
    ensures forall m :: 0 <= m < |Labels(defs, c)| ==> Labels(defs, c)[m] < c
    ensures forall m, m' :: 0 <= m <= m' < |Labels(defs, c)| ==> Labels(defs, c)[m] <= Labels(defs, c)[m']
  {
    if c > 0 {
      LabelsSorted(defs, c - 1);
    }
  }

  /** With at most 256 definitions, id d occurs exactly defs[d].nPoints
      times among the ids of the first c definitions when d < c, and not at all
      otherwise. */
  lemma {:induction false} LabelCount(defs: seq<ClusterDefinition>, c: nat, d: nat)
    requires c <= |defs| <= 256
    ensures multiset(Labels(defs, c))[d] == if d < c then defs[d].nPoints else 0
  {
    if c > 0 {
      LabelCount(defs, c - 1, d);
      var block := seq(defs[c - 1].nPoints, _ => ToByte(c - 1));
      BlockCount(block, ToByte(c - 1), d);
    }
  }

  lemma {:induction false} BlockCount(block: seq<Byte>, b: Byte, d: nat)
    requires forall m :: 0 <= m < |block| ==> block[m] == b
    ensures multiset(block)[d] == if d == b then |block| else 0
  {
    if block != [] {
      BlockCount(block[1..], b, d);
      assert block == [block[0]] + block[1..];
    }
  }

  class DataSet {
    var points: seq<Point>
    var cluster: seq<Byte>

    constructor ()
      ensures points == [] && cluster == []
    {
      points := [];
      cluster := [];
    }

    /** Lays out the points of every definition in one block after the other:
        both vectors are resized to the total number of points, then the i-th
        point of definition c is written at the offset of c plus i, labelled
        with c. The coordinate of each point is left to `coordinate` (sampled
        at random in one generator, placed on an ellipse in the other). */
    method Generate(defs: seq<ClusterDefinition>, coordinate: (nat, ClusterDefinition, nat) -> Point)
      modifies this`points, this`cluster
      ensures points == Coordinates(defs, coordinate, |defs|)
      ensures cluster == Labels(defs, |defs|)
    {
      var totalPoints := 0;
      for i := 0 to |defs|
        invariant totalPoints == TotalPoints(defs, i)
      {
        totalPoints := totalPoints + defs[i].nPoints;
      }
      points := Resize(points, totalPoints, Point(0.0, 0.0));
      cluster := Resize(cluster, totalPoints, 0);
      var offset := 0;
      for clusterId := 0 to |defs|
        invariant |points| == totalPoints && |cluster| == totalPoints
        invariant offset == TotalPoints(defs, clusterId) <= totalPoints
        invariant forall m :: 0 <= m < offset ==> points[m] == Coordinates(defs, coordinate, |defs|)[m]
        invariant forall m :: 0 <= m < offset ==> cluster[m] == Labels(defs, |defs|)[m]
      {
        TotalPointsMonotone(defs, clusterId + 1, |defs|);
        WriteBlock(defs, coordinate, clusterId, offset);
        offset := offset + defs[clusterId].nPoints;
      }
    }

    /** Writes the block of definition clusterId at its offset, on top of
        the blocks of the definitions before it, leaving every later entry
        as it was. */
    method WriteBlock(defs: seq<ClusterDefinition>, coordinate: (nat, ClusterDefinition, nat) -> Point, clusterId: nat, offset: nat)
      requires clusterId < |defs| && offset == TotalPoints(defs, clusterId)
      requires TotalPoints(defs, clusterId + 1) <= TotalPoints(defs, |defs|)
      requires |points| == TotalPoints(defs, |defs|) && |cluster| == TotalPoints(defs, |defs|)
      requires forall m :: 0 <= m < offset ==> points[m] == Coordinates(defs, coordinate, |defs|)[m]
      requires forall m :: 0 <= m < offset ==> cluster[m] == Labels(defs, |defs|)[m]
      modifies this`points, this`cluster
      ensures |points| == old(|points|) && |cluster| == old(|cluster|)
      ensures forall m :: 0 <= m < TotalPoints(defs, clusterId + 1) ==> points[m] == Coordinates(defs, coordinate, |defs|)[m]
      ensures forall m :: 0 <= m < TotalPoints(defs, clusterId + 1) ==> cluster[m] == Labels(defs, |defs|)[m]
      ensures forall m :: TotalPoints(defs, clusterId + 1) <= m < |points| ==>
        points[m] == old(points)[m] && cluster[m] == old(cluster)[m]
    {
      ghost var wantPoints := Coordinates(defs, coordinate, |defs|);
      ghost var wantIds := Labels(defs, |defs|);
      var def := defs[clusterId];
      for i := 0 to def.nPoints
        invariant |points| == |wantPoints| && |cluster| == |wantIds|
        invariant forall m :: 0 <= m < offset + i ==> points[m] == wantPoints[m]
        invariant forall m :: 0 <= m < offset + i ==> cluster[m] == wantIds[m]
        invariant forall m :: offset + i <= m < |points| ==> points[m] == old(points)[m] && cluster[m] == old(cluster)[m]
      {
        LabelAt(defs, |defs|, clusterId, i);
        CoordinateAt(defs, coordinate, |defs|, clusterId, i);
        points := points[i + offset := coordinate(clusterId, def, i)];
        cluster := cluster[i + offset := ToByte(clusterId)];
      }
    }
  }

  /** The index of the i-th starting centre of a generation among n points. */
  function SeedIndex(n: nat, k: nat, generation: nat, i: nat): (j: nat)
    requires n > 0
    ensures j < n
  {
    (generation * k + i) % n
  }

  /** The k starting centres of a generation: consecutive points, from the
      point generation * k on, wrapping around the end of the points. */
  method StartPointsDeterministic(points: seq<Point>, k: nat, generation: nat) returns (centers: seq<Point>)
    requires k == 0 || |points| > 0
    ensures |centers| == k
    ensures forall i :: 0 <= i < k ==> centers[i] == points[SeedIndex(|points|, k, generation, i)]
  {
    centers := [];
    for i := 0 to k
      invariant |centers| == i
      invariant forall m :: 0 <= m < i ==> centers[m] == points[SeedIndex(|points|, k, generation, m)]
    {
      var pointId := (generation * k + i) % |points|;
      centers := centers + [points[pointId]];
    }
  }

  /** The first generation starts from the first k points in order. */
  lemma FirstGenerationSeeds(n: nat, k: nat, i: nat)
    requires i < k <= n
    ensures SeedIndex(n, k, 0, i) == i
  {
  }

  /** When there are at least k points, the k starting centres of any
      generation are taken from k different positions of the input (equal
      coordinates at two positions still give two equal centres). */
  lemma SeedsDistinct(n: nat, k: nat, generation: nat, i: nat, j: nat)
    requires 0 < k <= n && i < j < k
    ensures SeedIndex(n, k, generation, i) != SeedIndex(n, k, generation, j)
  {
    var a := generation * k;
    if (a + i) % n == (a + j) % n {
      ModEqual(a + i, a + j, n);
    }
  }

  /** Two numbers with the same remainder modulo n differ by a multiple of n. */
  lemma ModEqual(u: nat, v: nat, n: nat)
    requires 0 < n && u < v && u % n == v % n
    ensures v - u >= n
  {
    var q := v / n - u / n;
    assert v - u == n * q;
    if q <= 0 {
      MulNonPositive(n, q);
    }
  }

  lemma MulNonPositive(n: nat, q: int)
    requires q <= 0
    ensures n * q <= 0
  {
  }
}
