/** Matching computed centres to the cluster definitions they should have
    found: every centre in turn takes the nearest definition not yet taken. */
module ClusterMapping {
  import opened Common
  import opened Geometry
  import opened KMeanProblem

  /** j is the definition, among the first n, that the matching picks for
      the centre p: not yet matched, no unmatched definition nearer, and every
      unmatched definition before j strictly farther. */
  predicate IsClosestUnmatched(defs: seq<ClusterDefinition>, matches: map<nat, nat>, p: Point, n: nat, j: nat)
    requires n <= |defs|
  {
    && j < n && j !in matches
    && (forall d :: 0 <= d < n && d !in matches ==> SqDist(defs[j].center, p) <= SqDist(defs[d].center, p))
    && (forall d :: 0 <= d < j && d !in matches ==> SqDist(defs[j].center, p) < SqDist(defs[d].center, p))
  }

  /** At most one definition satisfies the tie-breaking rule. */
  lemma ClosestUnmatchedUnique(defs: seq<ClusterDefinition>, matches: map<nat, nat>, p: Point, n: nat, j1: nat, j2: nat)
    requires n <= |defs|
    requires IsClosestUnmatched(defs, matches, p, n, j1) && IsClosestUnmatched(defs, matches, p, n, j2)
    ensures j1 == j2
  {
    assert SqDist(defs[j1].center, p) == SqDist(defs[j2].center, p);
  }

  /** The scan of the first n definitions for the centre p, skipping matched
      ones; None when all of them are matched. */
  function ClosestUnmatched(defs: seq<ClusterDefinition>, matches: map<nat, nat>, p: Point, n: nat): (r: Option<nat>)
    requires n <= |defs|
    ensures r.None? <==> forall d :: 0 <= d < n ==> d in matches
    ensures r.Some? ==> IsClosestUnmatched(defs, matches, p, n, r.value)
  {
    if n == 0 then None
    else
      var r := ClosestUnmatched(defs, matches, p, n - 1);
      if n - 1 in matches then r
      else if r.None? || SqDist(defs[n - 1].center, p) < SqDist(defs[r.value].center, p) then Some(n - 1)
      else r
  }

  /** The status code and the map left by a matching: 0 for success, -1 when
      a centre found no unmatched definition. */
  datatype Outcome = Outcome(status: int, matches: map<nat, nat>)

  /** The matching of the centres from index i on, starting from `matches`
      (definition index to centre index). */
  function Greedy(centers: seq<Point>, defs: seq<ClusterDefinition>, matches: map<nat, nat>, i: nat): (r: Outcome)
    requires i <= |centers|
    ensures r.status == 0 || r.status == -1
    ensures r.status == 0 ==> |r.matches| >= |matches|
    decreases |centers| - i
  {
    if i == |centers| then Outcome(0, matches)
    else
      match ClosestUnmatched(defs, matches, centers[i], |defs|)
      case None => Outcome(-1, matches)
      case Some(j) => Greedy(centers, defs, matches[j := i], i + 1)
  }

  /** For every centre in order, finds the nearest definition that is not yet
      a key of `matches` and records it as matched to that centre. Fails with
      -1 at the first centre that finds every definition matched, returning
      the entries added so far. */
  method MakeClusterMapping(centers: seq<Point>, definitions: seq<ClusterDefinition>, matches: map<nat, nat>)
    returns (status: int, result: map<nat, nat>)
    ensures Outcome(status, result) == Greedy(centers, definitions, matches, 0)
  {
    result := matches;
    for i := 0 to |centers|
      invariant Greedy(centers, definitions, result, i) == Greedy(centers, definitions, matches, 0)
    {
      var actualCenter := centers[i];
      var hasMatch, matchId := ClosestUnmatchedDefinition(definitions, result, actualCenter);
      if !hasMatch {
        return -1, result;
      }
      result := result[matchId := i];
    }
    status := 0;
  }

  /** The inner loop of the matching for one centre: the definitions are
      scanned in order, matched ones skipped, and a definition replaces the
      candidate only when it is strictly nearer. */
  method ClosestUnmatchedDefinition(definitions: seq<ClusterDefinition>, matches: map<nat, nat>, actualCenter: Point)
    returns (hasMatch: bool, matchId: nat)
    ensures !hasMatch <==> forall d :: 0 <= d < |definitions| ==> d in matches
    ensures hasMatch ==> IsClosestUnmatched(definitions, matches, actualCenter, |definitions|, matchId)
    ensures hasMatch == ClosestUnmatched(definitions, matches, actualCenter, |definitions|).Some?
    ensures hasMatch ==> matchId == ClosestUnmatched(definitions, matches, actualCenter, |definitions|).value
  {
    var minDist: Option<real> := None;
    matchId := 0;
    hasMatch := false;
    for j := 0 to |definitions|
      invariant hasMatch <==> minDist.Some?
      invariant !hasMatch ==> forall d :: 0 <= d < j ==> d in matches
      invariant hasMatch ==> IsClosestUnmatched(definitions, matches, actualCenter, j, matchId)
      invariant hasMatch ==> minDist == Some(SqDist(definitions[matchId].center, actualCenter))
    {
      if j in matches {
        continue;
      }
      var distance := SqDist(definitions[j].center, actualCenter);
      if !hasMatch || distance < minDist.value {
        minDist := Some(distance);
        matchId := j;
        hasMatch := true;
      }
    }
    if hasMatch {
      ClosestUnmatchedUnique(definitions, matches, actualCenter, |definitions|, matchId,
                             ClosestUnmatched(definitions, matches, actualCenter, |definitions|).value);
    }
  }

  /** The definitions below n that are not yet matched. */
  function Unmatched(matches: map<nat, nat>, n: nat): set<nat>
  {
    set d | 0 <= d < n && d !in matches
  }

  /** Entries already in the map are never overwritten or removed, and the
      status is 0 or -1. */
  lemma {:induction false} GreedyKeepsEntries(centers: seq<Point>, defs: seq<ClusterDefinition>, matches: map<nat, nat>, i: nat)
    requires i <= |centers|
    ensures var r := Greedy(centers, defs, matches, i);
      (r.status == 0 || r.status == -1) &&
      forall key :: key in matches ==> key in r.matches && r.matches[key] == matches[key]
    decreases |centers| - i
  {
    if i < |centers| {
      var c := ClosestUnmatched(defs, matches, centers[i], |defs|);
      if c.Some? {
        GreedyKeepsEntries(centers, defs, matches[c.value := i], i + 1);
      }
    }
  }

  /** Every added entry maps a definition index to the index of a centre
      from i on. */
  lemma {:induction false} GreedyNewEntries(centers: seq<Point>, defs: seq<ClusterDefinition>, matches: map<nat, nat>, i: nat)
    requires i <= |centers|
    ensures var r := Greedy(centers, defs, matches, i);
      forall key :: key in r.matches && key !in matches ==> key < |defs| && i <= r.matches[key] < |centers|
    decreases |centers| - i
  {
    if i < |centers| {
      var c := ClosestUnmatched(defs, matches, centers[i], |defs|);
      if c.Some? {
        GreedyNewEntries(centers, defs, matches[c.value := i], i + 1);
        GreedyKeepsEntries(centers, defs, matches[c.value := i], i + 1);
      }
    }
  }

  /** No two added entries share a centre. */
  lemma {:induction false} GreedyNewEntriesInjective(centers: seq<Point>, defs: seq<ClusterDefinition>, matches: map<nat, nat>, i: nat)
    requires i <= |centers|
    ensures var r := Greedy(centers, defs, matches, i);
      forall k1, k2 :: k1 in r.matches && k1 !in matches && k2 in r.matches && k2 !in matches && k1 != k2 ==>
        r.matches[k1] != r.matches[k2]
    decreases |centers| - i
  {
    if i < |centers| {
      var c := ClosestUnmatched(defs, matches, centers[i], |defs|);
      if c.Some? {
        var next := matches[c.value := i];
        GreedyNewEntriesInjective(centers, defs, next, i + 1);
        GreedyNewEntries(centers, defs, next, i + 1);
        GreedyKeepsEntries(centers, defs, next, i + 1);
      }
    }
  }

  /** A successful matching adds one entry per centre from i on. */
  lemma {:induction false} GreedyAddsOnePerCenter(centers: seq<Point>, defs: seq<ClusterDefinition>, matches: map<nat, nat>, i: nat)
    requires i <= |centers|
    ensures var r := Greedy(centers, defs, matches, i);
      r.status == 0 ==> |r.matches| == |matches| + (|centers| - i)
    decreases |centers| - i
  {
    if i < |centers| {
      var c := ClosestUnmatched(defs, matches, centers[i], |defs|);
      if c.Some? {
        GreedyAddsOnePerCenter(centers, defs, matches[c.value := i], i + 1);
      }
    }
  }

  /** The matching succeeds exactly when there are at least as many
      unmatched definitions as remaining centres; when it fails, every
      definition ends up matched. */
  lemma {:induction false} GreedySucceedsIff(centers: seq<Point>, defs: seq<ClusterDefinition>, matches: map<nat, nat>, i: nat)
    requires i <= |centers|
    ensures Greedy(centers, defs, matches, i).status == 0 <==> |centers| - i <= |Unmatched(matches, |defs|)|
    ensures Greedy(centers, defs, matches, i).status != 0 ==>
      forall d :: 0 <= d < |defs| ==> d in Greedy(centers, defs, matches, i).matches
    decreases |centers| - i
  {
    if i < |centers| {
      var c := ClosestUnmatched(defs, matches, centers[i], |defs|);
      if c.None? {
        assert Unmatched(matches, |defs|) == {};
      } else {
        var j := c.value;
        assert Unmatched(matches[j := i], |defs|) == Unmatched(matches, |defs|) - {j};
        GreedySucceedsIff(centers, defs, matches[j := i], i + 1);
      }
    }
  }

  /** From an empty map, the matching succeeds exactly when there are no more
      centres than definitions. */
  lemma SucceedsFromEmptyIff(centers: seq<Point>, defs: seq<ClusterDefinition>)
    ensures Greedy(centers, defs, map[], 0).status == 0 <==> |centers| <= |defs|
  {
    GreedySucceedsIff(centers, defs, map[], 0);
    NoneMatchedSize(|defs|);
  }

  lemma {:induction false} NoneMatchedSize(n: nat)
    ensures |Unmatched(map[], n)| == n
  {
    if n > 0 {
      NoneMatchedSize(n - 1);
      assert Unmatched(map[], n) == Unmatched(map[], n - 1) + {n - 1};
    }
  }

  /** The map sending each of 0 .. n - 1 to itself. */
  function IdentityMap(n: nat): map<nat, nat>
  {
    if n == 0 then map[] else IdentityMap(n - 1)[n - 1 := n - 1]
  }

  /** Its keys are exactly 0 .. n - 1, each mapped to itself. */
  lemma {:induction false} IdentityMapContents(n: nat)
    ensures forall d: nat :: d in IdentityMap(n) <==> d < n
    ensures forall d :: d in IdentityMap(n) ==> IdentityMap(n)[d] == d
  {
    if n > 0 {
      IdentityMapContents(n - 1);
    }
  }

  /** Centres placed exactly at the definition centres are matched each to
      its own definition, starting from an empty map: definition i is at
      distance 0 from centre i, and every definition before it is already
      taken, so the lowest-index rule picks it even when later definitions
      share its centre. */
  lemma SelfMatching(centers: seq<Point>, defs: seq<ClusterDefinition>)
    requires |centers| == |defs|
    requires forall d :: 0 <= d < |defs| ==> centers[d] == defs[d].center
    ensures Greedy(centers, defs, map[], 0) == Outcome(0, IdentityMap(|centers|))
  {
    var full := Outcome(0, IdentityMap(|centers|));
    var i := |centers|;
    while i > 0
      invariant 0 <= i <= |centers|
      invariant Greedy(centers, defs, IdentityMap(i), i) == full
    {
      i := i - 1;
      SelfMatchingLink(centers, defs, i, full);
    }
  }

  lemma SelfMatchingLink(centers: seq<Point>, defs: seq<ClusterDefinition>, i: nat, outcome: Outcome)
    requires |centers| == |defs| && i < |centers|
    requires centers[i] == defs[i].center
    requires Greedy(centers, defs, IdentityMap(i + 1), i + 1) == outcome
    ensures Greedy(centers, defs, IdentityMap(i), i) == outcome
  {
    SelfMatchingUnfold(centers, defs, i);
  }

  lemma SelfMatchingUnfold(centers: seq<Point>, defs: seq<ClusterDefinition>, i: nat)
    requires |centers| == |defs| && i < |centers|
    requires centers[i] == defs[i].center
    ensures Greedy(centers, defs, IdentityMap(i), i) == Greedy(centers, defs, IdentityMap(i + 1), i + 1)
  {
    SelfMatchingStep(defs, i);
  }

  /** Once the definitions before i are matched, definition i is the nearest
      unmatched one to its own centre: it is at distance 0 and has the lowest
      index among the unmatched ones. */
  lemma SelfMatchingStep(defs: seq<ClusterDefinition>, i: nat)
    requires i < |defs|
    ensures ClosestUnmatched(defs, IdentityMap(i), defs[i].center, |defs|) == Some(i)
  {
    var m := IdentityMap(i);
    var p := defs[i].center;
    IdentityMapContents(i);
    SqDistSelf(p);
    assert IsClosestUnmatched(defs, m, p, |defs|, i);
    ClosestUnmatchedUnique(defs, m, p, |defs|, i, ClosestUnmatched(defs, m, p, |defs|).value);
  }
}
