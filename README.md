# K-Means clustering engine, modelled in Dafny

This project models the core of a K-Means (Lloyd's algorithm) benchmark over 2-D points. It covers these parts:

- **The engine `KMeansParallel`** (`Engine`, backed by `Assignment`, `Update` and `Lloyd`).
  - Its state is three fields: the cluster id of every point (8-bit), the centres, and a generation counter.
  - `fit` repeats rounds of two steps:
    - an assignment step: every point takes the id of its nearest centre, the lowest index winning ties, and the points whose id changed are counted;
    - an update step: every centre moves to the mean of its points, and an empty cluster keeps its centre.
  - The rounds stop when an assignment step changes nothing, and the generation then goes up by one.
  - `classify` labels points with the current centres.
  - `compare` counts the positions where two labellings agree through a mapping.
- **Lloyd's objective** (`Objective`): the sum of squared distances from every point to its centre. Neither step of a round can increase it.
- **The test problems** (`KMeanProblem`):
  - cluster definitions;
  - the data set generators, which lay points and labels out block by block;
  - the deterministic choice of starting centres.
- **The matching of computed centres to definitions** (`ClusterMapping`, `make_cluster_mapping`): each centre in turn takes the nearest definition that is not yet taken.
- **Point distance** (`Geometry`).

Coordinates are exact `real`s and every parallel loop runs sequentially. `Point::dist` is modelled as the squared Euclidean distance. The square root is monotone, so every comparison of two distances comes out the same (`Geometry.EuclideanOrderAgrees`).

Cluster ids are stored in `uint8_t`. The model keeps the low 8 bits of every stored index (`Common.ToByte`) instead of assuming at most 256 clusters. The lemmas that need ids to be exact say so (`k <= 256`).

The `while (true)` loop of `fit` has no bound. The model gives it a `fuel` count of rounds and reports whether the run stopped by convergence.

The engine's `fit` as written starts the ids at zero and compares the first assignment with those zeros. That lets it stop after one round at a state that is not a fixed point of Lloyd's algorithm; see "Findings". `Engine.KMeansParallel.Fit` models the code as written (`Lloyd.Run`). `Lloyd.RunCorrected` is the intended behaviour, and the convergence theorem is proved for it.

## Model

| member | source | states |
|---|---|---|
| Common.ToByte | src/kmeans_parallel.cpp:46 | storing an index into an 8-bit id never makes it larger, and keeps it unchanged below 256 |
| Common.Zeros | src/kmeans_parallel.cpp:12-13 | the id vector is resized to one entry per point, all zero |
| Common.Resize | src/kmeans_parallel.cpp:98 | resizing gives exactly n entries, keeps the existing prefix and fills new entries with the default value |
| Geometry.SqDist | src/point.cpp:6-10 | the distance is never negative |
| Geometry.SqDistSymmetric | src/point.cpp:7-9 | dist(a, b) == dist(b, a) |
| Geometry.SqDistSelf | src/point.cpp:7-9 | dist(p, p) == 0 |
| Geometry.SqDistZeroIff | src/point.cpp:7-9 | the distance is 0 exactly when the two points are equal |
| Geometry.EuclideanOrderAgrees | src/point.cpp:9 | two square-rooted distances compare (< and ==) exactly as the squared distances do |
| Assignment.NearestIn | src/kmeans_parallel.cpp:38-48 | the scan with strict < yields an index with no centre nearer and every earlier centre strictly farther |
| Assignment.NearestUnique | src/kmeans_parallel.cpp:44 | the strict-< tie-break determines a unique index |
| Assignment.Nearest | src/kmeans_parallel.cpp:38-48 | with centres, the lowest-index nearest centre; without any, the initial 0 |
| Assignment.NearestCenter | src/kmeans_parallel.cpp:38-48 | the inner loop of the assignment step, starting from "no candidate yet", returns the lowest-index nearest centre, or 0 when there is none |
| Assignment.Assign | src/kmeans_parallel.cpp:36-55 | one id per point; every id is below k when there are centres, and 0 when there are none |
| Assignment.AssignIsNearest | src/kmeans_parallel.cpp:39-46 | with at most 256 centres every stored id is exactly its point's lowest-index nearest centre |
| Assignment.ChangesIn | src/kmeans_parallel.cpp:49-52 | the change count over a prefix never exceeds its length |
| Assignment.Changes | src/kmeans_parallel.cpp:49-52 | the change count never exceeds the number of points |
| Assignment.ChangesInIsCardinality | src/kmeans_parallel.cpp:49-52 | the change count is exactly the number of positions whose id differs |
| Assignment.ChangesInZeroIff | src/kmeans_parallel.cpp:49-52 | no change is counted over a prefix exactly when the two prefixes are equal |
| Assignment.ChangesZeroIff | src/kmeans_parallel.cpp:86-88 | the loop's stopping test (zero changes) holds exactly when the new ids equal the old ones |
| Update.Members | src/kmeans_parallel.cpp:65-71 | a cluster has no more members than there are points scanned |
| Update.Sum | src/kmeans_parallel.cpp:69-70 | the coordinate sum accumulated into a cluster's average vector; points with non-negative coordinates never give a negative sum |
| Update.Mean | src/kmeans_parallel.cpp:75-76 | dividing the sum by the member count gives the centroid: the centroid times the number of members is the sum of their coordinates |
| Update.AccumulateStep | src/kmeans_parallel.cpp:66-70 | incrementing the size and adding the coordinates of the point's own cluster keeps every size and sum equal to the count and sum of that cluster's members so far |
| Update.UpdateCenters | src/kmeans_parallel.cpp:73-81 | the update keeps the number of centres |
| Update.SumConcat | src/kmeans_parallel.cpp:65-71 | the coordinate sum of two runs of points, one after the other, is the sum of their coordinate sums, so accumulating in any split gives the same total |
| Update.MembersAreLabelled | src/kmeans_parallel.cpp:65-68 | every member of a cluster is a point carrying its id, every point carrying its id is a member, and there are as many members as ids equal to it |
| Update.UpdateIdempotent | src/kmeans_parallel.cpp:73-81 | updating again from the same ids leaves the centres unchanged |
| Update.UpdateAt | src/kmeans_parallel.cpp:74-80 | an empty cluster keeps its centre exactly; a cluster with members gets the mean of their coordinates |
| Update.MeanMinimisesSpread | src/kmeans_parallel.cpp:75-76 | the spread around any point exceeds the spread around the mean by the number of members times the squared distance to the mean, so the mean is the best centre |
| Objective.Cost | src/kmeans_parallel.cpp:53 | the sum of the distances of the points to their centres is never negative |
| Objective.AssignMinimisesCost | src/kmeans_parallel.cpp:38-48 | with at most 256 centres, no other valid choice of ids for the same centres costs less than the assignment step's |
| Objective.ClusterPartIsSpread | src/kmeans_parallel.cpp:65-71 | a cluster's share of the cost is the spread of its members around its centre |
| Objective.ClusterCostStep | src/kmeans_parallel.cpp:65-71 | scanning one more point adds its distance to its own cluster's share only |
| Objective.CostByCluster | src/kmeans_parallel.cpp:62-71 | summing point by point and cluster by cluster give the same cost |
| Objective.UpdateLowersClusterCost | src/kmeans_parallel.cpp:73-81 | moving every non-empty cluster's centre to its mean never increases the clusters' shares |
| Objective.UpdateLowersCost | src/kmeans_parallel.cpp:62-81 | the update step never increases the cost of the ids it was computed from |
| Objective.RoundLowersCost | src/kmeans_parallel.cpp:36-81 | one round (assignment, then update) never increases the cost, from any valid ids and at most 256 centres |
| Lloyd.Run | src/kmeans_parallel.cpp:11-89 | `fit` as written (ids first filled with zeros and compared with the first assignment): one id per point, one centre per starting centre, and with starting centres every id names one |
| Lloyd.RunCorrected | src/kmeans_parallel.cpp:26-89 | `fit` as evidently intended (the first assignment is never compared with the zero fill): one id per point, one centre per starting centre, and with starting centres every id names one |
| Lloyd.Iterate | src/kmeans_parallel.cpp:26-89 | a run keeps one id per point and the number of centres, and when there are centres and the ids it starts from name centres, every id it leaves names a centre |
| Lloyd.IterateConvergesToFixedPoint | src/kmeans_parallel.cpp:26-89 | when the ids compared with come from a real assignment step, a run that stops by convergence stops at a fixed point of assignment and update |
| Lloyd.RunCorrectedConvergesToFixedPoint | src/kmeans_parallel.cpp:26-89 | a run that does not compare its first assignment with the zero fill stops only at a fixed point |
| Lloyd.RunAgreesUnlessFirstAssignmentIsZero | src/kmeans_parallel.cpp:12-13 | the as-written run equals the corrected one unless the first assignment puts every point in cluster 0 |
| Lloyd.RunStopsBeforeFixedPoint | src/kmeans_parallel.cpp:86-88 | on two points and two centres the as-written run stops after one round at centres that are not a fixed point |
| Engine.KMeansParallel.constructor | src/kmeans_parallel.cpp:9 | a new engine has generation 0, no ids and no centres |
| Engine.KMeansParallel.AssignStep | src/kmeans_parallel.cpp:36-55 | the ids become the assignment of the points to the current centres, and the returned count is the number of ids that changed |
| Engine.KMeansParallel.Accumulate | src/kmeans_parallel.cpp:62-71 | for every cluster, the size is its number of members and the average vector holds the sum of their coordinates |
| Engine.KMeansParallel.UpdateStep | src/kmeans_parallel.cpp:62-81 | the centres become those of the update step from the current ids |
| Engine.KMeansParallel.Fit | src/kmeans_parallel.cpp:11-95 | the ids, centres and convergence flag are those of the as-written run from the starting centres, and a converged fit adds one to the generation; there is one id per point and one centre per starting centre, and with at least one starting centre every id names a centre |
| Engine.KMeansParallel.Classify | src/kmeans_parallel.cpp:97-115 | the output has one entry per point, each the assignment step's id; with no centres it is only resized; the engine's state is untouched |
| Engine.KMeansParallel.Compare | src/kmeans_parallel.cpp:117-135 | fails exactly when some label of the first labelling is not a key of the mapping; otherwise returns the number of agreeing positions |
| Engine.Agreements | src/kmeans_parallel.cpp:126-131 | the agreement count never exceeds the number of positions |
| Engine.AgreementsIsCardinality | src/kmeans_parallel.cpp:126-131 | the agreement count is exactly the size of the set of agreeing positions |
| Engine.AgreementsFullIff | src/kmeans_parallel.cpp:126-131 | the count equals the length exactly when every position agrees |
| KMeanProblem.Labels | src/kmeanproblem.cpp:58-65 | there are as many labels as points in all definitions together |
| KMeanProblem.TotalPoints | src/kmeanproblem.cpp:32-35 | the total number of points of the first c definitions: no definition has more points than it, and it is zero exactly when every one of them has no point |
| KMeanProblem.Coordinates | src/kmeanproblem.cpp:58-65 | there are as many points as all definitions together ask for |
| KMeanProblem.LabelAt | src/kmeanproblem.cpp:68-81 | point i of definition c sits at the offset of c plus i and is labelled c (8-bit) |
| KMeanProblem.CoordinateAt | src/kmeanproblem.cpp:72-77 | point i of definition c sits at the offset of c plus i and holds the coordinate drawn for definition c and point i |
| KMeanProblem.LabelsSorted | src/kmeanproblem.cpp:68-81 | with at most 256 definitions the labels never decrease and each names a definition |
| KMeanProblem.LabelCount | src/kmeanproblem.cpp:68-81 | with at most 256 definitions label d occurs exactly as many times as definition d has points |
| KMeanProblem.DataSet.constructor | src/kmeanproblem.h:26-35 | a new data set has no points and no labels |
| KMeanProblem.DataSet.Generate | src/kmeanproblem.cpp:27-82 | both generators leave exactly the block layout: the points of every definition in order, each labelled with its definition |
| KMeanProblem.DataSet.WriteBlock | src/kmeanproblem.cpp:69-80 | writing one definition's block extends the correctly laid-out prefix by that block and leaves every later entry as it was |
| KMeanProblem.SeedIndex | src/kmeanproblem.cpp:122 | the seed index is a valid point index |
| KMeanProblem.StartPointsDeterministic | src/kmeanproblem.cpp:118-126 | exactly k centres, the i-th being point (generation * k + i) mod n |
| KMeanProblem.FirstGenerationSeeds | src/kmeanproblem.cpp:122 | generation 0 seeds are the first k points in order |
| KMeanProblem.SeedsDistinct | src/kmeanproblem.cpp:121-124 | with at least k points, the k seeds of any generation come from k different positions (indices) of the input |
| ClusterMapping.ClosestUnmatchedUnique | src/kmeanproblem.cpp:146 | the strict-< tie-break determines a unique definition |
| ClusterMapping.ClosestUnmatched | src/kmeanproblem.cpp:138-151 | no candidate exactly when every definition is matched; otherwise the lowest-index nearest unmatched definition |
| ClusterMapping.ClosestUnmatchedDefinition | src/kmeanproblem.cpp:134-151 | the inner loop finds a match exactly when some definition is unmatched, and then it is the lowest-index nearest unmatched one |
| ClusterMapping.Greedy | src/kmeanproblem.cpp:128-160 | the matching of the centres in order, as a function: the status is 0 or -1, and a successful matching never leaves fewer entries than it started with |
| ClusterMapping.MakeClusterMapping | src/kmeanproblem.cpp:128-160 | the status and the map are those of the greedy matching of the centres in order |
| ClusterMapping.GreedyKeepsEntries | src/kmeanproblem.cpp:140-157 | the status is 0 or -1, and entries already in the map are kept unchanged, also on failure |
| ClusterMapping.GreedyNewEntries | src/kmeanproblem.cpp:132-159 | every added key is a definition index and every added value a centre index |
| ClusterMapping.GreedyNewEntriesInjective | src/kmeanproblem.cpp:132-159 | no two added entries share a centre |
| ClusterMapping.GreedyAddsOnePerCenter | src/kmeanproblem.cpp:132-159 | a successful matching adds exactly one entry per centre |
| ClusterMapping.GreedySucceedsIff | src/kmeanproblem.cpp:153-156 | it succeeds exactly when there are at least as many unmatched definitions as centres, and on failure every definition is matched |
| ClusterMapping.SucceedsFromEmptyIff | src/kmeanproblem.cpp:132-159 | from an empty map it succeeds exactly when there are no more centres than definitions |
| ClusterMapping.SelfMatching | src/kmeanproblem.cpp:128-160 | from an empty map, centres placed exactly at the definition centres, in order, are each matched to their own definition and the matching succeeds; shared centres are resolved by the lowest-index rule, so no distinctness is needed |

## Left out

- Console output (`std::cout` in `fit` and `make_cluster_mapping`) is left out. It has no effect on the results.
- The TBB `task_arena`/`parallel_for` concurrency is left out, and every loop runs sequentially. The unsynchronised `changes++` and `good++` in the source are data races; the model counts as the sequential code would.
- IEEE doubles are not modelled:
  - coordinates are exact reals;
  - the `numeric_limits<double>::max()` start of a minimum is "no candidate yet" (`Option`);
  - NaN, infinities and rounding (including `sqrt` mapping distinct squared distances to equal doubles) are not modelled.
- The `distances` vector of `fit` is written and never read, so it is not modelled.
- Engine.KMeansParallel.Fit: the unbounded `while (true)` is given at most `fuel` rounds, and termination of Lloyd's algorithm is not proved. The generation goes up only when a run converges within `fuel` rounds, because the source never returns from a run that does not converge.
- Engine.KMeansParallel.Fit: the starting centres are a value, so the source's copy (line 20) and the fact that `start_points` is never modified hold by construction and are not stated.
- Engine.KMeansParallel.Classify: writes into the caller's vector in place in the source. The model returns the new vector, so aliasing between that vector and the engine's own ids is not modelled.
- Lloyd.Iterate, Lloyd.IterateConvergesToFixedPoint and Engine.KMeansParallel.Fit require at least one centre unless there are no points. With points and no centres the source indexes `cluster_size[0]` of an empty vector (src/kmeans_parallel.cpp:62, 68), which is undefined behaviour, so the model leaves that case out.
- Engine.KMeansParallel.Compare: the `assert` on equal sizes becomes a precondition. A missing key (where `unordered_map::at` throws) becomes the result `None`.
- The `generation` counter and `size_t` are unbounded integers: integer overflow is not modelled, and neither are the negative `int` values of `k` and `generation` in `start_points_deterministic`.
- KMeanProblem.DataSet.Generate: covers both `generate_random` and `generate_deterministic`. The coordinate of each point is a parameter, a function of the definition's index, the definition and the point's index within it, because it comes from `std::normal_distribution` and `std::mt19937` in one and from `cos`/`sin` in the other.
- Assignment.AssignIsNearest, KMeanProblem.LabelsSorted, KMeanProblem.LabelCount, Objective.AssignMinimisesCost and Objective.RoundLowersCost hold only with at most 256 centres or definitions. Beyond that, the stored ids wrap modulo 256 (as `Common.ToByte` models).
- `KMeansClusterDefinition::load`, `DataSet::write_points`, `KMeans::load_clusters` and `KMeans::write_clusters` are file I/O and are not modelled.
- `start_points_random` draws from `std::random_device` and is not modelled.
- The serial `KMeans` implementation and its constructor are not part of this model. The engine's constructor is modelled with initial values assumed for `KMeans()`: generation 0, no ids and no centres.
- The benchmark and command-line drivers, the module factory table, the plotting script and the unrelated heat simulation are not part of this model.

## Findings

| source | as written | input that shows it | evidently intended | confidence | as-written member | corrected member |
|---|---|---|---|---|---|---|
| src/kmeans_parallel.cpp:13 | the ids are filled with 0 before the loop, and the first round's change count compares the new ids with that fill. When every point is nearest to centre 0, the first round counts no change and `fit` stops after one update, with centres that another round would move | points (-10,0), (4,0); start centres (0,0), (10,0): both points go to centre 0, centre 0 moves to (-3,0), and (4,0) is then nearer to (10,0) | stop only when an assignment step reproduces the previous step's ids, so the result is a fixed point of Lloyd's algorithm | not executed | Lloyd.RunStopsBeforeFixedPoint | Lloyd.RunCorrectedConvergesToFixedPoint |
