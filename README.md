# hough_lines_output: output_listener node

A Dafny model of the sequential core of the `output_listener` ROS node.
The node receives frames of detected line segments from a Hough transform
and intersects every pair of segments. It keeps only the intersections that
fall in a trusted image region and that do not make the recent history too
spread out, and it remembers the x coordinate of the latest accepted
intersection (`x_point`), which its main loop publishes.

The model has five modules:

- `Geometry` (geometry.dfy) holds points, segments, the capacity `MaxPoints = 100`,
  the node's tunable constants (`Config`, with the node's own values as `Defaults`)
  and the rectangular region gate.
- `Statistics` (statistics.dfy) holds the `std::accumulate` folds for the sum,
  mean and population variance of one coordinate. It also holds the spread test,
  written without the square root (`Exceeds`), and lemmas about both.
- `StabilityFilter` (stability_filter.dfy) is the pure specification of
  `filteredIntersection`: one `Step` on a point, and `RunFilter` over a stream of
  points. Its lemmas cover capacity, the region gate, tail rollback and the
  latest accepted x.
- `IntersectionEngine` (intersection_engine.dfy) is the pure specification of
  `calculateIntersection` (`Intersect`) and of the pair enumeration of
  `lineArrayCallback` (`Pairs`, `Candidates`). Its lemmas cover the gates, the
  geometry of the result and the order of visits.
- `OutputListener` (output_listener.dfy) is the node itself. `class Node` holds
  the window `intersectionPoints` (a `seq`, oldest first) and `xPoint`. Its three
  methods are the three handlers, written step by step as the node runs them and
  each proved equal to the pure specification.

A point rejected by the spread gate is not always undone. When the window is
already full, the new point first evicts the oldest point (`pop_front`) and is
then removed again (`pop_back`), so the window ends one point shorter than
before. The model follows the code here (`RejectedRollsBack`,
`FullWindowRejectionLosesOldest`). It does not treat the filter as
all-or-nothing.

With the node's own constants (a 200 x 200 region and a threshold of 1000),
the spread gate can never fire. The region bounds every standard deviation by
200 (`DefaultsSpreadCannotReject`, `InRegionAlwaysAccepted`). Under such
configurations the window is exactly the last 100 in-region candidates
(`RunKeepsLatest`).

## Model

| member | source | states |
|---|---|---|
| `Statistics.Sum` | src/output_listener.cpp:63-66 | (no ensures of its own) the `std::accumulate` fold with `+` from 0; `SumOfConstant` gives its value for a constant sequence; `SumBetween` bounds it |
| `Statistics.Mean` | src/output_listener.cpp:63-66 | (no ensures of its own) the sum divided by the count; `MeanBetween` bounds it and `SumOfConstant` gives it for a constant window |
| `Statistics.SumSqDev` | src/output_listener.cpp:69-72 | the fold of squared deviations is never negative |
| `Statistics.Variance` | src/output_listener.cpp:62-72 | the population variance (squared deviations over the count) is never negative |
| `Statistics.Exceeds` | src/output_listener.cpp:74 | (no ensures of its own) the comparison `stdDev > desiredStdDev` on the variance; `StdDevGate` proves it agrees with the comparison on the root |
| `Statistics.StdDevGate` | src/output_listener.cpp:69-74 | for any non-negative square root `sd` of the variance, `sd > limit` holds exactly when `Exceeds(variance, limit)` does; this justifies the square-root-free test, negative limits included |
| `Statistics.ZeroVarianceIffConstant` | src/output_listener.cpp:62-72 | the variance is 0 exactly when all values are equal (both directions) |
| `Statistics.SumOfConstant` | src/output_listener.cpp:63-66 | n copies of a sum to n * a |
| `Statistics.SqDevAtLeastTerm` | src/output_listener.cpp:69-72 | the fold of squared deviations is at least any one of its terms |
| `Statistics.MeanBetween` | src/output_listener.cpp:63-66 | the mean of values in [lo, hi] lies in [lo, hi] |
| `Statistics.VarianceBounded` | src/output_listener.cpp:62-72 | values confined to [lo, hi] have a variance of at most (hi - lo)^2 |
| `Statistics.BoundedValuesPassGate` | src/output_listener.cpp:62-74 | such values never trip the spread gate when (hi - lo)^2 is within the squared threshold |
| `Geometry.InRegion` | src/output_listener.cpp:43-46 | (no ensures of its own) the closed-box region test; `StepOutcome` states that a point failing it changes nothing, `StepKeepsInvariant` that the window holds only points passing it |
| `StabilityFilter.Admit` | src/output_listener.cpp:55-60 | (no ensures of its own) push_back, then pop_front past capacity; `LastNAppend` proves it keeps the last 100 points and `AcceptedAppends` states the result |
| `StabilityFilter.TooSpread` | src/output_listener.cpp:62-74 | (no ensures of its own) the spread gate on x or y; `StdDevGate`, `BoundedValuesPassGate` and `NegativeThresholdRejectsAll` state when it fires |
| `StabilityFilter.Accepted` | src/output_listener.cpp:43-78 | (no ensures of its own) both gates pass; `FirstPointAccepted`, `NegativeThresholdRejectsAll` and `InRegionAlwaysAccepted` state when it holds |
| `StabilityFilter.Step` | src/output_listener.cpp:36-83 | (no ensures of its own) one call of the filter; `StepOutcome`, `AcceptedAppends`, `RejectedRollsBack` and `StepKeepsInvariant` state it, and `Node.FilteredIntersection` is proved equal to it |
| `StabilityFilter.RunFilter` | src/output_listener.cpp:36-83 | (no ensures of its own) the filter called once per candidate in arrival order; `RunKeepsInvariant` and `RunKeepsLatest` state it, and `Node.LineArrayCallback` is proved equal to it over a frame's candidates |
| `StabilityFilter.StepOutcome` | src/output_listener.cpp:36-83 | one step leaves the state unchanged for an out-of-region point; it makes an accepted point the newest in the window and its x the published x; a rejected point leaves the published x alone; the capacity is never exceeded |
| `StabilityFilter.LastN` | src/output_listener.cpp:55-60 | the last `MaxPoints` elements: at most `MaxPoints` of them, all of the input when it is short enough, otherwise exactly its tail |
| `StabilityFilter.AcceptedAppends` | src/output_listener.cpp:55-60 | an accepted point makes the window the old one plus the point, minus the oldest when the old one was full (the last 100 points), and sets x to the point's x |
| `StabilityFilter.RejectedRollsBack` | src/output_listener.cpp:55-77 | a point rejected for spread restores the window exactly when it held fewer than 100 points; otherwise the window loses its oldest point; x is unchanged |
| `StabilityFilter.FullWindowRejectionLosesOldest` | src/output_listener.cpp:55-77 | a concrete full window and a concrete rejected point shrink the window to 99 points with x unchanged |
| `StabilityFilter.FirstPointAccepted` | src/output_listener.cpp:55-82 | an in-region point reaching an empty window is accepted (its variance is 0) whenever the threshold is not negative; the window becomes that one point and x becomes its x |
| `StabilityFilter.NegativeThresholdRejectsAll` | src/output_listener.cpp:74-77 | a negative threshold rejects every point, since any standard deviation exceeds it |
| `StabilityFilter.StepKeepsInvariant` | src/output_listener.cpp:43-60 | each step keeps the window within capacity and made only of in-region points |
| `StabilityFilter.InRegionAlwaysAccepted` | src/output_listener.cpp:43-78 | when the region's width and height are within the threshold, every in-region point is accepted |
| `StabilityFilter.DefaultsSpreadCannotReject` | src/output_listener.cpp:23-32 | the node's own constants are such a configuration |
| `StabilityFilter.InRegionOnly` | src/output_listener.cpp:43-46 | the candidates a stream keeps past the region gate: no more than the stream, and all in the region |
| `StabilityFilter.InRegionOnlyMembers` | src/output_listener.cpp:43-46 | a candidate is kept exactly when it arrived and lies in the region (both directions) |
| `StabilityFilter.InRegionOnlyAppend` | src/output_listener.cpp:43-46 | the gate keeps arrival order: the kept points of two consecutive parts of a stream are those of the first followed by those of the second |
| `StabilityFilter.RunKeepsInvariant` | src/output_listener.cpp:36-83 | the window invariant holds after any stream of candidates |
| `StabilityFilter.LastNAppend` | src/output_listener.cpp:55-60 | admitting a point to the last 100 points of a history gives the last 100 of the extended history |
| `StabilityFilter.StepKeepsLatest` | src/output_listener.cpp:43-82 | when the spread gate cannot fire, one step keeps the window equal to the last 100 in-region points of the history and x equal to the latest in-region x |
| `StabilityFilter.RunKeepsLatest` | src/output_listener.cpp:36-83 | when the spread gate cannot fire, after any stream the window is exactly the last 100 in-region candidates, and x is the x of the last in-region candidate (unchanged if there was none) |
| `IntersectionEngine.Vertical` | src/output_listener.cpp:89-90 | (no ensures of its own) a zero x-delta; `Intersect` forwards nothing when it holds |
| `IntersectionEngine.Slope` | src/output_listener.cpp:103-104 | (no ensures of its own) rise over run of a non-vertical segment; `OnLineIffEquation` ties it to the line through the segment |
| `IntersectionEngine.Intercept` | src/output_listener.cpp:115-116 | (no ensures of its own) the y-intercept through the segment's first point; `OnLineIffEquation` ties it to the line |
| `IntersectionEngine.InBand` | src/output_listener.cpp:113 | (no ensures of its own) the angle band and its mirror; `BandBySlope` restates it as a band on the slope |
| `IntersectionEngine.Gated` | src/output_listener.cpp:89-113 | (no ensures of its own) all gates pass; `Intersect` forwards a candidate exactly when it holds |
| `IntersectionEngine.Meet` | src/output_listener.cpp:119-122 | (no ensures of its own) the intersection formula; `IntersectionOnBothLines` and `IntersectionUnique` prove the point it gives lies on both lines and is the only such point |
| `IntersectionEngine.Intersect` | src/output_listener.cpp:86-136 | a candidate is forwarded exactly when neither segment is vertical, the slopes differ and both angles lie in the band (both directions) |
| `IntersectionEngine.OnLineIffEquation` | src/output_listener.cpp:103-116 | for a non-vertical segment, a point is on its line exactly when it satisfies `y = slope * x + intercept` |
| `IntersectionEngine.IntersectionOnBothLines` | src/output_listener.cpp:115-122 | a forwarded candidate lies on both lines |
| `IntersectionEngine.IntersectionUnique` | src/output_listener.cpp:115-122 | a forwarded candidate is the only point on both lines |
| `IntersectionEngine.CrossingDiagonals` | src/output_listener.cpp:86-136 | the lines y = x and y = 10 - x meet at (5, 5) when the band admits slopes 1 and -1 |
| `IntersectionEngine.BandBySlope` | src/output_listener.cpp:110-113 | for a strictly increasing odd angle function (as the arctangent in degrees is), the angle band is the slope band (tan min, tan max) and its mirror |
| `IntersectionEngine.Visited` | src/output_listener.cpp:171-177 | (no ensures of its own) the pairs the nested loops have visited on reaching (i, j); `VisitedMembers`, `VisitedSorted` and `VisitedCount` state it |
| `IntersectionEngine.Pairs` | src/output_listener.cpp:171-177 | (no ensures of its own) every pair the loops visit; `PairsExactly` states it |
| `IntersectionEngine.VisitedMembers` | src/output_listener.cpp:171-177 | when the loops reach (i, j), they have visited exactly the earlier rows and the start of row i |
| `IntersectionEngine.VisitedSorted` | src/output_listener.cpp:171-177 | the loops visit pairs in strictly increasing lexicographic order |
| `IntersectionEngine.VisitedCount` | src/output_listener.cpp:171-177 | the number of pairs visited by the time the loops reach (i, j) |
| `IntersectionEngine.PairsExactly` | src/output_listener.cpp:171-177 | the loops visit exactly the pairs i < j < n, each once, in lexicographic order, n(n - 1)/2 of them |
| `IntersectionEngine.PairCandidate` | src/output_listener.cpp:175 | (no ensures of its own) the outcome of the call for pair (i, j) of the frame; `CandidatesExactly` states the frame's candidates through it |
| `IntersectionEngine.Forwarded` | src/output_listener.cpp:171-177 | visiting pairs forwards no more candidates than pairs visited; `ForwardedSound` and `ForwardedComplete` give its members |
| `IntersectionEngine.ForwardedSound` | src/output_listener.cpp:171-177 | every forwarded candidate comes from a visited pair with that outcome |
| `IntersectionEngine.ForwardedComplete` | src/output_listener.cpp:171-177 | every visited pair with a candidate has it forwarded |
| `IntersectionEngine.Candidates` | src/output_listener.cpp:170-177 | (no ensures of its own) the candidates one frame forwards, in visiting order; `CandidatesExactly` states its members and size |
| `IntersectionEngine.CandidatesExactly` | src/output_listener.cpp:138-178 | a frame forwards p exactly when some pair i < j of its segments intersects at p through every gate; an empty or one-segment frame forwards nothing; a frame forwards at most n(n - 1)/2 candidates |
| `OutputListener.Node.constructor` | src/output_listener.cpp:18-34 | a fresh node has an empty window and x = 0, and holds the given constants |
| `OutputListener.Node.FilteredIntersection` | src/output_listener.cpp:36-83 | the imperative handler changes the node's state exactly as `Step` does and keeps the window invariant; a rejected point with room in the window leaves the window unchanged; x changes exactly on acceptance, to the point's x |
| `OutputListener.Node.CalculateIntersection` | src/output_listener.cpp:86-136 | the imperative handler offers the filter exactly the candidate `Intersect` gives, and offers nothing when a gate fails |
| `OutputListener.Node.LineArrayCallback` | src/output_listener.cpp:138-178 | the handler (empty check, endpoint lists, nested loops) leaves the node in the state of the filter run over the frame's candidates in visiting order |
| `OutputListener.Offer` | src/output_listener.cpp:113-135 | (no ensures of its own) the filter offered one pair's outcome: a forwarded candidate goes through `Step`, none changes nothing; `Node.CalculateIntersection` is proved equal to it |
| `OutputListener.Swept` | src/output_listener.cpp:171-177 | (no ensures of its own) the node's state as the nested loops build it; `SweptIsRun` proves it equal to the filter run over the candidates of the visited pairs |
| `OutputListener.SweptOneMore` | src/output_listener.cpp:173-176 | one more inner-loop iteration keeps the loop state equal to the filter run over the candidates of the pairs visited so far |
| `OutputListener.SweptIsRun` | src/output_listener.cpp:171-177 | at every point (i, j) of the nested loops, the state is the filter run over the candidates of exactly the pairs visited so far, in visiting order |
| `OutputListener.SweptCandidates` | src/output_listener.cpp:171-177 | once both loops finish, the state is the filter run over all of the frame's candidates |
| `OutputListener.ExamplePairMeets` | src/output_listener.cpp:103-122 | the segments (600,450)-(620,470) and (600,550)-(650,500) meet at (650, 500) when both 45-degree slopes are in the band |
| `OutputListener.TwoSegmentFrame` | src/output_listener.cpp:171-177 | a two-segment frame forwards at most the candidate of its single pair |
| `OutputListener.TwoSegmentSingle` | src/output_listener.cpp:171-177 | a two-segment frame whose pair meets at p forwards exactly p |
| `OutputListener.ExampleFrameCandidates` | src/output_listener.cpp:138-178 | that example frame forwards exactly (650, 500) |
| `OutputListener.FirstFrameExample` | src/output_listener.cpp:36-178 | that frame, arriving at a fresh node, leaves the window holding (650, 500) and x = 650 |

## Left out

- `main` (src/output_listener.cpp:189-219) is left out: ROS initialisation, the subscription, the publisher, `spinOnce` and the 10 Hz loop that publishes `x_point` are transport and scheduling. The model's `Node.xPoint` is the value that loop samples.
- `imageCallback` (src/output_listener.cpp:180-187) is left out: it only logs the image resolution.
- `ROS_WARN` / `ROS_INFO` logging is left out: it changes no state.
- Floating point is left out: coordinates and statistics are exact reals. The model has no rounding and no infinities or NaN. The parallel test at :93 would divide by zero for a vertical segment, but :96 discards that case first; the model only evaluates it once both segments are known to be non-vertical. The `double` to `float` narrowing of `x_point` (:34, :82) is not modelled either.
- `atan(slope) * 180 / pi` (:110-111) is a parameter `angle: real -> real` of the node and of the specifications. `BandBySlope` states the band for any strictly increasing odd angle function, as the arctangent is. Trigonometry itself is not modelled.
- The unused `angleThreshold` (:107) and the `rad2deg` macro (:12) are left out.
- The conversion of each endpoint from an opencv `Point2D` to a `geometry_msgs::Point` (:152-164) copies x and y and sets z to 0. A point here has only x and y, so the copy into `pt1List` / `pt2List` is modelled as copying points.
- The globals `xMin` .. `desiredStdDev` are a `Config` fixed when a node is constructed. The node never changes them.
- `Statistics.StdDevGate`: the filter compares the variance with the squared threshold instead of taking `sqrt`. This lemma shows the two tests agree for any non-negative root of the variance. It does not model the rounding of `std::sqrt`.
- `OutputListener.Node.FilteredIntersection`: the rollback clause is stated only for a window with room. For a full window, the loss of the oldest point follows from `Step` and is stated by `RejectedRollsBack`.
