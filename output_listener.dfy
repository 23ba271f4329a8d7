/** The output_listener node: its mutable state (the history window and the
    latest accepted x) and the three handlers that change it, written as the
    node runs them and proved against the pure specifications Step, Intersect
    and Candidates. */
module OutputListener {
  import opened Geometry
  import opened Statistics
  import opened StabilityFilter
  import opened IntersectionEngine

  class Node {
    /** The node's tunable constants and its angle function (atan in degrees). */
    const config: Config
    const angle: real -> real

    /** The history window, oldest point first (intersectionPoints). */
    var intersectionPoints: seq<Point>
    /** The latest accepted x coordinate, sampled by the publishing loop (x_point). */
    var xPoint: real

    ghost predicate Valid()
      reads this
    {
      WindowInvariant(config, intersectionPoints)
    }

    function State(): FilterState
      reads this
    {
      FilterState(intersectionPoints, xPoint)
    }

    constructor (config: Config, angle: real -> real)
      ensures Valid() && this.config == config && this.angle == angle
      ensures State() == Initial
    {
      this.config := config;
      this.angle := angle;
      intersectionPoints := [];
      xPoint := 0.0;
    }

    /** filteredIntersection: region gate, push_back, pop_front past capacity,
        mean and population variance of x and y, pop_back on too much spread,
        otherwise publish the point's x. */
    method FilteredIntersection(point: Point)
      requires Valid()
      modifies this
      ensures Valid()
      ensures State() == Step(config, old(State()), point)
      ensures old(|intersectionPoints|) < MaxPoints && !Accepted(config, old(intersectionPoints), point)
              ==> intersectionPoints == old(intersectionPoints)
      ensures xPoint == (if Accepted(config, old(intersectionPoints), point) then point.x else old(xPoint))
    {
      ghost var st := State();
      if point.x < config.xMin || point.x > config.xMax || point.y < config.yMin || point.y > config.yMax {
        return;
      }
      intersectionPoints := intersectionPoints + [point];
      if |intersectionPoints| > MaxPoints {
        intersectionPoints := intersectionPoints[1..];
      }
      var n := |intersectionPoints| as real;
      var meanX := Sum(Xs(intersectionPoints)) / n;
      var meanY := Sum(Ys(intersectionPoints)) / n;
      var varianceX := SumSqDev(Xs(intersectionPoints), meanX) / n;
      var varianceY := SumSqDev(Ys(intersectionPoints), meanY) / n;
      if Exceeds(varianceX, config.desiredStdDev) || Exceeds(varianceY, config.desiredStdDev) {
        intersectionPoints := intersectionPoints[..|intersectionPoints| - 1];
        StepKeepsInvariant(config, st, point);
        if |st.window| < MaxPoints {
          RejectedRollsBack(config, st, point);
        }
        return;
      }
      xPoint := point.x;
      StepKeepsInvariant(config, st, point);
    }

    /** calculateIntersection: skip vertical or parallel pairs and pairs with
        an angle outside the band; otherwise forward the intersection of the
        two lines to the filter. */
    method CalculateIntersection(pt1: Point, pt2: Point, pt3: Point, pt4: Point)
      requires Valid()
      modifies this
      ensures Valid()
      ensures State() == Offer(config, old(State()), Intersect(config, angle, pt1, pt2, pt3, pt4))
    {
      var isVertical1 := pt2.x - pt1.x == 0.0;
      var isVertical2 := pt4.x - pt3.x == 0.0;
      var isParallel := !isVertical1 && !isVertical2
                        && (pt2.y - pt1.y) / (pt2.x - pt1.x) == (pt4.y - pt3.y) / (pt4.x - pt3.x);
      if isVertical1 || isVertical2 || isParallel {
        assert !Gated(config, angle, pt1, pt2, pt3, pt4);
        return;
      }
      var slope1 := (pt2.y - pt1.y) / (pt2.x - pt1.x);
      var slope2 := (pt4.y - pt3.y) / (pt4.x - pt3.x);
      var angle1 := angle(slope1);
      var angle2 := angle(slope2);
      if ((angle1 > config.minAngle && angle1 < config.maxAngle) || (angle1 < -config.minAngle && angle1 > -config.maxAngle))
         && ((angle2 > config.minAngle && angle2 < config.maxAngle) || (angle2 < -config.minAngle && angle2 > -config.maxAngle))
      {
        var yIntercept1 := pt1.y - slope1 * pt1.x;
        var yIntercept2 := pt3.y - slope2 * pt3.x;
        var xIntersection := (yIntercept2 - yIntercept1) / (slope1 - slope2);
        var yIntersection := slope1 * xIntersection + yIntercept1;
        assert slope1 == Slope(pt1, pt2) && slope2 == Slope(pt3, pt4);
        assert yIntercept1 == Intercept(pt1, pt2);
        assert yIntercept2 == Intercept(pt3, pt4);
        GatedMeet(config, angle, pt1, pt2, pt3, pt4);
        ghost var p := Meet(slope1, yIntercept1, slope2, yIntercept2);
        assert Intersect(config, angle, pt1, pt2, pt3, pt4) == Some(p);
        assert Point(xIntersection, yIntersection) == p;
        FilteredIntersection(Point(xIntersection, yIntersection));
      } else {
        assert !Gated(config, angle, pt1, pt2, pt3, pt4);
      }
    }

    /** lineArrayCallback: nothing for an empty frame; otherwise copy the
        endpoints into two lists and try every pair i < j in order. */
    method LineArrayCallback(lines: seq<Segment>)
      requires Valid()
      modifies this
      ensures Valid()
      ensures State() == RunFilter(config, old(State()), Candidates(config, angle, lines))
    {
      if |lines| == 0 {
        assert Candidates(config, angle, lines) == [];
        return;
      }
      var pt1List: seq<Point> := [];
      var pt2List: seq<Point> := [];
      for k := 0 to |lines|
        invariant |pt1List| == k && |pt2List| == k
        invariant forall m :: 0 <= m < k ==> pt1List[m] == lines[m].p1 && pt2List[m] == lines[m].p2
      {
        pt1List := pt1List + [lines[k].p1];
        pt2List := pt2List + [lines[k].p2];
      }
      var n := |pt1List|;
      ghost var st := State();
      ghost var cand := CandidateOf(config, angle, lines);
      var i := 0;
      while i < n
        invariant 0 <= i <= n
        invariant Valid()
        invariant State() == Swept(config, cand, n, st, i, i + 1)
      {
        var j := i + 1;
        while j < n
          invariant i + 1 <= j <= n
          invariant Valid()
          invariant State() == Swept(config, cand, n, st, i, j)
        {
          assert pt1List[i] == lines[i].p1 && pt2List[i] == lines[i].p2;
          assert pt1List[j] == lines[j].p1 && pt2List[j] == lines[j].p2;
          CalculateIntersection(pt1List[i], pt2List[i], pt1List[j], pt2List[j]);
          j := j + 1;
        }
        i := i + 1;
      }
      SweptCandidates(config, angle, lines, st);
    }
  }

  /** The filter's state after it is offered the outcome of one pair: a
      forwarded candidate goes through Step, no candidate changes nothing. */
  function Offer(c: Config, st: FilterState, candidate: Option<Point>): FilterState
  {
    match candidate
    case None => st
    case Some(p) => Step(c, st, p)
  }

  /** Offering one outcome is running the filter over what it forwards. */
  lemma OfferIsRun(c: Config, st: FilterState, s: seq<Point>, candidate: Option<Point>)
    ensures RunFilter(c, st, s + Emit(candidate)) == Offer(c, RunFilter(c, st, s), candidate)
  {
    match candidate
    case None =>
      assert s + [] == s;
    case Some(p) =>
      assert (s + [p])[..|s|] == s;
  }

  /** The filter state once the loops of lineArrayCallback reach (i, j) for
      n segments, built as the loops build it: one offer per inner iteration,
      nothing between rows. */
  function Swept(c: Config, cand: (nat, nat) -> Option<Point>, n: nat, st: FilterState, i: nat, j: nat): FilterState
    decreases i, j
  {
    if j > i + 1 then Offer(c, Swept(c, cand, n, st, i, j - 1), cand(i, j - 1))
    else if i == 0 then st
    else Swept(c, cand, n, st, i - 1, n)
  }

  /** One iteration of the inner loop: visiting one more pair keeps the loop
      state equal to the filter run over the candidates of the pairs visited. */
  lemma SweptOneMore(c: Config, cand: (nat, nat) -> Option<Point>, n: nat, st: FilterState, i: nat, j: nat)
    requires j > i + 1
    requires Swept(c, cand, n, st, i, j - 1) == RunFilter(c, st, Forwarded(cand, Visited(n, i, j - 1)))
    ensures Swept(c, cand, n, st, i, j) == RunFilter(c, st, Forwarded(cand, Visited(n, i, j)))
  {
    var ps, q := Visited(n, i, j - 1), (i, j - 1);
    assert Visited(n, i, j) == ps + [q];
    ForwardedSnoc(cand, ps, q);
    OfferIsRun(c, st, Forwarded(cand, ps), cand(q.0, q.1));
    assert Swept(c, cand, n, st, i, j) == Offer(c, Swept(c, cand, n, st, i, j - 1), cand(q.0, q.1));
  }

  /** At every (i, j) the loop state is the filter run over the candidates of
      the pairs visited so far, in visiting order. */
  lemma {:induction false} SweptIsRun(c: Config, cand: (nat, nat) -> Option<Point>, n: nat, st: FilterState, i: nat, j: nat)
    ensures Swept(c, cand, n, st, i, j) == RunFilter(c, st, Forwarded(cand, Visited(n, i, j)))
    decreases i, j
  {
    if j > i + 1 {
      SweptIsRun(c, cand, n, st, i, j - 1);
      SweptOneMore(c, cand, n, st, i, j);
    } else if i > 0 {
      SweptIsRun(c, cand, n, st, i - 1, n);
    }
  }

  /** Once both loops have finished, the filter has run over the frame's
      candidates. */
  lemma SweptCandidates(c: Config, angle: real -> real, lines: seq<Segment>, st: FilterState)
    requires |lines| > 0
    ensures Swept(c, CandidateOf(c, angle, lines), |lines|, st, |lines|, |lines| + 1)
            == RunFilter(c, st, Candidates(c, angle, lines))
  {
    var n := |lines|;
    var cand := CandidateOf(c, angle, lines);
    assert Swept(c, cand, n, st, n, n + 1) == Swept(c, cand, n, st, n - 1, n);
    SweptIsRun(c, cand, n, st, n - 1, n);
    assert Candidates(c, angle, lines) == Forwarded(cand, Visited(n, n - 1, n));
  }

  /** The example frame [(600,450)-(620,470), (600,550)-(650,500)]. */
  function ExampleFrame(): seq<Segment>
  {
    [Segment(Point(600.0, 450.0), Point(620.0, 470.0)), Segment(Point(600.0, 550.0), Point(650.0, 500.0))]
  }

  /** Its two lines have slopes 1 and -1 and intercepts -150 and 1150; with
      both slopes in the band they meet at (650, 500). */
  lemma ExamplePairMeets(angle: real -> real)
    requires InBand(Defaults, angle(1.0)) && InBand(Defaults, angle(-1.0))
    ensures PairCandidate(Defaults, angle, ExampleFrame(), 0, 1) == Some(Point(650.0, 500.0))
  {
    var lines := ExampleFrame();
    var a, b, c, d := lines[0].p1, lines[0].p2, lines[1].p1, lines[1].p2;
    assert Slope(a, b) == 1.0 && Intercept(a, b) == -150.0;
    assert Slope(c, d) == -1.0 && Intercept(c, d) == 1150.0;
    GatedMeet(Defaults, angle, a, b, c, d);
  }

  /** A frame of two segments forwards at most the candidate of its one pair. */
  lemma TwoSegmentFrame(c: Config, angle: real -> real, lines: seq<Segment>)
    requires |lines| == 2
    ensures Candidates(c, angle, lines) == Emit(PairCandidate(c, angle, lines, 0, 1))
  {
    assert Visited(2, 0, 1) == [];
    assert Pairs(2) == [] + [(0, 1)];
  }

  /** A two-segment frame whose pair meets at p forwards exactly p. */
  lemma TwoSegmentSingle(c: Config, angle: real -> real, lines: seq<Segment>, p: Point)
    ensures |lines| == 2 && PairCandidate(c, angle, lines, 0, 1) == Some(p) ==> Candidates(c, angle, lines) == [p]
  {
    if |lines| == 2 {
      TwoSegmentFrame(c, angle, lines);
    }
  }

  /** That point is the frame's only candidate. */
  lemma ExampleFrameCandidates(angle: real -> real)
    requires InBand(Defaults, angle(1.0)) && InBand(Defaults, angle(-1.0))
    ensures Candidates(Defaults, angle, ExampleFrame()) == [Point(650.0, 500.0)]
  {
    var lines := ExampleFrame();
    var p := Point(650.0, 500.0);
    ExamplePairMeets(angle);
    TwoSegmentSingle(Defaults, angle, lines, p);
  }

  /** The same frame arriving at a freshly started node: the candidate passes
      both gates, enters the empty window and becomes the published x. */
  lemma FirstFrameExample(angle: real -> real)
    requires InBand(Defaults, angle(1.0)) && InBand(Defaults, angle(-1.0))
    ensures RunFilter(Defaults, Initial, Candidates(Defaults, angle, ExampleFrame()))
            == FilterState([Point(650.0, 500.0)], 650.0)
  {
    var p := Point(650.0, 500.0);
    ExampleFrameCandidates(angle);
    assert [p][..0] == [];
    FirstPointAccepted(Defaults, 0.0, p);
  }
}
