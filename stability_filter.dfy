/** The stability filter of filteredIntersection as a pure specification:
    one step on a candidate point, a run over a stream of candidates, and the
    properties the node relies on (capacity, region gate, tail rollback, the
    latest accepted x). The class in OutputListener is proved against Step. */
module StabilityFilter {
  import opened Geometry
  import opened Statistics

  /** The history window (oldest point first) and the latest accepted x. */
  datatype FilterState = FilterState(window: seq<Point>, xPoint: real)

  /** Empty window and x_point = 0 at start-up. */
  const Initial: FilterState := FilterState([], 0.0)

  /** The x coordinates of the window, in window order. */
  function Xs(w: seq<Point>): (r: seq<real>)
    ensures |r| == |w| && forall i :: 0 <= i < |w| ==> r[i] == w[i].x
  {
    seq(|w|, i requires 0 <= i < |w| => w[i].x)
  }

  /** The y coordinates of the window, in window order. */
  function Ys(w: seq<Point>): (r: seq<real>)
    ensures |r| == |w| && forall i :: 0 <= i < |w| ==> r[i] == w[i].y
  {
    seq(|w|, i requires 0 <= i < |w| => w[i].y)
  }

  /** push_back of p, then pop_front when the window has grown past MaxPoints. */
  function Admit(w: seq<Point>, p: Point): seq<Point>
  {
    if |w + [p]| > MaxPoints then (w + [p])[1..] else w + [p]
  }

  /** The spread gate: the standard deviation of x or of y exceeds the threshold. */
  predicate TooSpread(c: Config, w: seq<Point>)
    requires |w| > 0
  {
    Exceeds(Variance(Xs(w)), c.desiredStdDev) || Exceeds(Variance(Ys(w)), c.desiredStdDev)
  }

  /** A point is accepted when it passes the region gate and the window it
      would produce passes the spread gate. */
  predicate Accepted(c: Config, w: seq<Point>, p: Point)
  {
    InRegion(c, p) && !TooSpread(c, Admit(w, p))
  }

  /** One call of filteredIntersection. A rejected point is popped from the
      tail again, after the pop_front (if any) has already happened. */
  function Step(c: Config, st: FilterState, p: Point): FilterState
  {
    if !InRegion(c, p) then st
    else
      var w := Admit(st.window, p);
      if TooSpread(c, w) then FilterState(w[..|w| - 1], st.xPoint)
      else FilterState(w, p.x)
  }

  /** The outcome of one step: a point outside the region changes nothing;
      an accepted point becomes the newest in the window and the published x;
      a rejected one leaves the published x alone; capacity is never exceeded. */
  lemma StepOutcome(c: Config, st: FilterState, p: Point)
    ensures var r := Step(c, st, p);
            && (!InRegion(c, p) ==> r == st)
            && (Accepted(c, st.window, p) ==> r.xPoint == p.x && |r.window| > 0 && r.window[|r.window| - 1] == p)
            && (!Accepted(c, st.window, p) ==> r.xPoint == st.xPoint)
            && (|st.window| <= MaxPoints ==> |r.window| <= MaxPoints)
  {
  }

  /** What the node keeps true of its window: within capacity, and every
      point in it passed the region gate. */
  predicate WindowInvariant(c: Config, w: seq<Point>)
  {
    |w| <= MaxPoints && forall i :: 0 <= i < |w| ==> InRegion(c, w[i])
  }

  /** The last MaxPoints elements of s (all of s when it is shorter). */
  function LastN(s: seq<Point>): (r: seq<Point>)
    ensures |r| <= MaxPoints
    ensures |s| <= MaxPoints ==> r == s
    ensures |s| > MaxPoints ==> |r| == MaxPoints && forall i :: 0 <= i < MaxPoints ==> r[i] == s[|s| - MaxPoints + i]
  {
    if |s| <= MaxPoints then s else s[|s| - MaxPoints..]
  }

  /** An accepted point ends up at the tail, and the window is the old one with
      the point appended, minus the oldest point when the old one was full:
      the most recent MaxPoints points. */
  lemma AcceptedAppends(c: Config, st: FilterState, p: Point)
    requires |st.window| <= MaxPoints && Accepted(c, st.window, p)
    ensures Step(c, st, p).window == (if |st.window| == MaxPoints then st.window[1..] else st.window) + [p]
    ensures Step(c, st, p).window == LastN(st.window + [p])
    ensures Step(c, st, p).xPoint == p.x
  {
    var w := st.window;
    if |w| == MaxPoints {
      assert (w + [p])[1..] == w[1..] + [p];
    }
  }

  /** A point rejected by the spread gate leaves the window as it was when
      there was room for it. When the window was full, the oldest point has
      been dropped all the same: the rollback only undoes the push_back. */
  lemma RejectedRollsBack(c: Config, st: FilterState, p: Point)
    requires |st.window| <= MaxPoints && InRegion(c, p) && !Accepted(c, st.window, p)
    ensures Step(c, st, p).window == (if |st.window| < MaxPoints then st.window else st.window[1..])
    ensures Step(c, st, p).xPoint == st.xPoint
  {
    var w := st.window;
    if |w| < MaxPoints {
      assert (w + [p])[..|w|] == w;
    } else {
      assert (w + [p])[1..][..|w| - 1] == w[1..];
    }
  }

  /** The lost-oldest effect is reachable: with a zero threshold, a full window
      of identical points and a new point one pixel to the right, the new
      point is rejected and the window shrinks to 99 points. */
  lemma FullWindowRejectionLosesOldest()
    ensures var c := Config(540.0, 740.0, 400.0, 600.0, 10.0, 80.0, 0.0);
            var w := seq(MaxPoints, i => Point(600.0, 500.0));
            var r := Step(c, FilterState(w, 600.0), Point(601.0, 500.0));
            r.window == w[1..] && |r.window| == MaxPoints - 1 && r.xPoint == 600.0
  {
    var c := Config(540.0, 740.0, 400.0, 600.0, 10.0, 80.0, 0.0);
    var w := seq(MaxPoints, i => Point(600.0, 500.0));
    var p := Point(601.0, 500.0);
    var a := Admit(w, p);
    assert a == w[1..] + [p];
    var xs := Xs(a);
    assert xs[0] == 600.0 && xs[|xs| - 1] == 601.0;
    ZeroVarianceIffConstant(xs);
    assert Variance(xs) > Square(0.0);
    assert TooSpread(c, a);
    RejectedRollsBack(c, FilterState(w, 600.0), p);
  }

  /** A point that passes the region gate and reaches an empty window is
      accepted as long as the threshold is not negative: its spread is 0. */
  lemma FirstPointAccepted(c: Config, x: real, p: Point)
    requires InRegion(c, p) && c.desiredStdDev >= 0.0
    ensures Accepted(c, [], p)
    ensures Step(c, FilterState([], x), p) == FilterState([p], p.x)
  {
    var a := Admit([], p);
    assert a == [p];
    ZeroVarianceIffConstant(Xs(a));
    ZeroVarianceIffConstant(Ys(a));
    SquareNonNegative(c.desiredStdDev);
  }

  /** A negative threshold rejects every point, the first one included. */
  lemma NegativeThresholdRejectsAll(c: Config, w: seq<Point>, p: Point)
    requires c.desiredStdDev < 0.0
    ensures !Accepted(c, w, p)
  {
  }

  /** Each call keeps the window invariant. */
  lemma StepKeepsInvariant(c: Config, st: FilterState, p: Point)
    requires WindowInvariant(c, st.window)
    ensures WindowInvariant(c, Step(c, st, p).window)
  {
    if InRegion(c, p) {
      var w := st.window;
      var a := Admit(w, p);
      forall i | 0 <= i < |a|
        ensures InRegion(c, a[i])
      {
        if |w + [p]| > MaxPoints {
          assert a[i] == (w + [p])[i + 1];
        } else {
          assert a[i] == (w + [p])[i];
        }
      }
    }
  }

  /** The region is narrow enough for the threshold: no window of in-region
      points can have a standard deviation above it. */
  predicate SpreadCannotReject(c: Config)
  {
    c.desiredStdDev >= 0.0
    && Square(c.xMax - c.xMin) <= Square(c.desiredStdDev)
    && Square(c.yMax - c.yMin) <= Square(c.desiredStdDev)
  }

  /** With such a configuration every in-region point is accepted. */
  lemma InRegionAlwaysAccepted(c: Config, w: seq<Point>, p: Point)
    requires SpreadCannotReject(c) && WindowInvariant(c, w) && InRegion(c, p)
    ensures Accepted(c, w, p)
  {
    var a := Admit(w, p);
    assert forall i :: 0 <= i < |a| ==> InRegion(c, a[i]);
    var xs, ys := Xs(a), Ys(a);
    assert forall i :: 0 <= i < |xs| ==> c.xMin <= xs[i] <= c.xMax;
    assert forall i :: 0 <= i < |ys| ==> c.yMin <= ys[i] <= c.yMax;
    BoundedValuesPassGate(xs, c.xMin, c.xMax, c.desiredStdDev);
    BoundedValuesPassGate(ys, c.yMin, c.yMax, c.desiredStdDev);
  }

  /** The default 200 x 200 region is such a configuration for the default
      threshold of 1000: the spread gate never fires. */
  lemma DefaultsSpreadCannotReject()
    ensures SpreadCannotReject(Defaults)
  {
    calc {
      Square(Defaults.xMax - Defaults.xMin);
   == 200.0 * 200.0;
   <= 1000.0 * 1000.0;
   == Square(Defaults.desiredStdDev);
    }
  }

  /** The filter applied to a stream of candidates, in arrival order. */
  function RunFilter(c: Config, st: FilterState, pts: seq<Point>): FilterState
  {
    if pts == [] then st
    else Step(c, RunFilter(c, st, pts[..|pts| - 1]), pts[|pts| - 1])
  }

  /** The candidates that pass the region gate, in arrival order: exactly
      the in-region ones are kept. */
  function InRegionOnly(c: Config, pts: seq<Point>): (r: seq<Point>)
    ensures |r| <= |pts|
    ensures forall i :: 0 <= i < |r| ==> InRegion(c, r[i])
  {
    if pts == [] then []
    else
      var q := pts[|pts| - 1];
      InRegionOnly(c, pts[..|pts| - 1]) + (if InRegion(c, q) then [q] else [])
  }

  /** A candidate is kept exactly when it arrived and passes the region gate. */
  lemma {:induction false} InRegionOnlyMembers(c: Config, pts: seq<Point>)
    ensures forall q :: q in InRegionOnly(c, pts) <==> q in pts && InRegion(c, q)
  {
    if pts != [] {
      var init, last := pts[..|pts| - 1], pts[|pts| - 1];
      InRegionOnlyMembers(c, init);
      assert pts == init + [last];
    }
  }

  /** The gate keeps arrival order: the kept points of a stream split in two
      are the kept points of the first part followed by those of the second. */
  lemma {:induction false} InRegionOnlyAppend(c: Config, a: seq<Point>, b: seq<Point>)
    ensures InRegionOnly(c, a + b) == InRegionOnly(c, a) + InRegionOnly(c, b)
  {
    if b == [] {
      assert a + b == a;
    } else {
      var init, q := b[..|b| - 1], b[|b| - 1];
      InRegionOnlyAppend(c, a, init);
      assert (a + b)[..|a + b| - 1] == a + init;
      assert (a + b)[|a + b| - 1] == q;
    }
  }

  /** The window invariant holds after any stream of candidates. */
  lemma {:induction false} RunKeepsInvariant(c: Config, st: FilterState, pts: seq<Point>)
    requires WindowInvariant(c, st.window)
    ensures WindowInvariant(c, RunFilter(c, st, pts).window)
  {
    if pts != [] {
      RunKeepsInvariant(c, st, pts[..|pts| - 1]);
      StepKeepsInvariant(c, RunFilter(c, st, pts[..|pts| - 1]), pts[|pts| - 1]);
    }
  }

  lemma LastNAppend(s: seq<Point>, p: Point)
    ensures Admit(LastN(s), p) == LastN(s + [p])
  {
    if |s| > MaxPoints {
      assert s[|s| - MaxPoints..] + [p] == (s + [p])[|s| - MaxPoints..];
      assert (s + [p])[|s| - MaxPoints..][1..] == (s + [p])[|s| + 1 - MaxPoints..];
    } else if |s| == MaxPoints {
      assert (s + [p])[1..] == (s + [p])[|s| + 1 - MaxPoints..];
    }
  }

  /** One step when the spread gate cannot fire: the window stays the most
      recent MaxPoints in-region points of the history s. */
  lemma StepKeepsLatest(c: Config, st: FilterState, q: Point, s: seq<Point>)
    requires SpreadCannotReject(c) && WindowInvariant(c, st.window) && st.window == LastN(s)
    ensures Step(c, st, q).window == LastN(s + (if InRegion(c, q) then [q] else []))
    ensures Step(c, st, q).xPoint == if InRegion(c, q) then q.x else st.xPoint
  {
    if InRegion(c, q) {
      InRegionAlwaysAccepted(c, st.window, q);
      LastNAppend(s, q);
    } else {
      assert s + [] == s;
    }
  }

  /** When the spread gate cannot fire, the window after a stream holds exactly
      the most recent MaxPoints in-region points, and x_point is the x of the
      last in-region candidate (or unchanged when there was none). */
  lemma {:induction false} RunKeepsLatest(c: Config, st: FilterState, pts: seq<Point>)
    requires SpreadCannotReject(c) && WindowInvariant(c, st.window)
    ensures RunFilter(c, st, pts).window == LastN(st.window + InRegionOnly(c, pts))
    ensures var g := InRegionOnly(c, pts);
            RunFilter(c, st, pts).xPoint == if g == [] then st.xPoint else g[|g| - 1].x
  {
    if pts == [] {
      assert st.window + [] == st.window;
    } else {
      var init, q := pts[..|pts| - 1], pts[|pts| - 1];
      RunKeepsLatest(c, st, init);
      RunKeepsInvariant(c, st, init);
      var s := st.window + InRegionOnly(c, init);
      var tail := if InRegion(c, q) then [q] else [];
      StepKeepsLatest(c, RunFilter(c, st, init), q, s);
      assert InRegionOnly(c, pts) == InRegionOnly(c, init) + tail;
      assert st.window + InRegionOnly(c, pts) == s + tail;
    }
  }
}
