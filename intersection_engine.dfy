/** The intersection engine of calculateIntersection and lineArrayCallback as
    a pure specification: the vertical/parallel/angle gates, the slope-intercept
    intersection, the lexicographic enumeration of the pairs i < j, and the
    stream of candidates a frame forwards to the stability filter. */
module IntersectionEngine {
  import opened Geometry

  datatype Option<T> = None | Some(value: T)

  /** A segment whose endpoints have the same x: its slope is undefined. */
  predicate Vertical(a: Point, b: Point)
  {
    b.x - a.x == 0.0
  }

  function Slope(a: Point, b: Point): real
    requires !Vertical(a, b)
  {
    (b.y - a.y) / (b.x - a.x)
  }

  /** The y-intercept of the line through a with slope Slope(a, b). */
  function Intercept(a: Point, b: Point): real
    requires !Vertical(a, b)
  {
    a.y - Slope(a, b) * a.x
  }

  /** The angle band in degrees: (min, max) or its mirror (-max, -min). */
  predicate InBand(c: Config, deg: real)
  {
    (deg > c.minAngle && deg < c.maxAngle) || (deg < -c.minAngle && deg > -c.maxAngle)
  }

  /** p lies on the line through a and b, stated without dividing. */
  predicate OnLine(p: Point, a: Point, b: Point)
  {
    (p.y - a.y) * (b.x - a.x) == (p.x - a.x) * (b.y - a.y)
  }

  /** All gates of calculateIntersection pass for the lines (pt1, pt2) and
      (pt3, pt4); angle gives the angle in degrees of a slope (atan in
      degrees in the node). */
  predicate Gated(c: Config, angle: real -> real, pt1: Point, pt2: Point, pt3: Point, pt4: Point)
  {
    !Vertical(pt1, pt2) && !Vertical(pt3, pt4)
    && Slope(pt1, pt2) != Slope(pt3, pt4)
    && InBand(c, angle(Slope(pt1, pt2))) && InBand(c, angle(Slope(pt3, pt4)))
  }

  /** The candidate calculateIntersection forwards for one pair of lines, if any. */
  function Intersect(c: Config, angle: real -> real, pt1: Point, pt2: Point, pt3: Point, pt4: Point): (r: Option<Point>)
    ensures r.Some? <==> Gated(c, angle, pt1, pt2, pt3, pt4)
  {
    if Vertical(pt1, pt2) || Vertical(pt3, pt4) || Slope(pt1, pt2) == Slope(pt3, pt4) then None
    else
      var slope1, slope2 := Slope(pt1, pt2), Slope(pt3, pt4);
      if InBand(c, angle(slope1)) && InBand(c, angle(slope2)) then
        Some(Meet(slope1, Intercept(pt1, pt2), slope2, Intercept(pt3, pt4)))
      else None
  }

  /** Where y = m1 * x + b1 meets y = m2 * x + b2: x from equating the two
      right-hand sides, y from the first line. */
  function Meet(m1: real, b1: real, m2: real, b2: real): Point
    requires m1 != m2
  {
    var x := (b2 - b1) / (m1 - m2);
    Point(x, m1 * x + b1)
  }

  /** When every gate passes, the candidate is where the two slope-intercept
      lines meet. */
  lemma GatedMeet(c: Config, angle: real -> real, pt1: Point, pt2: Point, pt3: Point, pt4: Point)
    requires Gated(c, angle, pt1, pt2, pt3, pt4)
    ensures Intersect(c, angle, pt1, pt2, pt3, pt4)
            == Some(Meet(Slope(pt1, pt2), Intercept(pt1, pt2), Slope(pt3, pt4), Intercept(pt3, pt4)))
  {
  }

  // ---------------------------------------------------------------------
  // Real arithmetic helpers

  lemma QuotientTimesDivisor(s: real, k: real)
    requires k != 0.0
    ensures (s / k) * k == s
  {
  }

  lemma CancelFactor(u: real, v: real, k: real)
    requires k != 0.0
    ensures u * k == v * k <==> u == v
  {
    if u * k == v * k {
      calc {
        u;
     == { QuotientTimesDivisor(u, k); } (u * k) / k;
     == (v * k) / k;
     == { QuotientTimesDivisor(v, k); } v;
      }
    }
  }

  lemma ProductRegroup(m: real, d: real, k: real)
    ensures m * d * k == d * (m * k)
  {
  }

  // ---------------------------------------------------------------------
  // Geometry

  /** For a non-vertical segment, lying on its line is the same as satisfying
      its slope-intercept equation. */
  lemma OnLineIffEquation(p: Point, a: Point, b: Point)
    requires !Vertical(a, b)
    ensures OnLine(p, a, b) <==> p.y == Slope(a, b) * p.x + Intercept(a, b)
  {
    var k, m := b.x - a.x, Slope(a, b);
    assert m * k == b.y - a.y by {
      QuotientTimesDivisor(b.y - a.y, k);
    }
    calc {
      p.y == m * p.x + Intercept(a, b);
      p.y - a.y == m * (p.x - a.x);
      { CancelFactor(p.y - a.y, m * (p.x - a.x), k); }
      (p.y - a.y) * k == m * (p.x - a.x) * k;
      { ProductRegroup(m, p.x - a.x, k); }
      (p.y - a.y) * k == (p.x - a.x) * (m * k);
      (p.y - a.y) * k == (p.x - a.x) * (b.y - a.y);
      OnLine(p, a, b);
    }
  }

  /** A forwarded candidate lies on both lines. */
  lemma IntersectionOnBothLines(c: Config, angle: real -> real, pt1: Point, pt2: Point, pt3: Point, pt4: Point)
    requires Intersect(c, angle, pt1, pt2, pt3, pt4).Some?
    ensures var p := Intersect(c, angle, pt1, pt2, pt3, pt4).value;
            OnLine(p, pt1, pt2) && OnLine(p, pt3, pt4)
  {
    var p := Intersect(c, angle, pt1, pt2, pt3, pt4).value;
    var m1, m2 := Slope(pt1, pt2), Slope(pt3, pt4);
    var b1, b2 := Intercept(pt1, pt2), Intercept(pt3, pt4);
    assert p.x == (b2 - b1) / (m1 - m2) && p.y == m1 * p.x + b1;
    assert p.x * (m1 - m2) == b2 - b1 by {
      QuotientTimesDivisor(b2 - b1, m1 - m2);
    }
    calc {
      p.y;
   == m1 * p.x + b1;
   == m1 * p.x - p.x * (m1 - m2) + b2;
   == m2 * p.x + b2;
    }
    OnLineIffEquation(p, pt1, pt2);
    OnLineIffEquation(p, pt3, pt4);
  }

  /** ... and it is the only point that does. */
  lemma IntersectionUnique(c: Config, angle: real -> real, pt1: Point, pt2: Point, pt3: Point, pt4: Point, q: Point)
    requires Intersect(c, angle, pt1, pt2, pt3, pt4).Some?
    requires OnLine(q, pt1, pt2) && OnLine(q, pt3, pt4)
    ensures q == Intersect(c, angle, pt1, pt2, pt3, pt4).value
  {
    var p := Intersect(c, angle, pt1, pt2, pt3, pt4).value;
    var m1, m2 := Slope(pt1, pt2), Slope(pt3, pt4);
    var b1, b2 := Intercept(pt1, pt2), Intercept(pt3, pt4);
    OnLineIffEquation(q, pt1, pt2);
    OnLineIffEquation(q, pt3, pt4);
    assert q.x * (m1 - m2) == b2 - b1;
    calc {
      q.x;
   == { QuotientTimesDivisor(q.x, m1 - m2); } (q.x * (m1 - m2)) / (m1 - m2);
   == (b2 - b1) / (m1 - m2);
   == p.x;
    }
  }

  /** The lines y = x and y = 10 - x meet at (5, 5), whenever the band
      admits the slopes 1 and -1 (45 degrees in the node). */
  lemma CrossingDiagonals(c: Config, angle: real -> real)
    requires InBand(c, angle(1.0)) && InBand(c, angle(-1.0))
    ensures Intersect(c, angle, Point(0.0, 0.0), Point(10.0, 10.0), Point(0.0, 10.0), Point(10.0, 0.0))
            == Some(Point(5.0, 5.0))
  {
    assert Slope(Point(0.0, 0.0), Point(10.0, 10.0)) == 1.0;
    assert Slope(Point(0.0, 10.0), Point(10.0, 0.0)) == -1.0;
  }

  /** With an angle function that is strictly increasing and odd (as the
      arctangent is), the angle band is a band on the slope itself: the
      slopes strictly between tMin and tMax, and their mirror images. */
  lemma BandBySlope(c: Config, angle: real -> real, tMin: real, tMax: real, m: real)
    requires forall a, b :: a < b ==> angle(a) < angle(b)
    requires forall a :: angle(-a) == -angle(a)
    requires angle(tMin) == c.minAngle && angle(tMax) == c.maxAngle
    ensures InBand(c, angle(m)) <==> (tMin < m < tMax) || (-tMax < m < -tMin)
  {
    assert angle(-tMin) == -c.minAngle && angle(-tMax) == -c.maxAngle;
    assert m <= tMin ==> angle(m) <= angle(tMin);
    assert m >= tMax ==> angle(m) >= angle(tMax);
    assert m >= -tMin ==> angle(m) >= angle(-tMin);
    assert m <= -tMax ==> angle(m) <= angle(-tMax);
  }

  // ---------------------------------------------------------------------
  // Pair enumeration

  /** The pairs the nested loops of lineArrayCallback have visited, for n
      segments, when they reach (i, j): rows 0 .. i - 1 whole, then (i, i + 1)
      .. (i, j - 1). Row i starts where row i - 1 ended. */
  function Visited(n: nat, i: nat, j: nat): seq<(nat, nat)>
    decreases i, j
  {
    if j > i + 1 then Visited(n, i, j - 1) + [(i, j - 1)]
    else if i == 0 then []
    else Visited(n, i - 1, n)
  }

  /** Every pair i < j < n, in the order of the nested loops. */
  function Pairs(n: nat): seq<(nat, nat)>
  {
    if n == 0 then [] else Visited(n, n - 1, n)
  }

  predicate LexLess(p: (nat, nat), q: (nat, nat))
  {
    p.0 < q.0 || (p.0 == q.0 && p.1 < q.1)
  }

  predicate StrictlySorted(s: seq<(nat, nat)>)
  {
    forall a, b :: 0 <= a < b < |s| ==> LexLess(s[a], s[b])
  }

  /** The visited pairs are the earlier rows and the start of row i. */
  lemma {:induction false} VisitedMembers(n: nat, i: nat, j: nat)
    requires i < j <= n
    ensures forall q :: q in Visited(n, i, j) <==> (q.0 < i && q.0 < q.1 < n) || (q.0 == i && i < q.1 < j)
    decreases i, j
  {
    if j > i + 1 {
      VisitedMembers(n, i, j - 1);
    } else if i > 0 {
      VisitedMembers(n, i - 1, n);
    }
  }

  /** A sorted sequence stays sorted when a later pair is appended. */
  lemma SortedSnoc(s: seq<(nat, nat)>, q: (nat, nat))
    requires StrictlySorted(s)
    requires forall p :: p in s ==> LexLess(p, q)
    ensures StrictlySorted(s + [q])
  {
    forall a, b | 0 <= a < b < |s + [q]|
      ensures LexLess((s + [q])[a], (s + [q])[b])
    {
      if b < |s| {
        assert (s + [q])[a] == s[a] && (s + [q])[b] == s[b];
      } else {
        assert (s + [q])[a] == s[a] && s[a] in s;
      }
    }
  }

  /** The loops visit pairs in strictly increasing lexicographic order. */
  lemma {:induction false} VisitedSorted(n: nat, i: nat, j: nat)
    requires i < j <= n
    ensures StrictlySorted(Visited(n, i, j))
    decreases i, j
  {
    if j > i + 1 {
      VisitedSorted(n, i, j - 1);
      VisitedMembers(n, i, j - 1);
      SortedSnoc(Visited(n, i, j - 1), (i, j - 1));
    } else if i > 0 {
      VisitedSorted(n, i - 1, n);
    }
  }

  /** Rows 0 .. i - 1 hold n - 1, n - 2, ..., n - i pairs. */
  lemma {:induction false} VisitedCount(n: nat, i: nat, j: nat)
    requires i < j <= n
    ensures 2 * |Visited(n, i, j)| == i * (2 * n - i - 1) + 2 * (j - i - 1)
    decreases i, j
  {
    if j > i + 1 {
      VisitedCount(n, i, j - 1);
    } else if i > 0 {
      VisitedCount(n, i - 1, n);
      calc {
        2 * |Visited(n, i, j)|;
     == 2 * |Visited(n, i - 1, n)|;
     == (i - 1) * (2 * n - i) + 2 * (n - i);
     == i * (2 * n - i) - (2 * n - i) + 2 * n - 2 * i;
     == i * (2 * n - i - 1) + 2 * (j - i - 1);
      }
    }
  }

  /** The nested loops visit exactly the pairs i < j < n, each once, in
      lexicographic order, n * (n - 1) / 2 of them. */
  lemma PairsExactly(n: nat)
    ensures forall i: nat, j: nat :: (i, j) in Pairs(n) <==> i < j < n
    ensures StrictlySorted(Pairs(n))
    ensures 2 * |Pairs(n)| == n * (n - 1)
  {
    if n > 0 {
      VisitedMembers(n, n - 1, n);
      VisitedSorted(n, n - 1, n);
      VisitedCount(n, n - 1, n);
      calc {
        2 * |Pairs(n)|;
     == (n - 1) * (2 * n - (n - 1) - 1);
     == (n - 1) * n;
     == n * (n - 1);
      }
    }
  }

  // ---------------------------------------------------------------------
  // The candidates of one frame

  /** The candidate forwarded for the pair (i, j) of the frame's segments
      (none for indices outside the frame, which the loops never visit). */
  function PairCandidate(c: Config, angle: real -> real, lines: seq<Segment>, i: nat, j: nat): Option<Point>
  {
    if i < |lines| && j < |lines| then Intersect(c, angle, lines[i].p1, lines[i].p2, lines[j].p1, lines[j].p2)
    else None
  }

  /** The outcome of every pair of one frame, as a function of the pair. */
  function CandidateOf(c: Config, angle: real -> real, lines: seq<Segment>): (nat, nat) -> Option<Point>
  {
    (i: nat, j: nat) => PairCandidate(c, angle, lines, i, j)
  }

  /** The candidates forwarded while visiting the pairs ps, in visiting
      order, when cand gives the outcome of each pair. */
  function Forwarded(cand: (nat, nat) -> Option<Point>, ps: seq<(nat, nat)>): (r: seq<Point>)
    ensures |r| <= |ps|
  {
    if ps == [] then []
    else
      var q := ps[|ps| - 1];
      var rest := Forwarded(cand, ps[..|ps| - 1]);
      match cand(q.0, q.1)
      case None => rest
      case Some(p) => rest + [p]
  }

  /** What one outcome forwards: its point, or nothing. */
  function Emit(candidate: Option<Point>): seq<Point>
  {
    match candidate
    case None => []
    case Some(p) => [p]
  }

  /** Visiting one more pair forwards its outcome after the earlier ones. */
  lemma ForwardedSnoc(cand: (nat, nat) -> Option<Point>, ps: seq<(nat, nat)>, q: (nat, nat))
    ensures Forwarded(cand, ps + [q]) == Forwarded(cand, ps) + Emit(cand(q.0, q.1))
  {
    assert (ps + [q])[..|ps|] == ps;
    assert Forwarded(cand, ps) + [] == Forwarded(cand, ps);
  }

  /** The candidates one frame forwards to the stability filter. */
  function Candidates(c: Config, angle: real -> real, lines: seq<Segment>): seq<Point>
  {
    Forwarded(CandidateOf(c, angle, lines), Pairs(|lines|))
  }

  /** Every forwarded candidate comes from a visited pair with that outcome. */
  lemma {:induction false} ForwardedSound(cand: (nat, nat) -> Option<Point>, ps: seq<(nat, nat)>, k: nat)
    requires k < |Forwarded(cand, ps)|
    ensures exists q :: q in ps && cand(q.0, q.1) == Some(Forwarded(cand, ps)[k])
  {
    var q := ps[|ps| - 1];
    var init := ps[..|ps| - 1];
    var rest := Forwarded(cand, init);
    if k < |rest| {
      ForwardedSound(cand, init, k);
      var q' :| q' in init && cand(q'.0, q'.1) == Some(rest[k]);
      assert q' in ps;
    } else {
      assert q in ps;
    }
  }

  /** Every visited pair with a candidate has it forwarded. */
  lemma {:induction false} ForwardedComplete(cand: (nat, nat) -> Option<Point>, ps: seq<(nat, nat)>, q: (nat, nat))
    requires q in ps && cand(q.0, q.1).Some?
    ensures cand(q.0, q.1).value in Forwarded(cand, ps)
  {
    var init := ps[..|ps| - 1];
    if q != ps[|ps| - 1] {
      assert q in init;
      ForwardedComplete(cand, init, q);
    }
  }

  /** A frame forwards p exactly when some pair i < j of its segments passes
      every gate and intersects at p; an empty or single-segment frame
      forwards nothing; there are at most n * (n - 1) / 2 candidates. */
  lemma CandidatesExactly(c: Config, angle: real -> real, lines: seq<Segment>, p: Point)
    ensures p in Candidates(c, angle, lines) <==>
            exists i: nat, j: nat :: i < j < |lines| && PairCandidate(c, angle, lines, i, j) == Some(p)
    ensures |lines| <= 1 ==> Candidates(c, angle, lines) == []
    ensures 2 * |Candidates(c, angle, lines)| <= |lines| * (|lines| - 1)
  {
    var n := |lines|;
    var cand := CandidateOf(c, angle, lines);
    PairsExactly(n);
    var ps := Pairs(n);
    if p in Candidates(c, angle, lines) {
      var k :| 0 <= k < |Candidates(c, angle, lines)| && Candidates(c, angle, lines)[k] == p;
      ForwardedSound(cand, ps, k);
      var q :| q in ps && cand(q.0, q.1) == Some(p);
      assert q.0 < q.1 < n;
    }
    if exists i: nat, j: nat :: i < j < n && PairCandidate(c, angle, lines, i, j) == Some(p) {
      var i: nat, j: nat :| i < j < n && PairCandidate(c, angle, lines, i, j) == Some(p);
      assert (i, j) in ps;
      ForwardedComplete(cand, ps, (i, j));
    }
    if n <= 1 {
      assert |ps| == 0;
    }
  }
}
