/** Shared data of the output_listener node: points, segments and the
    tunable constants that the node keeps as file-scope globals. */
module Geometry {

  /** A point in image pixel coordinates (the z component, always 0, is dropped). */
  datatype Point = Point(x: real, y: real)

  /** One detected line segment, given by its two endpoints. */
  datatype Segment = Segment(p1: Point, p2: Point)

  /** Capacity of the history window (MAX_POINTS). */
  const MaxPoints: nat := 100

  /** The node's tunable constants: the trusted region, the angle band in
      degrees and the spread threshold on the standard deviation. */
  datatype Config = Config(
    xMin: real, xMax: real,
    yMin: real, yMax: real,
    minAngle: real, maxAngle: real,
    desiredStdDev: real)

  /** The values the node starts with: a 200 x 200 box around the middle of a
      1280 x 720 image, the band 10..80 degrees and a threshold of 1000. */
  const Defaults: Config := Config(540.0, 740.0, 400.0, 600.0, 10.0, 80.0, 1000.0)

  /** The rectangular region gate: a point passes unless one of its
      coordinates lies strictly outside the closed box. */
  predicate InRegion(c: Config, p: Point) {
    !(p.x < c.xMin || p.x > c.xMax || p.y < c.yMin || p.y > c.yMax)
  }
}
