/** Positions, fixes, the distance function and the shared speed policy. */
module Geo {

  datatype Option<+T> = None | Some(value: T)

  /** A position in decimal degrees. */
  datatype Point = Point(lat: real, lng: real)

  /** One GPS observation; `ts` is seconds since the epoch. */
  datatype Fix = Fix(lat: real, lng: real, ts: real)
  {
    function Pos(): Point { Point(lat, lng) }
  }

  /** Great-circle distance in miles. The haversine arithmetic is not modelled:
      every operation receives the distance function as a parameter, and the
      only fact relied on is that it is never negative. */
  type Metric = d: (Point, Point) -> real | forall p, q :: d(p, q) >= 0.0
    witness (p: Point, q: Point) => 0.0

  /** Speeds above this many mph are treated as GPS error. */
  const MaxRealisticSpeed: real := 90.0

  predicate IsRealisticSpeed(mph: real)
  {
    0.0 <= mph <= MaxRealisticSpeed
  }

  /** Python's `int(x)` on a float: truncation toward zero. */
  function TruncateToInt(x: real): (n: int)
    ensures x >= 0.0 ==> 0 <= n && n as real <= x < n as real + 1.0
    ensures x < 0.0 ==> n <= 0 && n as real - 1.0 < x <= n as real
  {
    if x >= 0.0 then x.Floor else -((-x).Floor)
  }

  /** The positions of a list of fixes, in the same order. */
  function Points(h: seq<Fix>): (ps: seq<Point>)
    ensures |ps| == |h|
    ensures forall i :: 0 <= i < |h| ==> ps[i] == h[i].Pos()
  {
    seq(|h|, i requires 0 <= i < |h| => h[i].Pos())
  }

  /** The sum of the distances between consecutive positions. */
  function PathLength(ps: seq<Point>, dist: Metric): (r: real)
    ensures r >= 0.0
    ensures |ps| < 2 ==> r == 0.0
  {
    if |ps| < 2 then 0.0
    else PathLength(ps[..|ps| - 1], dist) + dist(ps[|ps| - 2], ps[|ps| - 1])
  }

  /** The accumulator loop shared by the window distance and the daily distance. */
  method SumSegments(ps: seq<Point>, dist: Metric) returns (total: real)
    ensures total == PathLength(ps, dist)
  {
    total := 0.0;
    if |ps| < 2 {
      return;
    }
    var i := 1;
    while i < |ps|
      invariant 1 <= i <= |ps|
      invariant total == PathLength(ps[..i], dist)
    {
      assert ps[..i + 1][..i] == ps[..i];
      total := total + dist(ps[i - 1], ps[i]);
      i := i + 1;
    }
    assert ps[..i] == ps;
  }

  /** Appending one position adds exactly the distance of the new last segment. */
  lemma PathLengthAppend(ps: seq<Point>, q: Point, dist: Metric)
    requires |ps| >= 1
    ensures PathLength(ps + [q], dist) == PathLength(ps, dist) + dist(ps[|ps| - 1], q)
  {
    assert (ps + [q])[..|ps|] == ps;
  }
}
