/**
  Geometry helpers of Caminae's common utilities: the 3D distance between
  two points, the elevation profile of a 3D polyline (cumulative distance
  and elevation at each vertex), and the `almostequal` tolerance test.

  Coordinates are real numbers. Dafny has no square root, so `distance3D`
  is passed to `ElevationProfile` as a function `dist` and characterised by
  `IsDistance3D`: it is non-negative and its square is the sum of the
  squared coordinate differences. That determines it uniquely.
 */
module CaminaeCommonUtils {

  /** A vertex `(x, y, z)` of a 3D geometry; `z` is the elevation. */
  datatype Point3 = Point3(x: real, y: real, z: real)

  /** `(b[0] - a[0]) ** 2 + (b[1] - a[1]) ** 2 + (b[2] - a[2]) ** 2`, the radicand of `distance3D`. */
  function SquaredDistance3D(a: Point3, b: Point3): (d: real)
    ensures d >= 0.0
  {
    (b.x - a.x) * (b.x - a.x) + (b.y - a.y) * (b.y - a.y) + (b.z - a.z) * (b.z - a.z)
  }

  /** The radicand does not depend on the order of the two points. */
  lemma SquaredDistance3DSymmetric(a: Point3, b: Point3)
    ensures SquaredDistance3D(a, b) == SquaredDistance3D(b, a)
  {
  }

  /** `dist` is `distance3D`: the non-negative square root of `SquaredDistance3D`. */
  ghost predicate IsDistance3D(dist: (Point3, Point3) -> real) {
    forall a, b :: dist(a, b) >= 0.0 && dist(a, b) * dist(a, b) == SquaredDistance3D(a, b)
  }

  /** No distance is negative: the one property of `distance3D` the elevation profile relies on. */
  ghost predicate NonNegativeDistance(dist: (Point3, Point3) -> real) {
    forall a, b :: dist(a, b) >= 0.0
  }

  /** A square root is never negative. */
  lemma Distance3DNonNegative(dist: (Point3, Point3) -> real)
    requires IsDistance3D(dist)
    ensures NonNegativeDistance(dist)
  {
  }

  /** Two non-negative numbers with the same square are equal. */
  lemma NonNegativeRootUnique(p: real, q: real)
    requires p >= 0.0 && q >= 0.0 && p * p == q * q
    ensures p == q
  {
    assert (p - q) * (p + q) == 0.0;
    if p + q == 0.0 {
      assert p == 0.0 && q == 0.0;
    } else {
      assert p - q == ((p - q) * (p + q)) / (p + q);
    }
  }

  /** `distance3D(a, b) == distance3D(b, a)`. */
  lemma Distance3DSymmetric(dist: (Point3, Point3) -> real, a: Point3, b: Point3)
    requires IsDistance3D(dist)
    ensures dist(a, b) == dist(b, a)
  {
    SquaredDistance3DSymmetric(a, b);
    assert dist(a, b) * dist(a, b) == dist(b, a) * dist(b, a);
    NonNegativeRootUnique(dist(a, b), dist(b, a));
  }

  /** `distance3D(a, a) == 0`. */
  lemma Distance3DZero(dist: (Point3, Point3) -> real, a: Point3)
    requires IsDistance3D(dist)
    ensures dist(a, a) == 0.0
  {
    assert SquaredDistance3D(a, a) == 0.0 * 0.0;
    NonNegativeRootUnique(dist(a, a), 0.0);
  }

  /**
    The cumulative distance at vertex `i`: the sum of the distances between
    consecutive vertices from the start up to vertex `i`.
   */
  function DistanceAt(coords: seq<Point3>, dist: (Point3, Point3) -> real, i: nat): (d: real)
    requires i < |coords|
    ensures i == 0 ==> d == 0.0
    ensures NonNegativeDistance(dist) ==> d >= 0.0
  {
    if i == 0 then 0.0 else DistanceAt(coords, dist, i - 1) + dist(coords[i - 1], coords[i])
  }

  /** Cumulative distance never decreases along the polyline. */
  lemma {:induction false} DistanceAtMonotone(coords: seq<Point3>, dist: (Point3, Point3) -> real, i: nat, j: nat)
    requires NonNegativeDistance(dist)
    requires i <= j < |coords|
    ensures DistanceAt(coords, dist, i) <= DistanceAt(coords, dist, j)
    decreases j - i
  {
    if i < j {
      DistanceAtMonotone(coords, dist, i, j - 1);
    }
  }

  /** The cumulative distance only depends on the vertices up to `i`. */
  lemma {:induction false} DistanceAtPrefix(coords: seq<Point3>, dist: (Point3, Point3) -> real, i: nat, n: nat)
    requires i < n <= |coords|
    ensures DistanceAt(coords[..n], dist, i) == DistanceAt(coords, dist, i)
  {
    if i > 0 {
      DistanceAtPrefix(coords, dist, i - 1, n);
    }
  }

  /**
    The profile of the first `n` vertices: for each, its cumulative
    distance and its elevation.
   */
  function Profile(coords: seq<Point3>, dist: (Point3, Point3) -> real, n: nat): (p: seq<(real, real)>)
    requires n <= |coords|
    ensures |p| == n
    ensures forall k :: 0 <= k < n ==> p[k] == (DistanceAt(coords, dist, k), coords[k].z)
  {
    if n == 0 then []
    else
      var prev := Profile(coords, dist, n - 1);
      var last := (DistanceAt(coords, dist, n - 1), coords[n - 1].z);
      assert forall k :: 0 <= k < n - 1 ==> (prev + [last])[k] == prev[k];
      prev + [last]
  }

  /**
    `elevation_profile(g)`: one `(distance, elevation)` pair per vertex of
    `coords`, the distance being the running sum of the 3D distances
    between consecutive vertices. The source reads `coords[0]` without a
    check, so a non-empty geometry is required.
   */
  method ElevationProfile(coords: seq<Point3>, dist: (Point3, Point3) -> real) returns (profile: seq<(real, real)>)
    requires |coords| > 0
    ensures profile == Profile(coords, dist, |coords|)
  {
    var distance := 0.0;
    profile := [(distance, coords[0].z)];
    for i := 1 to |coords|
      invariant distance == DistanceAt(coords, dist, i - 1)
      invariant profile == Profile(coords, dist, i)
    {
      var a := coords[i - 1];
      var b := coords[i];
      distance := distance + dist(a, b);
      profile := profile + [(distance, b.z)];
    }
  }

  /**
    The promises of `elevation_profile`: one pair per vertex, starting at
    distance 0 with the first elevation, each pair's elevation that of its
    vertex, each distance the previous one plus one segment, and distances
    never decreasing.
   */
  lemma ElevationProfileProperties(coords: seq<Point3>, dist: (Point3, Point3) -> real)
    requires |coords| > 0
    requires NonNegativeDistance(dist)
    ensures |Profile(coords, dist, |coords|)| == |coords|
    ensures Profile(coords, dist, |coords|)[0] == (0.0, coords[0].z)
    ensures forall i :: 0 <= i < |coords| ==> Profile(coords, dist, |coords|)[i].1 == coords[i].z
    ensures forall i :: 0 < i < |coords| ==>
      Profile(coords, dist, |coords|)[i].0 == Profile(coords, dist, |coords|)[i - 1].0 + dist(coords[i - 1], coords[i])
    ensures forall i, j :: 0 <= i <= j < |coords| ==>
      Profile(coords, dist, |coords|)[i].0 <= Profile(coords, dist, |coords|)[j].0
  {
    var n := |coords|;
    var profile := Profile(coords, dist, n);
    forall i, j | 0 <= i <= j < n
      ensures profile[i].0 <= profile[j].0
    {
      DistanceAtMonotone(coords, dist, i, j);
    }
  }

  // ---------------------------------------------------------------------
  // almostequal(v1, v2, precision)
  // ---------------------------------------------------------------------

  function Abs(v: real): (r: real)
    ensures r >= 0.0 && (r == v || r == -v)
  {
    if v < 0.0 then -v else v
  }

  /** `10 ** k` for any integer exponent, negative ones giving fractions. */
  function Pow10(k: int): (r: real)
    ensures r > 0.0
    decreases if k < 0 then -k else k
  {
    if k == 0 then 1.0
    else if k > 0 then 10.0 * Pow10(k - 1)
    else Pow10(k + 1) / 10.0
  }

  /** Raising the exponent by one multiplies by ten. */
  lemma Pow10Step(k: int)
    ensures Pow10(k + 1) == 10.0 * Pow10(k)
  {
  }

  /** `almostequal(v1, v2, precision)`: the values differ by less than `10 ** -precision`. */
  predicate AlmostEqual(v1: real, v2: real, precision: int)
    ensures AlmostEqual(v1, v2, precision) <==> -Pow10(-precision) < v1 - v2 < Pow10(-precision)
  {
    Abs(v1 - v2) < Pow10(-precision)
  }

  /** `almostequal(v1, v2)` with the default `precision=2`: the values differ by less than 0.01. */
  predicate AlmostEqualDefault(v1: real, v2: real)
    ensures AlmostEqualDefault(v1, v2) <==> -0.01 < v1 - v2 < 0.01
  {
    assert Pow10(-2) == 0.01 by {
      assert Pow10(-1) == 0.1;
    }
    AlmostEqual(v1, v2, 2)
  }

  /** The test does not depend on the order of its two values, and accepts any value against itself. */
  lemma AlmostEqualSymmetricReflexive(v1: real, v2: real, precision: int)
    ensures AlmostEqual(v1, v2, precision) <==> AlmostEqual(v2, v1, precision)
    ensures AlmostEqual(v1, v1, precision)
  {
  }

  /** Values equal to a finer precision are equal to every coarser one. */
  lemma {:induction false} AlmostEqualCoarser(v1: real, v2: real, p: int, q: int)
    requires q <= p
    requires AlmostEqual(v1, v2, p)
    ensures AlmostEqual(v1, v2, q)
    decreases p - q
  {
    if q < p {
      AlmostEqualCoarser(v1, v2, p, q + 1);
      Pow10Step(-q - 1);
    }
  }

  /** `almostequal(1.001, 1.002, precision=2)` holds and fails at precision 4. */
  lemma AlmostEqualExamples()
    ensures AlmostEqual(1.001, 1.002, 2)
    ensures !AlmostEqual(1.001, 1.002, 4)
  {
    assert Pow10(-2) == 0.01 by {
      assert Pow10(-1) == 0.1;
    }
    assert Pow10(-4) == 0.0001 by {
      assert Pow10(-1) == 0.1;
      assert Pow10(-2) == 0.01;
      assert Pow10(-3) == 0.001;
    }
  }
}
