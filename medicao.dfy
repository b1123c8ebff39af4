/** `MedicaoService.calculateDistance`: the Euclidean distance between the
    two points a measurement stores. Real arithmetic has no square root, so
    the distance is the relation "d is non-negative and d squared is the
    sum of the squared coordinate differences". */
module MedicaoService {
  import opened Common

  function SquaredDistance(a: Point, b: Point): (r: real)
    ensures r >= 0.0
  {
    var dx := b.x - a.x;
    var dy := b.y - a.y;
    var dz := b.z - a.z;
    dx * dx + dy * dy + dz * dz
  }

  /** `d` is what `calculateDistance(a, b)` returns. */
  ghost predicate IsDistance(a: Point, b: Point, d: real) {
    d >= 0.0 && d * d == SquaredDistance(a, b)
  }

  /** At most one value qualifies, so the relation is a function. */
  lemma DistanceIsUnique(a: Point, b: Point, d1: real, d2: real)
    requires IsDistance(a, b, d1) && IsDistance(a, b, d2)
    ensures d1 == d2
  {
    if d1 < d2 {
      SquareIsMonotone(d1, d2);
    } else if d2 < d1 {
      SquareIsMonotone(d2, d1);
    }
  }

  lemma SquareIsMonotone(x: real, y: real)
    requires 0.0 <= x < y
    ensures x * x < y * y
  {
    calc {
      x * x;
    <= x * y;
    < y * y;
    }
  }

  lemma DistanceIsSymmetric(a: Point, b: Point, d: real)
    ensures IsDistance(a, b, d) <==> IsDistance(b, a, d)
  {
    assert (a.x - b.x) * (a.x - b.x) == (b.x - a.x) * (b.x - a.x);
    assert (a.y - b.y) * (a.y - b.y) == (b.y - a.y) * (b.y - a.y);
    assert (a.z - b.z) * (a.z - b.z) == (b.z - a.z) * (b.z - a.z);
  }

  /** The distance is zero exactly between equal points. */
  lemma DistanceZeroIffSamePoint(a: Point, b: Point)
    ensures IsDistance(a, b, 0.0) <==> a == b
  {
    var dx := b.x - a.x;
    var dy := b.y - a.y;
    var dz := b.z - a.z;
    if SquaredDistance(a, b) == 0.0 {
      assert dx * dx >= 0.0 && dy * dy >= 0.0 && dz * dz >= 0.0;
      assert dx * dx == 0.0 && dy * dy == 0.0 && dz * dz == 0.0;
      SquareZero(dx);
      SquareZero(dy);
      SquareZero(dz);
    }
  }

  lemma SquareZero(x: real)
    requires x * x == 0.0
    ensures x == 0.0
  {
    if x > 0.0 {
      SquareIsMonotone(0.0, x);
    } else if x < 0.0 {
      assert (-x) * (-x) == x * x;
      SquareIsMonotone(0.0, -x);
    }
  }

  function Translate(p: Point, t: Point): Point {
    Point(p.x + t.x, p.y + t.y, p.z + t.z)
  }

  /** Only the coordinate differences matter. */
  lemma DistanceIsTranslationInvariant(a: Point, b: Point, t: Point, d: real)
    ensures IsDistance(a, b, d) <==> IsDistance(Translate(a, t), Translate(b, t), d)
  {
    assert SquaredDistance(Translate(a, t), Translate(b, t)) == SquaredDistance(a, b);
  }

  lemma ThreeFourFive()
    ensures IsDistance(Origin, Point(3.0, 4.0, 0.0), 5.0)
    ensures SquaredDistance(Origin, Point(3.0, 4.0, 0.0)) == 25.0
  {
  }
}
