/** Vector arithmetic of server/index.js (lines 60-98), over exact reals.

    `Math.sqrt` appears in `vectorLength`, `normalize` and
    `distancePointToRay`. The ray test only compares that square root with
    a non-negative radius, so the model compares squared quantities instead
    (`DistSqToRay`); `normalize` genuinely needs the root, which its callers
    pass in as the function `sqrt`. */
module Geometry {

  datatype Vec = Vec(x: real, y: real, z: real)

  const Zero: Vec := Vec(0.0, 0.0, 0.0)

  function Add(a: Vec, b: Vec): Vec { Vec(a.x + b.x, a.y + b.y, a.z + b.z) }

  function Sub(a: Vec, b: Vec): Vec { Vec(a.x - b.x, a.y - b.y, a.z - b.z) }

  function Scale(v: Vec, s: real): Vec { Vec(v.x * s, v.y * s, v.z * s) }

  function Dot(a: Vec, b: Vec): real { a.x * b.x + a.y * b.y + a.z * b.z }

  /** Squared Euclidean distance between two points. */
  function DistSq(a: Vec, b: Vec): (r: real)
    ensures r >= 0.0
  {
    var d := Sub(a, b);
    SquareNonNegative(d.x);
    SquareNonNegative(d.y);
    SquareNonNegative(d.z);
    Dot(d, d)
  }

  lemma SquareNonNegative(a: real)
    ensures a * a >= 0.0
  {
    if a < 0.0 {
      assert a * a == (-a) * (-a);
    }
  }

  /** `Math.min` and `Math.max` on finite numbers. */
  function Min(a: real, b: real): real { if a <= b then a else b }

  function Max(a: real, b: real): real { if a >= b then a else b }

  /** `clamp(v, min, max) = Math.max(min, Math.min(max, v))`: inside the
      interval the value is kept, outside it the nearer bound is taken; with
      an empty interval the lower bound wins. */
  function Clamp(v: real, lo: real, hi: real): (r: real)
    ensures lo <= hi ==> lo <= r <= hi
    ensures lo <= v <= hi ==> r == v
    ensures v <= lo ==> r == lo
    ensures lo <= hi <= v ==> r == hi
    ensures hi < lo ==> r == lo
  {
    Max(lo, Min(hi, v))
  }

  /** `vectorLength(v)`, given the square root routine. */
  function Length(v: Vec, sqrt: real -> real): real {
    sqrt(Dot(v, v))
  }

  /** `normalize(v)`: the zero vector when the length is zero, otherwise `v`
      divided by its length, so that scaling the result back by the length
      gives `v` again. */
  function Normalize(v: Vec, sqrt: real -> real): (u: Vec)
    ensures Length(v, sqrt) == 0.0 ==> u == Zero
    ensures Length(v, sqrt) != 0.0 ==> Scale(u, Length(v, sqrt)) == v
  {
    var len := Length(v, sqrt);
    if len == 0.0 then Zero else Vec(v.x / len, v.y / len, v.z / len)
  }

  /** The signed distance of `p` along the ray from `o` in direction `d`
      (`dot(subtract(p, o), d)`). */
  function Forward(p: Vec, o: Vec, d: Vec): real {
    Dot(Sub(p, o), d)
  }

  /** `distancePointToRay(p, o, d, range)` squared: the squared distance from
      `p` to the point of the segment `o + t*d`, `t` in `[0, range]`, at the
      clamped projection of `p`. */
  function DistSqToRay(p: Vec, o: Vec, d: Vec, range: real): (r: real)
    ensures r >= 0.0
  {
    var t := Clamp(Forward(p, o, d), 0.0, range);
    var closest := Vec(o.x + d.x * t, o.y + d.y * t, o.z + d.z * t);
    DistSq(p, closest)
  }

  /** For a unit direction and a point whose projection lies on the
      segment, the squared ray distance is the squared perpendicular
      distance: `|p - o|^2 - forward^2` (Pythagoras). */
  lemma RayDistancePerpendicular(p: Vec, o: Vec, d: Vec, range: real)
    requires Dot(d, d) == 1.0
    requires 0.0 <= Forward(p, o, d) <= range
    ensures DistSqToRay(p, o, d, range) == DistSq(p, o) - Forward(p, o, d) * Forward(p, o, d)
  {
    var q := Sub(p, o);
    var f := Forward(p, o, d);
    assert Clamp(f, 0.0, range) == f;
    var diff := Sub(p, Vec(o.x + d.x * f, o.y + d.y * f, o.z + d.z * f));
    assert diff == Sub(q, Scale(d, f));
    calc {
      Dot(diff, diff);
      (q.x - d.x * f) * (q.x - d.x * f) + (q.y - d.y * f) * (q.y - d.y * f) + (q.z - d.z * f) * (q.z - d.z * f);
      Dot(q, q) - 2.0 * f * Dot(q, d) + f * f * Dot(d, d);
      Dot(q, q) - f * f;
    }
  }

  /** A point behind the origin is measured from the origin itself. */
  lemma RayDistanceBehindOrigin(p: Vec, o: Vec, d: Vec, range: real)
    requires range >= 0.0
    requires Forward(p, o, d) <= 0.0
    ensures DistSqToRay(p, o, d, range) == DistSq(p, o)
  {
    assert Clamp(Forward(p, o, d), 0.0, range) == 0.0;
    assert Vec(o.x + d.x * 0.0, o.y + d.y * 0.0, o.z + d.z * 0.0) == o;
  }
}
