/**
 * Vectors over the reals and the handful of three.js `Vector3` operations the
 * scene uses, plus the host's square root and sine as abstract functions.
 */
module Geometry {

  datatype Vec3 = Vec3(x: real, y: real, z: real)

  const Zero := Vec3(0.0, 0.0, 0.0)

  function Add(a: Vec3, b: Vec3): Vec3 {
    Vec3(a.x + b.x, a.y + b.y, a.z + b.z)
  }

  function Scale(v: Vec3, k: real): Vec3 {
    Vec3(v.x * k, v.y * k, v.z * k)
  }

  /** `p.addScaledVector(v, k)`: all three axes move. */
  function AddScaled(p: Vec3, v: Vec3, k: real): Vec3 {
    Add(p, Scale(v, k))
  }

  function SqLength(v: Vec3): real {
    v.x * v.x + v.y * v.y + v.z * v.z
  }

  ghost predicate IsUnit(v: Vec3) {
    SqLength(v) == 1.0
  }

  function Abs(r: real): real {
    if r < 0.0 then -r else r
  }

  /** `Math.min` and `Math.max` on (non-NaN) reals. */
  function Min(a: real, b: real): real {
    if a <= b then a else b
  }

  function Max(a: real, b: real): real {
    if a >= b then a else b
  }

  /** `Math.PI` as a double. */
  const PI: real := 3.141592653589793

  /**
   * The host's `Math.sqrt` and `Math.sin`, and the division by a vector's
   * length inside `normalize`, which the model leaves to the host.
   * `Valid` states what the scene relies on: an exact non-negative square root,
   * an exact positive reciprocal of a positive number, and a sine bounded by 1
   * that is non-negative on [0, PI], zero at 0 and one at PI/2 (as `Math.sin`
   * gives on doubles).
   */
  datatype Maths = Maths(sqrt: real -> real, sin: real -> real, recip: real -> real) {
    ghost predicate Valid() {
      && (forall r :: 0.0 < r ==> 0.0 < recip(r) && r * recip(r) == 1.0)
      && (forall r :: 0.0 <= r ==> 0.0 <= sqrt(r) && sqrt(r) * sqrt(r) == r)
      && (forall r :: -1.0 <= sin(r) <= 1.0)
      && (forall r :: 0.0 <= r <= PI ==> 0.0 <= sin(r))
      && sin(0.0) == 0.0
      && sin(PI / 2.0) == 1.0
    }
  }

  /** `v.length()` */
  function Length(v: Vec3, m: Maths): real {
    m.sqrt(SqLength(v))
  }

  /** The factor `normalize` scales by: three.js divides by `length() || 1`. */
  function NormalizeFactor(v: Vec3, m: Maths): real {
    var l := Length(v, m);
    m.recip(if l == 0.0 then 1.0 else l)
  }

  /** `v.normalize()`; a zero vector stays zero. */
  function Normalize(v: Vec3, m: Maths): Vec3 {
    Scale(v, NormalizeFactor(v, m))
  }

  /** The horizontal offset from `p` to `q` (`q - p` with its y set to 0). */
  function FlatOffset(p: Vec3, q: Vec3): Vec3 {
    Vec3(q.x - p.x, 0.0, q.z - p.z)
  }

  /** The distance from `p` to `q` in the xz plane. */
  function FlatDistance(p: Vec3, q: Vec3, m: Maths): real {
    Length(FlatOffset(p, q), m)
  }

  lemma SquareLess(a: real, b: real)
    requires 0.0 <= a < b
    ensures a * a - b * b < 0.0
  {
    assert a * a - a * b <= 0.0;
    assert a * b - b * b < 0.0;
  }

  lemma SquareInjective(a: real, b: real)
    requires 0.0 <= a && 0.0 <= b && a * a == b * b
    ensures a == b
  {
    if a < b {
      SquareLess(a, b);
    } else if b < a {
      SquareLess(b, a);
    }
  }

  /** What `Valid` promises about one square root. */
  lemma SqrtFacts(m: Maths, r: real)
    requires m.Valid() && 0.0 <= r
    ensures 0.0 <= m.sqrt(r) && m.sqrt(r) * m.sqrt(r) == r
  {
  }

  /** The oracle square root undoes squaring on the non-negative reals. */
  lemma SqrtOfSquare(m: Maths, a: real, r: real)
    requires m.Valid() && 0.0 <= a && r == a * a
    ensures m.sqrt(r) == a
  {
    var s := m.sqrt(r);
    SqrtFacts(m, r);
    SquareInjective(s, a);
  }

  /** The zero vector has length zero. */
  lemma SqrtZero(m: Maths)
    requires m.Valid()
    ensures Length(Zero, m) == 0.0
  {
    SqrtOfSquare(m, 0.0, 0.0);
  }

  lemma SqLengthNonNegative(v: Vec3)
    ensures SqLength(v) >= 0.0
  {
  }

  lemma SqLengthScale(v: Vec3, k: real)
    ensures SqLength(Scale(v, k)) - k * k * SqLength(v) == 0.0
  {
  }

  /**
   * `normalize` scales by a positive factor; it yields a unit vector unless
   * the length is zero, in which case the vector is left as it is.
   */
  lemma NormalizeUnit(v: Vec3, m: Maths)
    requires m.Valid()
    ensures NormalizeFactor(v, m) > 0.0
    ensures Length(v, m) == 0.0 ==> Normalize(v, m) == v
    ensures Length(v, m) != 0.0 ==> IsUnit(Normalize(v, m))
  {
    SqLengthNonNegative(v);
    SqrtFacts(m, SqLength(v));
    if Length(v, m) != 0.0 {
      NormalizeNonZero(v, m);
    }
  }

  lemma NormalizeNonZero(v: Vec3, m: Maths)
    requires m.Valid() && Length(v, m) > 0.0 && Length(v, m) * Length(v, m) == SqLength(v)
    ensures IsUnit(Normalize(v, m))
  {
    var l, k := Length(v, m), NormalizeFactor(v, m);
    SqLengthScale(v, k);
    UnitFromInverse(k, l, SqLength(v), SqLength(Normalize(v, m)));
  }

  lemma UnitFromInverse(k: real, l: real, s: real, n: real)
    requires l > 0.0 && k * l == 1.0 && l * l == s && n - k * k * s == 0.0
    ensures n == 1.0
  {
    assert k * k * s - (k * l) * (k * l) == 0.0;
  }

  /**
   * Moving `p` by `step` along the normalised horizontal offset towards `q`
   * leaves a horizontal offset of squared length `(d - step)^2`, where `d` is
   * the distance before the move.
   */
  lemma FlatStepTowards(p: Vec3, q: Vec3, step: real, m: Maths)
    requires m.Valid() && FlatDistance(p, q, m) != 0.0
    ensures var d := FlatDistance(p, q, m);
      var p' := AddScaled(p, Normalize(FlatOffset(p, q), m), step);
      && p'.y == p.y
      && FlatDistance(p', q, m) == Abs(d - step)
  {
    var o := FlatOffset(p, q);
    var d := Length(o, m);
    var k := NormalizeFactor(o, m);
    SqLengthNonNegative(o);
    SqrtFacts(m, SqLength(o));
    assert d > 0.0 && d * k == 1.0;
    var p' := AddScaled(p, Normalize(o, m), step);
    var o' := FlatOffset(p', q);
    assert o'.x == o.x - (o.x * k) * step;
    assert o'.z == o.z - (o.z * k) * step;
    ShrinkScalar(o.x, o.z, d, k, step, o'.x, o'.z);
    assert SqLength(o') == (d - step) * (d - step);
    AbsSquare(d - step);
    SqrtOfSquare(m, Abs(d - step), SqLength(o'));
  }

  lemma ShrinkScalar(ox: real, oz: real, d: real, k: real, s: real, nx: real, nz: real)
    requires d > 0.0 && d * k == 1.0 && d * d == ox * ox + oz * oz
    requires nx == ox - (ox * k) * s && nz == oz - (oz * k) * s
    ensures nx * nx + 0.0 * 0.0 + nz * nz == (d - s) * (d - s)
  {
    var c := 1.0 - k * s;
    assert nx - ox * c == 0.0;
    assert nz - oz * c == 0.0;
    assert nx * nx + nz * nz - (ox * ox + oz * oz) * (c * c) == 0.0;
    assert d * c - (d - s) == 0.0;
    assert (d * d) * (c * c) - (d * c) * (d * c) == 0.0;
  }

  lemma AbsSquare(a: real)
    ensures Abs(a) >= 0.0 && Abs(a) * Abs(a) == a * a
  {
  }

  lemma Distribute(a: real, b: real, c: real)
    ensures a * b + a * c - a * (b + c) == 0.0
  {
  }

  /** Two `addScaledVector` moves along one vector add up. */
  lemma AddScaledTwice(p: Vec3, v: Vec3, a: real, b: real)
    ensures AddScaled(AddScaled(p, v, a), v, b) == AddScaled(p, v, a + b)
  {
    Distribute(v.x, a, b);
    Distribute(v.y, a, b);
    Distribute(v.z, a, b);
  }

  lemma AddScaledZero(p: Vec3, v: Vec3, k: real)
    requires k == 0.0
    ensures AddScaled(p, v, k) == p
  {
  }

  /** `u` is `v` scaled by a positive factor. */
  ghost predicate SameDirection(u: Vec3, v: Vec3) {
    exists k: real :: k > 0.0 && u == Scale(v, k)
  }
}
