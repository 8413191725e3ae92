/**
 * The vector algebra of the rasterizer (mesh/src/math.rs).
 *
 * `Float` is modelled as `real` and `Int` as `int`. The in-place operators
 * (`rot_x`, `refl_x`, `clamp_xy`, `+=`, ...) take `&mut self` on a `Copy`
 * struct, so each is a function from the old value to the new one.
 * `sin_cos` is not computed here: every rotation takes the pair
 * (sin a, cos a) as a `Trig` value supplied by the caller.
 */
module VecMath {

  datatype Vec2i = Vec2i(x: int, y: int)

  datatype Vec2f = Vec2f(x: real, y: real)

  datatype Vec3f = Vec3f(x: real, y: real, z: real)

  const Zero: Vec3f := Vec3f(0.0, 0.0, 0.0)

  /** The result of `a.sin_cos()` for some angle `a`. */
  datatype Trig = Trig(sin: real, cos: real)

  /** The one fact about sine and cosine the model relies on. */
  predicate IsUnit(t: Trig) {
    t.sin * t.sin + t.cos * t.cos == 1.0
  }

  // ---------------------------------------------------------------- Vec2i

  function Determinant(a: Vec2i, b: Vec2i): int {
    a.x * b.y - a.y * b.x
  }

  /** `determinant` is antisymmetric and vanishes on a vector with itself. */
  lemma DeterminantAntisymmetric(a: Vec2i, b: Vec2i)
    ensures Determinant(a, b) == -Determinant(b, a)
    ensures Determinant(a, a) == 0
  {
  }

  // ---------------------------------------------------------------- Vec3f operators

  /** `+` and `+=`. */
  function Add(a: Vec3f, b: Vec3f): Vec3f {
    Vec3f(a.x + b.x, a.y + b.y, a.z + b.z)
  }

  /** `-` and `-=`: subtracting `b` is undone by adding it back. */
  function Sub(a: Vec3f, b: Vec3f): (r: Vec3f)
    ensures Add(r, b) == a
  {
    Vec3f(a.x - b.x, a.y - b.y, a.z - b.z)
  }

  /** Unary `-`: the additive inverse, and an involution. */
  function Neg(v: Vec3f): (r: Vec3f)
    ensures Add(v, r) == Zero
    ensures Vec3f(-r.x, -r.y, -r.z) == v
  {
    Vec3f(-v.x, -v.y, -v.z)
  }

  /** `* Float` and `*=`. */
  function Scale(v: Vec3f, s: real): Vec3f {
    Vec3f(v.x * s, v.y * s, v.z * s)
  }

  /** `/ Float` and `/=`, undone by scaling with the same factor. A zero
      divisor (an IEEE infinity in the source) is excluded. */
  function Div(v: Vec3f, s: real): (r: Vec3f)
    requires s != 0.0
    ensures Scale(r, s) == v
  {
    Vec3f(v.x / s, v.y / s, v.z / s)
  }

  function InnerProd(a: Vec3f, b: Vec3f): real {
    a.x * b.x + a.y * b.y + a.z * b.z
  }

  /** The source's cross product. Its y component is `x*oz - z*ox`, the
      negation of the textbook component. */
  function Cross(a: Vec3f, b: Vec3f): Vec3f {
    Vec3f(a.y * b.z - a.z * b.y,
          a.x * b.z - a.z * b.x,
          a.x * b.y - a.y * b.x)
  }

  lemma AddSubCancel(a: Vec3f, b: Vec3f)
    ensures Sub(Add(a, b), b) == a
    ensures Neg(Neg(a)) == a
  {
  }

  lemma InnerProdSymmetric(a: Vec3f, b: Vec3f)
    ensures InnerProd(a, b) == InnerProd(b, a)
  {
  }

  /** The inner product is linear in its first argument. */
  lemma InnerProdLinear(a: Vec3f, b: Vec3f, w: Vec3f, s: real)
    ensures InnerProd(Add(a, b), w) == InnerProd(a, w) + InnerProd(b, w)
    ensures InnerProd(Scale(a, s), w) == s * InnerProd(a, w)
  {
  }

  lemma CrossAntisymmetric(a: Vec3f, b: Vec3f)
    ensures Cross(a, b) == Neg(Cross(b, a))
    ensures Cross(a, a) == Zero
  {
  }

  /** The cross product is additive in its first argument, and negating an
      argument negates the product. */
  lemma CrossBilinear(a: Vec3f, b: Vec3f, c: Vec3f)
    ensures Cross(Add(a, b), c) == Add(Cross(a, c), Cross(b, c))
    ensures Cross(Neg(a), c) == Neg(Cross(a, c))
    ensures Cross(a, Neg(c)) == Neg(Cross(a, c))
  {
    var l, r := Cross(Add(a, b), c), Add(Cross(a, c), Cross(b, c));
    assert l.x == r.x by { Distrib2(a.y, b.y, c.z, a.z, b.z, c.y); }
    assert l.y == r.y by { Distrib2(a.x, b.x, c.z, a.z, b.z, c.x); }
    assert l.z == r.z by { Distrib2(a.x, b.x, c.y, a.y, b.y, c.x); }
    CrossNeg(a, c);
  }

  lemma CrossNeg(a: Vec3f, c: Vec3f)
    ensures Cross(Neg(a), c) == Neg(Cross(a, c)) && Cross(a, Neg(c)) == Neg(Cross(a, c))
  {
    NegTerm(a.y, c.z, a.z, c.y);
    NegTerm(a.x, c.z, a.z, c.x);
    NegTerm(a.x, c.y, a.y, c.x);
  }

  lemma NegTerm(p: real, q: real, s: real, t: real)
    ensures (-p) * q - (-s) * t == -(p * q - s * t)
    ensures p * (-q) - s * (-t) == -(p * q - s * t)
  {
  }

  lemma Distrib2(p: real, p': real, q: real, s: real, s': real, t: real)
    ensures (p + p') * q - (s + s') * t == (p * q - s * t) + (p' * q - s' * t)
  {
  }

  /** Because of the flipped y component, it is the source's cross product
      reflected in y that is orthogonal to both factors. */
  lemma ReflectedCrossOrthogonal(a: Vec3f, b: Vec3f)
    ensures InnerProd(ReflY(Cross(a, b)), a) == 0.0
    ensures InnerProd(ReflY(Cross(a, b)), b) == 0.0
  {
  }

  // ---------------------------------------------------------------- clamp and normalize

  /** `f32::clamp`, which panics when `lo > hi`. */
  function Clamp(v: real, lo: real, hi: real): (r: real)
    requires lo <= hi
    ensures lo <= r <= hi
    ensures lo <= v <= hi ==> r == v
    ensures v < lo ==> r == lo
    ensures v > hi ==> r == hi
  {
    if v < lo then lo else if v > hi then hi else v
  }

  /** `clamp_xy`: x and y are clamped into their ranges, z is untouched. */
  function ClampXY(v: Vec3f, minX: real, maxX: real, minY: real, maxY: real): (r: Vec3f)
    requires minX <= maxX && minY <= maxY
    ensures minX <= r.x <= maxX && minY <= r.y <= maxY
    ensures r.z == v.z
    ensures minX <= v.x <= maxX ==> r.x == v.x
    ensures minY <= v.y <= maxY ==> r.y == v.y
  {
    Vec3f(Clamp(v.x, minX, maxX), Clamp(v.y, minY, maxY), v.z)
  }

  /** `normalize` / `get_normalized`: divide by the length, where `sqrt` is
      the platform square root. A zero length gives NaN components in the
      source; the model gives the zero vector instead (see README). */
  function Normalize(v: Vec3f, sqrt: real -> real): Vec3f {
    var length := sqrt(InnerProd(v, v));
    if length == 0.0 then Zero else Div(v, length)
  }

  /** With a true square root, a non-zero vector normalizes to unit length. */
  lemma NormalizeUnit(v: Vec3f, sqrt: real -> real)
    requires sqrt(InnerProd(v, v)) * sqrt(InnerProd(v, v)) == InnerProd(v, v)
    requires v != Zero
    ensures InnerProd(Normalize(v, sqrt), Normalize(v, sqrt)) == 1.0
  {
    var l := sqrt(InnerProd(v, v));
    var n := Normalize(v, sqrt);
    assert InnerProd(v, v) > 0.0 by {
      assert Zero == Vec3f(0.0, 0.0, 0.0);
      assert v.x != 0.0 || v.y != 0.0 || v.z != 0.0;
      SumOfSquaresPositive(v.x, v.y, v.z);
      calc {
        InnerProd(v, v);
      ==
        v.x * v.x + v.y * v.y + v.z * v.z;
      >
        0.0;
      }
    }
    assert l != 0.0;
    assert Scale(n, l) == v;
    var m := InnerProd(n, n);
    calc {
      l * l;
      InnerProd(v, v);
      (n.x * l) * (n.x * l) + (n.y * l) * (n.y * l) + (n.z * l) * (n.z * l);
      (l * l) * m;
    }
    assert (l * l) * (m - 1.0) == 0.0;
    assert l * l != 0.0;
  }

  lemma SumOfSquaresPositive(a: real, b: real, c: real)
    requires a != 0.0 || b != 0.0 || c != 0.0
    ensures a * a + b * b + c * c > 0.0
  {
    Square(a); Square(b); Square(c);
  }

  lemma Square(a: real)
    ensures a * a >= 0.0
    ensures a != 0.0 ==> a * a > 0.0
  {
    if a < 0.0 { assert a * a == (-a) * (-a); }
  }

  /** Normalizing commutes with negation. */
  lemma NormalizeNeg(v: Vec3f, sqrt: real -> real)
    ensures Normalize(Neg(v), sqrt) == Neg(Normalize(v, sqrt))
  {
    assert InnerProd(Neg(v), Neg(v)) == InnerProd(v, v);
  }

  // ---------------------------------------------------------------- reflections

  /** `refl_x`: negates exactly the x component. */
  function ReflX(v: Vec3f): (r: Vec3f)
    ensures r.x == -v.x && r.y == v.y && r.z == v.z
  {
    v.(x := -v.x)
  }

  /** `refl_y`: negates exactly the y component. */
  function ReflY(v: Vec3f): (r: Vec3f)
    ensures r.x == v.x && r.y == -v.y && r.z == v.z
  {
    v.(y := -v.y)
  }

  /** `refl_z`: negates exactly the z component. */
  function ReflZ(v: Vec3f): (r: Vec3f)
    ensures r.x == v.x && r.y == v.y && r.z == -v.z
  {
    v.(z := -v.z)
  }

  /** Each reflection is an involution that keeps the length. */
  lemma ReflInvolution(v: Vec3f)
    ensures ReflX(ReflX(v)) == v && ReflY(ReflY(v)) == v && ReflZ(ReflZ(v)) == v
    ensures InnerProd(ReflX(v), ReflX(v)) == InnerProd(v, v)
    ensures InnerProd(ReflY(v), ReflY(v)) == InnerProd(v, v)
    ensures InnerProd(ReflZ(v), ReflZ(v)) == InnerProd(v, v)
  {
  }

  // ---------------------------------------------------------------- axis rotations

  /** `rot_x`: rotates y and z about the x axis; x is unchanged. */
  function RotX(v: Vec3f, t: Trig): (r: Vec3f)
    ensures r.x == v.x
  {
    Vec3f(v.x, v.y * t.cos - v.z * t.sin, v.y * t.sin + v.z * t.cos)
  }

  /** `rot_y`: rotates x and z about the y axis; y is unchanged. */
  function RotY(v: Vec3f, t: Trig): (r: Vec3f)
    ensures r.y == v.y
  {
    Vec3f(v.x * t.cos + v.z * t.sin, v.y, -v.x * t.sin + v.z * t.cos)
  }

  /** `rot_z`: rotates x and y about the z axis; z is unchanged. */
  function RotZ(v: Vec3f, t: Trig): (r: Vec3f)
    ensures r.z == v.z
  {
    Vec3f(v.x * t.cos - v.y * t.sin, v.x * t.sin + v.y * t.cos, v.z)
  }

  /** `inv_rot_x`: the rotation by the opposite angle; x is unchanged. */
  function InvRotX(v: Vec3f, t: Trig): (r: Vec3f)
    ensures r.x == v.x
  {
    Vec3f(v.x, v.y * t.cos + v.z * t.sin, -v.y * t.sin + v.z * t.cos)
  }

  /** `inv_rot_y`; y is unchanged. */
  function InvRotY(v: Vec3f, t: Trig): (r: Vec3f)
    ensures r.y == v.y
  {
    Vec3f(v.x * t.cos - v.z * t.sin, v.y, v.x * t.sin + v.z * t.cos)
  }

  /** `inv_rot_z`; z is unchanged. */
  function InvRotZ(v: Vec3f, t: Trig): (r: Vec3f)
    ensures r.z == v.z
  {
    Vec3f(v.x * t.cos + v.y * t.sin, -v.x * t.sin + v.y * t.cos, v.z)
  }

  /** The planar identity behind every inverse: rotating the pair (p, q)
      by (s, c) and back gives (p, q) when s^2 + c^2 = 1. */
  lemma PlanarRoundTrip(p: real, q: real, s: real, c: real)
    requires s * s + c * c == 1.0
    ensures (p * c - q * s) * c + (p * s + q * c) * s == p
    ensures -(p * c - q * s) * s + (p * s + q * c) * c == q
    ensures (p * c + q * s) * c - (-p * s + q * c) * s == p
    ensures (p * c + q * s) * s + (-p * s + q * c) * c == q
  {
    calc {
      (p * c - q * s) * c + (p * s + q * c) * s;
      p * (c * c + s * s);
      p;
    }
    calc {
      -(p * c - q * s) * s + (p * s + q * c) * c;
      q * (s * s + c * c);
      q;
    }
    calc {
      (p * c + q * s) * c - (-p * s + q * c) * s;
      p * (c * c + s * s);
      p;
    }
    calc {
      (p * c + q * s) * s + (-p * s + q * c) * c;
      q * (s * s + c * c);
      q;
    }
  }

  /** Each inverse rotation undoes its rotation, in both orders. */
  lemma {:induction false} InvRotUndoesRot(v: Vec3f, t: Trig)
    requires IsUnit(t)
    ensures InvRotX(RotX(v, t), t) == v && RotX(InvRotX(v, t), t) == v
    ensures InvRotY(RotY(v, t), t) == v && RotY(InvRotY(v, t), t) == v
    ensures InvRotZ(RotZ(v, t), t) == v && RotZ(InvRotZ(v, t), t) == v
  {
    InvRotXUndoesRotX(v, t);
    InvRotYUndoesRotY(v, t);
    InvRotZUndoesRotZ(v, t);
  }

  lemma {:induction false} InvRotXUndoesRotX(v: Vec3f, t: Trig)
    requires IsUnit(t)
    ensures InvRotX(RotX(v, t), t) == v && RotX(InvRotX(v, t), t) == v
  {
    PlanarRoundTrip(v.y, v.z, t.sin, t.cos);
    var f, g := InvRotX(RotX(v, t), t), RotX(InvRotX(v, t), t);
    assert f.y == v.y && f.z == v.z;
    assert g.y == v.y && g.z == v.z;
  }

  lemma {:induction false} InvRotYUndoesRotY(v: Vec3f, t: Trig)
    requires IsUnit(t)
    ensures InvRotY(RotY(v, t), t) == v && RotY(InvRotY(v, t), t) == v
  {
    PlanarRoundTrip(v.z, v.x, t.sin, t.cos);
    var f, g := InvRotY(RotY(v, t), t), RotY(InvRotY(v, t), t);
    assert f.x == v.x && f.z == v.z;
    assert g.x == v.x && g.z == v.z;
  }

  lemma {:induction false} InvRotZUndoesRotZ(v: Vec3f, t: Trig)
    requires IsUnit(t)
    ensures InvRotZ(RotZ(v, t), t) == v && RotZ(InvRotZ(v, t), t) == v
  {
    PlanarRoundTrip(v.x, v.y, t.sin, t.cos);
    var f, g := InvRotZ(RotZ(v, t), t), RotZ(InvRotZ(v, t), t);
    assert f.x == v.x && f.y == v.y;
    assert g.x == v.x && g.y == v.y;
  }

  /** With s^2 + c^2 = 1 each axis rotation keeps the length. */
  lemma RotPreservesLength(v: Vec3f, t: Trig)
    requires IsUnit(t)
    ensures InnerProd(RotX(v, t), RotX(v, t)) == InnerProd(v, v)
    ensures InnerProd(RotY(v, t), RotY(v, t)) == InnerProd(v, v)
    ensures InnerProd(RotZ(v, t), RotZ(v, t)) == InnerProd(v, v)
  {
    RotXLength(v, t);
    RotYLength(v, t);
    RotZLength(v, t);
  }

  lemma RotXLength(v: Vec3f, t: Trig)
    requires IsUnit(t)
    ensures InnerProd(RotX(v, t), RotX(v, t)) == InnerProd(v, v)
  {
    PlanarNorm(v.y, v.z, t.sin, t.cos);
  }

  lemma RotYLength(v: Vec3f, t: Trig)
    requires IsUnit(t)
    ensures InnerProd(RotY(v, t), RotY(v, t)) == InnerProd(v, v)
  {
    PlanarNorm(v.z, v.x, t.sin, t.cos);
  }

  lemma RotZLength(v: Vec3f, t: Trig)
    requires IsUnit(t)
    ensures InnerProd(RotZ(v, t), RotZ(v, t)) == InnerProd(v, v)
  {
    PlanarNorm(v.x, v.y, t.sin, t.cos);
  }

  lemma PlanarNorm(p: real, q: real, s: real, c: real)
    requires s * s + c * c == 1.0
    ensures (p * c - q * s) * (p * c - q * s) + (p * s + q * c) * (p * s + q * c) == p * p + q * q
  {
    calc {
      (p * c - q * s) * (p * c - q * s) + (p * s + q * c) * (p * s + q * c);
      (p * p + q * q) * (s * s + c * c);
      p * p + q * q;
    }
  }

  // ---------------------------------------------------------------- composed rotations

  /** `rot_xyz`: x, then y, then z, with `sinCos` the platform's `sin_cos`. */
  function RotXyz(v: Vec3f, angles: Vec3f, sinCos: real -> Trig): Vec3f {
    RotZ(RotY(RotX(v, sinCos(angles.x)), sinCos(angles.y)), sinCos(angles.z))
  }

  /** `rot_zyx`: z, then y, then x. */
  function RotZyx(v: Vec3f, angles: Vec3f, sinCos: real -> Trig): Vec3f {
    RotX(RotY(RotZ(v, sinCos(angles.z)), sinCos(angles.y)), sinCos(angles.x))
  }

  /** `inv_rot_xyz`: inverse x, then y, then z. */
  function InvRotXyz(v: Vec3f, angles: Vec3f, sinCos: real -> Trig): Vec3f {
    InvRotZ(InvRotY(InvRotX(v, sinCos(angles.x)), sinCos(angles.y)), sinCos(angles.z))
  }

  /** `inv_rot_zyx`: inverse z, then y, then x. */
  function InvRotZyx(v: Vec3f, angles: Vec3f, sinCos: real -> Trig): Vec3f {
    InvRotX(InvRotY(InvRotZ(v, sinCos(angles.z)), sinCos(angles.y)), sinCos(angles.x))
  }

  predicate UnitAngles(angles: Vec3f, sinCos: real -> Trig) {
    IsUnit(sinCos(angles.x)) && IsUnit(sinCos(angles.y)) && IsUnit(sinCos(angles.z))
  }

  /** The forward and inverse compositions apply the axes in opposite
      orders, so each undoes the other. */
  lemma {:induction false} InvRotZyxUndoesRotXyz(v: Vec3f, angles: Vec3f, sinCos: real -> Trig)
    requires UnitAngles(angles, sinCos)
    ensures InvRotZyx(RotXyz(v, angles, sinCos), angles, sinCos) == v
    ensures RotXyz(InvRotZyx(v, angles, sinCos), angles, sinCos) == v
  {
    var tx, ty, tz := sinCos(angles.x), sinCos(angles.y), sinCos(angles.z);
    var v1 := RotX(v, tx);
    var v2 := RotY(v1, ty);
    InvRotUndoesRot(v2, tz);
    InvRotUndoesRot(v1, ty);
    InvRotUndoesRot(v, tx);
    var w1 := InvRotZ(v, tz);
    var w2 := InvRotY(w1, ty);
    InvRotUndoesRot(w2, tx);
    InvRotUndoesRot(w1, ty);
    InvRotUndoesRot(v, tz);
  }

  lemma {:induction false} InvRotXyzUndoesRotZyx(v: Vec3f, angles: Vec3f, sinCos: real -> Trig)
    requires UnitAngles(angles, sinCos)
    ensures InvRotXyz(RotZyx(v, angles, sinCos), angles, sinCos) == v
    ensures RotZyx(InvRotXyz(v, angles, sinCos), angles, sinCos) == v
  {
    var tx, ty, tz := sinCos(angles.x), sinCos(angles.y), sinCos(angles.z);
    var v1 := RotZ(v, tz);
    var v2 := RotY(v1, ty);
    InvRotUndoesRot(v2, tx);
    InvRotUndoesRot(v1, ty);
    InvRotUndoesRot(v, tz);
    var w1 := InvRotX(v, tx);
    var w2 := InvRotY(w1, ty);
    InvRotUndoesRot(w2, tz);
    InvRotUndoesRot(w1, ty);
    InvRotUndoesRot(v, tx);
  }
}
