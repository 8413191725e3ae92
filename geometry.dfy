/**
 * Triangle geometry (mesh/src/geometry.rs): vertices and triangles, the
 * vertical sort, normals, interpolation, per-vertex transforms, the split
 * and near-plane tests, the barycentric solver and the mesh object.
 *
 * `Vert` and `Tri` are `Copy` values; their `&mut self` methods are
 * functions from the old triangle to the new one.
 */
module Geometry {
  import opened Wrappers
  import opened VecMath
  import opened RenderUtils
  import opened Textures

  datatype Vert = Vert(pos: Vec3f, texpos: Vec2f, color: Color)

  datatype Tri = Tri(a: Vert, b: Vert, c: Vert)

  /** What `initialize_triangle_render` hands to the fill: the transformed
      triangle, its normal and its lighting factor. */
  datatype PolyData = PolyData(tri: Tri, normal: Vec3f, lighting: real)

  function Verts(t: Tri): multiset<Vert> {
    multiset{t.a, t.b, t.c}
  }

  predicate SortedVertically(t: Tri) {
    t.a.pos.y >= t.b.pos.y >= t.c.pos.y
  }

  // ---------------------------------------------------------------- vertical sort

  /** `sort_verts_vertical`: three compare-and-swaps. The result is a
      permutation of the vertices with descending y. */
  function SortVertsVertical(t: Tri): (r: Tri)
    ensures SortedVertically(r)
    ensures Verts(r) == Verts(t)
  {
    var t1 := if t.c.pos.y > t.b.pos.y then Tri(t.a, t.c, t.b) else t;
    var t2 := if t1.b.pos.y > t1.a.pos.y then Tri(t1.b, t1.a, t1.c) else t1;
    if t2.c.pos.y > t2.b.pos.y then Tri(t2.a, t2.c, t2.b) else t2
  }

  /** A triangle that is already sorted is left as it is, ties included. */
  lemma SortKeepsSorted(t: Tri)
    requires SortedVertically(t)
    ensures SortVertsVertical(t) == t
  {
  }

  // ---------------------------------------------------------------- per-vertex channels

  /** `get_red_ordered_vec` and its green and blue siblings: one channel
      of the three vertices, as a vector. */
  function RedOrdered(t: Tri): Vec3f {
    Vec3f(t.a.color.red, t.b.color.red, t.c.color.red)
  }

  function GreenOrdered(t: Tri): Vec3f {
    Vec3f(t.a.color.green, t.b.color.green, t.c.color.green)
  }

  function BlueOrdered(t: Tri): Vec3f {
    Vec3f(t.a.color.blue, t.b.color.blue, t.c.color.blue)
  }

  /** The unit weight vectors that select vertex a, b or c. */
  const E_A: Vec3f := Vec3f(1.0, 0.0, 0.0)
  const E_B: Vec3f := Vec3f(0.0, 1.0, 0.0)
  const E_C: Vec3f := Vec3f(0.0, 0.0, 1.0)

  /** The vertex a weight vector selects, when it is a unit vector. */
  function Select(t: Tri, w: Vec3f): Option<Vert> {
    if w == E_A then Some(t.a) else if w == E_B then Some(t.b) else if w == E_C then Some(t.c) else None
  }

  // ---------------------------------------------------------------- interpolation

  /** `interpolate_depth_linear`. */
  function InterpolateDepthLinear(t: Tri, w: Vec3f): real {
    InnerProd(Vec3f(t.a.pos.z, t.b.pos.z, t.c.pos.z), w)
  }

  function ReciprocalDepths(t: Tri): Vec3f
    requires t.a.pos.z != 0.0 && t.b.pos.z != 0.0 && t.c.pos.z != 0.0
  {
    Vec3f(1.0 / t.a.pos.z, 1.0 / t.b.pos.z, 1.0 / t.c.pos.z)
  }

  /** `interpolate_depth_nonlinear`: the reciprocal of the interpolated
      reciprocal depths (perspective-correct depth). */
  function InterpolateDepthNonlinear(t: Tri, w: Vec3f): real
    requires t.a.pos.z != 0.0 && t.b.pos.z != 0.0 && t.c.pos.z != 0.0
    requires InnerProd(ReciprocalDepths(t), w) != 0.0
  {
    1.0 / InnerProd(ReciprocalDepths(t), w)
  }

  /** `interpolate_tex_u`. */
  function InterpolateTexU(t: Tri, w: Vec3f): real {
    InnerProd(Vec3f(t.a.texpos.x, t.b.texpos.x, t.c.texpos.x), w)
  }

  /** `interpolate_tex_v`. */
  function InterpolateTexV(t: Tri, w: Vec3f): real {
    InnerProd(Vec3f(t.a.texpos.y, t.b.texpos.y, t.c.texpos.y), w)
  }

  /** Every interpolation at a unit weight vector gives that vertex's own
      value: depth (both ways), texture coordinates and colour channels. */
  lemma InterpolationAtVertices(t: Tri, w: Vec3f)
    requires Select(t, w).Some?
    ensures var v := Select(t, w).value;
      InterpolateDepthLinear(t, w) == v.pos.z
      && InterpolateTexU(t, w) == v.texpos.x && InterpolateTexV(t, w) == v.texpos.y
      && InnerProd(RedOrdered(t), w) == v.color.red
      && InnerProd(GreenOrdered(t), w) == v.color.green
      && InnerProd(BlueOrdered(t), w) == v.color.blue
  {
  }

  lemma NonlinearDepthAtVertices(t: Tri, w: Vec3f)
    requires t.a.pos.z != 0.0 && t.b.pos.z != 0.0 && t.c.pos.z != 0.0
    requires Select(t, w).Some?
    ensures InnerProd(ReciprocalDepths(t), w) != 0.0
    ensures InterpolateDepthNonlinear(t, w) == Select(t, w).value.pos.z
  {
    var z := Select(t, w).value.pos.z;
    assert InnerProd(ReciprocalDepths(t), w) == 1.0 / z;
  }

  /** Weights that sum to 1 reproduce a constant depth, both linearly and
      perspective-correctly: the interpolation is affine. */
  lemma InterpolationOfFlatTriangle(t: Tri, w: Vec3f, d: real)
    requires t.a.pos.z == d && t.b.pos.z == d && t.c.pos.z == d && d != 0.0
    requires w.x + w.y + w.z == 1.0
    ensures InterpolateDepthLinear(t, w) == d
    ensures InnerProd(ReciprocalDepths(t), w) == 1.0 / d
    ensures InterpolateDepthNonlinear(t, w) == d
  {
    calc {
      InterpolateDepthLinear(t, w);
      d * w.x + d * w.y + d * w.z;
      d * (w.x + w.y + w.z);
      d;
    }
    var r := 1.0 / d;
    calc {
      InnerProd(ReciprocalDepths(t), w);
      r * w.x + r * w.y + r * w.z;
      r * (w.x + w.y + w.z);
      r;
    }
  }

  // ---------------------------------------------------------------- normal

  /** The unnormalised face normal `(a - b) x (a - c)`. */
  function FaceCross(t: Tri): Vec3f {
    Cross(Sub(t.a.pos, t.b.pos), Sub(t.a.pos, t.c.pos))
  }

  /** `get_normal`, with `sqrt` the platform square root. */
  function GetNormal(t: Tri, sqrt: real -> real): Vec3f {
    Normalize(FaceCross(t), sqrt)
  }

  /** Swapping any two vertices flips the winding, and with it the normal. */
  lemma SwapFlipsNormal(t: Tri, sqrt: real -> real)
    ensures FaceCross(Tri(t.a, t.c, t.b)) == Neg(FaceCross(t))
    ensures FaceCross(Tri(t.b, t.a, t.c)) == Neg(FaceCross(t))
    ensures FaceCross(Tri(t.c, t.b, t.a)) == Neg(FaceCross(t))
    ensures GetNormal(Tri(t.a, t.c, t.b), sqrt) == Neg(GetNormal(t, sqrt))
    ensures GetNormal(Tri(t.b, t.a, t.c), sqrt) == Neg(GetNormal(t, sqrt))
    ensures GetNormal(Tri(t.c, t.b, t.a), sqrt) == Neg(GetNormal(t, sqrt))
  {
    CrossAntisymmetric(Sub(t.a.pos, t.c.pos), Sub(t.a.pos, t.b.pos));
    assert FaceCross(Tri(t.a, t.c, t.b)) == Neg(FaceCross(t));
    SwapABFlips(t);
    SwapACFlips(t);
    NormalizeNeg(FaceCross(t), sqrt);
  }

  /** Exchanging a and b negates the face cross product. */
  lemma SwapABFlips(t: Tri)
    ensures FaceCross(Tri(t.b, t.a, t.c)) == Neg(FaceCross(t))
  {
    var u, w := Sub(t.a.pos, t.b.pos), Sub(t.a.pos, t.c.pos);
    assert Sub(t.b.pos, t.a.pos) == Neg(u);
    assert Sub(t.b.pos, t.c.pos) == Add(w, Neg(u));
  }

  /** Exchanging a and c negates the face cross product. */
  lemma SwapACFlips(t: Tri)
    ensures FaceCross(Tri(t.c, t.b, t.a)) == Neg(FaceCross(t))
  {
    var u, w := Sub(t.a.pos, t.b.pos), Sub(t.a.pos, t.c.pos);
    assert Sub(t.c.pos, t.a.pos) == Neg(w);
    assert Sub(t.c.pos, t.b.pos) == Add(u, Neg(w));
  }

  // ---------------------------------------------------------------- per-vertex transforms

  /** Apply `f` to the three positions, keeping texture coordinates and
      colours. */
  function MapPos(t: Tri, f: Vec3f -> Vec3f): (r: Tri)
    ensures r.a.texpos == t.a.texpos && r.b.texpos == t.b.texpos && r.c.texpos == t.c.texpos
    ensures r.a.color == t.a.color && r.b.color == t.b.color && r.c.color == t.c.color
  {
    Tri(t.a.(pos := f(t.a.pos)), t.b.(pos := f(t.b.pos)), t.c.(pos := f(t.c.pos)))
  }

  /** `Tri::rot_x`, `rot_y`, `rot_z`. */
  function TriRotX(t: Tri, s: Trig): Tri {
    MapPos(t, p => RotX(p, s))
  }

  function TriRotY(t: Tri, s: Trig): Tri {
    MapPos(t, p => RotY(p, s))
  }

  function TriRotZ(t: Tri, s: Trig): Tri {
    MapPos(t, p => RotZ(p, s))
  }

  /** `Tri::rot_xyz`: the whole triangle about x, then y, then z. */
  function TriRotXyz(t: Tri, angles: Vec3f, sinCos: real -> Trig): Tri {
    TriRotZ(TriRotY(TriRotX(t, sinCos(angles.x)), sinCos(angles.y)), sinCos(angles.z))
  }

  /** `Tri::rot_zyx`: the whole triangle about z, then y, then x. */
  function TriRotZyx(t: Tri, angles: Vec3f, sinCos: real -> Trig): Tri {
    TriRotX(TriRotY(TriRotZ(t, sinCos(angles.z)), sinCos(angles.y)), sinCos(angles.x))
  }

  /** Rotating the triangle axis by axis is rotating each vertex by the
      composed rotation, and the inverse composition brings it back. */
  lemma TriRotationIsPerVertex(t: Tri, angles: Vec3f, sinCos: real -> Trig)
    ensures TriRotXyz(t, angles, sinCos) == MapPos(t, p => RotXyz(p, angles, sinCos))
    ensures TriRotZyx(t, angles, sinCos) == MapPos(t, p => RotZyx(p, angles, sinCos))
    ensures UnitAngles(angles, sinCos) ==>
      MapPos(TriRotXyz(t, angles, sinCos), p => InvRotZyx(p, angles, sinCos)) == t
  {
    if UnitAngles(angles, sinCos) {
      InvRotZyxUndoesRotXyz(t.a.pos, angles, sinCos);
      InvRotZyxUndoesRotXyz(t.b.pos, angles, sinCos);
      InvRotZyxUndoesRotXyz(t.c.pos, angles, sinCos);
    }
  }

  /** `Tri::translate`: every position moves by `v`. */
  function Translate(t: Tri, v: Vec3f): (r: Tri)
    ensures Sub(r.a.pos, t.a.pos) == v && Sub(r.b.pos, t.b.pos) == v && Sub(r.c.pos, t.c.pos) == v
    ensures r.a.texpos == t.a.texpos && r.b.texpos == t.b.texpos && r.c.texpos == t.c.texpos
    ensures r.a.color == t.a.color && r.b.color == t.b.color && r.c.color == t.c.color
  {
    MapPos(t, p => Add(p, v))
  }

  /** Translating back by `-v` undoes a translation, and translation keeps
      the triangle's shape: its face normal does not change. */
  lemma TranslateProperties(t: Tri, v: Vec3f, sqrt: real -> real)
    ensures Translate(Translate(t, v), Neg(v)) == t
    ensures FaceCross(Translate(t, v)) == FaceCross(t)
    ensures GetNormal(Translate(t, v), sqrt) == GetNormal(t, sqrt)
  {
    var r := Translate(t, v);
    assert Sub(r.a.pos, r.b.pos) == Sub(t.a.pos, t.b.pos);
    assert Sub(r.a.pos, r.c.pos) == Sub(t.a.pos, t.c.pos);
  }

  // ---------------------------------------------------------------- split and near-plane tests

  /** The 2D cross term of the two edges leaving vertex a. */
  function CrossTerm(t: Tri): real {
    var v1, v2 := Sub(t.a.pos, t.b.pos), Sub(t.a.pos, t.c.pos);
    v1.x * v2.y - v1.y * v2.x
  }

  /** `lumped_left`. */
  predicate LumpedLeft(t: Tri) {
    CrossTerm(t) <= 0.0
  }

  /** `lumped_right`. */
  predicate LumpedRight(t: Tri) {
    CrossTerm(t) >= 0.0
  }

  /** One of the two tests always holds; both hold exactly for a triangle
      whose screen projection is degenerate. The term is the z component of
      the face cross product. */
  lemma LumpedCover(t: Tri)
    ensures LumpedLeft(t) || LumpedRight(t)
    ensures LumpedLeft(t) && LumpedRight(t) <==> CrossTerm(t) == 0.0
    ensures CrossTerm(t) == FaceCross(t).z
  {
  }

  /** Swapping b and c flips which side the middle vertex lies on. */
  lemma LumpedSwap(t: Tri)
    ensures CrossTerm(Tri(t.a, t.c, t.b)) == -CrossTerm(t)
    ensures LumpedLeft(Tri(t.a, t.c, t.b)) <==> LumpedRight(t)
  {
  }

  /** The near plane of camera space. */
  const NEAR: real := 0.1

  /** `behind_view`: some vertex is closer than the near plane. */
  predicate BehindView(t: Tri) {
    t.a.pos.z < NEAR || t.b.pos.z < NEAR || t.c.pos.z < NEAR
  }

  /** The test is about the vertex set, so sorting does not change it. */
  lemma BehindViewIsAboutVertices(t: Tri)
    ensures BehindView(t) <==> exists v :: v in Verts(t) && v.pos.z < NEAR
    ensures BehindView(SortVertsVertical(t)) == BehindView(t)
  {
    var s := SortVertsVertical(t);
    assert s.a in Verts(t) && s.b in Verts(t) && s.c in Verts(t);
    assert t.a in Verts(s) && t.b in Verts(s) && t.c in Verts(s);
    if exists v :: v in Verts(t) && v.pos.z < NEAR {
      var v :| v in Verts(t) && v.pos.z < NEAR;
      assert v == t.a || v == t.b || v == t.c;
    }
  }

  // ---------------------------------------------------------------- barycentric system

  /** `BarycentricSystem`: the vertex positions and the coefficients
      precomputed from them. */
  datatype Barycentric = Barycentric(a: Vec3f, b: Vec3f, c: Vec3f, invDen: real,
                                     bcY: real, cbX: real, caY: real, acX: real)

  /** The denominator: twice the signed screen area of the triangle. */
  function Den(t: Tri): real {
    var a, b, c := t.a.pos, t.b.pos, t.c.pos;
    (b.y - c.y) * (a.x - c.x) + (c.x - b.x) * (a.y - c.y)
  }

  /** `BarycentricSystem::cons`. A degenerate triangle (zero denominator)
      has no barycentric system. */
  function BarycentricCons(t: Tri): (s: Barycentric)
    requires Den(t) != 0.0
    ensures s.invDen * Den(t) == 1.0
  {
    var a, b, c := t.a.pos, t.b.pos, t.c.pos;
    Barycentric(a, b, c, 1.0 / Den(t), b.y - c.y, c.x - b.x, c.y - a.y, a.x - c.x)
  }

  /** The weights of a point of the plane. */
  function CoordsAt(s: Barycentric, x: real, y: real): (w: Vec3f)
    ensures w.x + w.y + w.z == 1.0
  {
    var w1 := (s.bcY * (x - s.c.x) + s.cbX * (y - s.c.y)) * s.invDen;
    var w2 := (s.caY * (x - s.c.x) + s.acX * (y - s.c.y)) * s.invDen;
    Vec3f(w1, w2, 1.0 - w1 - w2)
  }

  /** `get_coords`: the weights of an integer pixel. */
  function GetCoords(s: Barycentric, x: int, y: int): (w: Vec3f)
    ensures w.x + w.y + w.z == 1.0
  {
    CoordsAt(s, x as real, y as real)
  }

  /** The weights hit the vertices exactly. */
  lemma CoordsAtVertices(t: Tri)
    requires Den(t) != 0.0
    ensures var s := BarycentricCons(t);
      CoordsAt(s, t.a.pos.x, t.a.pos.y) == E_A
      && CoordsAt(s, t.b.pos.x, t.b.pos.y) == E_B
      && CoordsAt(s, t.c.pos.x, t.c.pos.y) == E_C
  {
    var s := BarycentricCons(t);
    var a, b, c := t.a.pos, t.b.pos, t.c.pos;
    var d, inv := Den(t), s.invDen;
    var na1 := (b.y - c.y) * (a.x - c.x) + (c.x - b.x) * (a.y - c.y);
    var na2 := (c.y - a.y) * (a.x - c.x) + (a.x - c.x) * (a.y - c.y);
    assert na1 == d;
    assert na2 == 0.0;
    var nb1 := (b.y - c.y) * (b.x - c.x) + (c.x - b.x) * (b.y - c.y);
    var nb2 := (c.y - a.y) * (b.x - c.x) + (a.x - c.x) * (b.y - c.y);
    assert nb1 == 0.0;
    assert nb2 == d;
    assert CoordsAt(s, a.x, a.y) == Vec3f(na1 * inv, na2 * inv, 1.0 - na1 * inv - na2 * inv);
    assert CoordsAt(s, b.x, b.y) == Vec3f(nb1 * inv, nb2 * inv, 1.0 - nb1 * inv - nb2 * inv);
    assert CoordsAt(s, c.x, c.y) == Vec3f(0.0 * inv, 0.0 * inv, 1.0 - 0.0 * inv - 0.0 * inv);
  }

  /** The weights reconstruct the point they were computed for: the
      weighted sum of the vertices is (x, y). */
  lemma CoordsReconstructPoint(t: Tri, x: real, y: real)
    requires Den(t) != 0.0
    ensures var s := BarycentricCons(t);
      var w := CoordsAt(s, x, y);
      w.x * t.a.pos.x + w.y * t.b.pos.x + w.z * t.c.pos.x == x
      && w.x * t.a.pos.y + w.y * t.b.pos.y + w.z * t.c.pos.y == y
  {
    var s := BarycentricCons(t);
    var a, b, c := t.a.pos, t.b.pos, t.c.pos;
    var d, inv := Den(t), s.invDen;
    var px, py := x - c.x, y - c.y;
    var n1 := (b.y - c.y) * px + (c.x - b.x) * py;
    var n2 := (c.y - a.y) * px + (a.x - c.x) * py;
    var w := CoordsAt(s, x, y);
    assert w.x == n1 * inv && w.y == n2 * inv;
    // Relative to c the weighted sum is w1 (a - c) + w2 (b - c).
    var dax, day, dbx, dby := a.x - c.x, a.y - c.y, b.x - c.x, b.y - c.y;
    assert d == dby * dax - dbx * day;
    assert n1 * dax + n2 * dbx == d * px by {
      assert n1 == dby * px - dbx * py;
      assert n2 == -day * px + dax * py;
    }
    assert n1 * day + n2 * dby == d * py by {
      assert n1 == dby * px - dbx * py;
      assert n2 == -day * px + dax * py;
    }
    calc {
      w.x * a.x + w.y * b.x + w.z * c.x;
      c.x + inv * (n1 * dax + n2 * dbx);
      c.x + inv * (d * px);
      { assert inv * d == 1.0; }
      c.x + px;
    }
    calc {
      w.x * a.y + w.y * b.y + w.z * c.y;
      c.y + inv * (n1 * day + n2 * dby);
      c.y + inv * (d * py);
      { assert inv * d == 1.0; }
      c.y + py;
    }
  }

  /** The weights are unique: a point written as a weighted sum of the
      vertices, with weights summing to 1, gets back exactly those weights. */
  lemma CoordsUnique(t: Tri, wa: real, wb: real, wc: real)
    requires Den(t) != 0.0 && wa + wb + wc == 1.0
    ensures var a, b, c := t.a.pos, t.b.pos, t.c.pos;
      CoordsAt(BarycentricCons(t), wa * a.x + wb * b.x + wc * c.x, wa * a.y + wb * b.y + wc * c.y) == Vec3f(wa, wb, wc)
  {
    var s := BarycentricCons(t);
    var a, b, c := t.a.pos, t.b.pos, t.c.pos;
    var x, y := wa * a.x + wb * b.x + wc * c.x, wa * a.y + wb * b.y + wc * c.y;
    var d, inv := Den(t), s.invDen;
    var dax, day, dbx, dby := a.x - c.x, a.y - c.y, b.x - c.x, b.y - c.y;
    // Relative to c the point is wa (a - c) + wb (b - c).
    assert x - c.x == wa * dax + wb * dbx;
    assert y - c.y == wa * day + wb * dby;
    var n1 := (b.y - c.y) * (x - c.x) + (c.x - b.x) * (y - c.y);
    var n2 := (c.y - a.y) * (x - c.x) + (a.x - c.x) * (y - c.y);
    assert n1 == wa * d by {
      assert n1 == dby * (wa * dax + wb * dbx) - dbx * (wa * day + wb * dby);
    }
    assert n2 == wb * d by {
      assert n2 == -day * (wa * dax + wb * dbx) + dax * (wa * day + wb * dby);
    }
    assert n1 * inv == wa && n2 * inv == wb by {
      assert d * inv == 1.0;
    }
  }

  /** A point strictly inside the triangle, a weighted sum with all three
      weights positive, has every weight strictly between 0 and 1. */
  lemma InteriorWeights(t: Tri, wa: real, wb: real, wc: real)
    requires Den(t) != 0.0 && wa + wb + wc == 1.0
    requires wa > 0.0 && wb > 0.0 && wc > 0.0
    ensures var a, b, c := t.a.pos, t.b.pos, t.c.pos;
      var w := CoordsAt(BarycentricCons(t), wa * a.x + wb * b.x + wc * c.x, wa * a.y + wb * b.y + wc * c.y);
      0.0 < w.x < 1.0 && 0.0 < w.y < 1.0 && 0.0 < w.z < 1.0
  {
    CoordsUnique(t, wa, wb, wc);
  }

  // ---------------------------------------------------------------- mesh

  /** `Mesh`: its triangles and texture are fixed once built; its centre
      and rotation are the state the input handlers bump. */
  class Mesh {
    const tris: seq<Tri>
    const texture: Option<Texture>
    var center: Vec3f
    var rotation: Vec3f

    /** `Mesh::cons`, with the texture already loaded. */
    constructor (tris: seq<Tri>, center: Vec3f, texture: Option<Texture>)
      ensures this.tris == tris && this.texture == texture
      ensures this.center == center && rotation == Zero
    {
      this.tris := tris;
      this.texture := texture;
      this.center := center;
      rotation := Zero;
    }

    /** `rotate_x`. */
    method RotateX(angle: real)
      modifies this
      ensures rotation == old(rotation).(x := old(rotation.x) + angle)
      ensures center == old(center)
    {
      rotation := rotation.(x := rotation.x + angle);
    }

    /** `rotate_y`. */
    method RotateY(angle: real)
      modifies this
      ensures rotation == old(rotation).(y := old(rotation.y) + angle)
      ensures center == old(center)
    {
      rotation := rotation.(y := rotation.y + angle);
    }

    /** `rotate_z`. */
    method RotateZ(angle: real)
      modifies this
      ensures rotation == old(rotation).(z := old(rotation.z) + angle)
      ensures center == old(center)
    {
      rotation := rotation.(z := rotation.z + angle);
    }
  }
}
