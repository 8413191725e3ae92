/**
 * The renderer (mesh/src/renderer.rs:14-203): camera and screen transforms,
 * per-triangle gating, the two-edge trace-and-fill rasterizer, and the
 * wireframe line drawer, all writing through the depth-tested framebuffer.
 *
 * Each drawing operation is specified by a function from the frame before
 * to the frame after; the `Renderer` class methods update the buffer's
 * arrays in place and are proved equal to those functions.
 */
module Rendering {
  import opened Wrappers
  import opened VecMath
  import opened RenderUtils
  import opened Textures
  import opened Geometry
  import opened EdgeTracing

  /** `f32::to_degrees` multiplies by this constant. */
  const DEGREES_PER_RADIAN: real := 57.2957795130823208767981548141051703

  /** Triangles whose camera-space normal has x above this face away. */
  const OVERDRAW_PERCENT: real := 0.20

  /** Lighting never drops below this factor. */
  const MINIMUM_LIGHTING: real := 0.15

  /** The platform's transcendental functions. */
  datatype Platform = Platform(sinCos: real -> Trig, sqrt: real -> real, tan: real -> real)

  /** Everything a frame of rendering reads besides the buffer contents:
      the mesh's pose and texture, the camera's pose, the renderer's
      lighting direction and scale, and the buffer's dimensions. */
  datatype Scene = Scene(meshRotation: Vec3f, meshCenter: Vec3f, texture: Option<Texture>,
                         cameraPosition: Vec3f, cameraRotation: Vec3f,
                         lightingVec: Vec3f, scale: real, width: nat, height: nat,
                         platform: Platform)

  /** A texture, when present, can be sampled (`width - 1` would underflow
      on an empty one). */
  predicate SceneOk(sc: Scene) {
    sc.texture.Some? ==> sc.texture.value.Sampleable()
  }

  function Max(a: real, b: real): real {
    if a >= b then a else b
  }

  // ---------------------------------------------------------------- transforms

  /** `transform_tri`: model rotation, then camera translation, then mesh
      centre, then rotation by the negated camera angles, z then y then
      x. */
  function TransformTri(sc: Scene, t: Tri): Tri {
    var r := TriRotXyz(t, sc.meshRotation, sc.platform.sinCos);
    var m := Translate(Translate(r, Neg(sc.cameraPosition)), sc.meshCenter);
    TriRotZyx(m, Neg(sc.cameraRotation), sc.platform.sinCos)
  }

  /** The camera-space position of one model-space point. */
  function CameraSpace(sc: Scene, p: Vec3f): Vec3f {
    var q := RotXyz(p, sc.meshRotation, sc.platform.sinCos);
    RotZyx(Add(Add(q, Neg(sc.cameraPosition)), sc.meshCenter), Neg(sc.cameraRotation), sc.platform.sinCos)
  }

  /** The triangle transform moves each vertex independently and keeps
      texture coordinates and colours. */
  lemma TransformTriPerVertex(sc: Scene, t: Tri)
    ensures TransformTri(sc, t) == MapPos(t, p => CameraSpace(sc, p))
  {
    var sinCos := sc.platform.sinCos;
    var r := TriRotXyz(t, sc.meshRotation, sinCos);
    TriRotationIsPerVertex(t, sc.meshRotation, sinCos);
    var m := Translate(Translate(r, Neg(sc.cameraPosition)), sc.meshCenter);
    TriRotationIsPerVertex(m, Neg(sc.cameraRotation), sinCos);
  }

  /** `view_to_screen`: perspective division by the camera-space depth x,
      which is kept in the z slot. */
  function ViewToScreen(sc: Scene, v: Vec3f): (r: Vec3f)
    requires v.x != 0.0
    ensures r.z == v.x
  {
    Vec3f(v.y / v.x * sc.scale + sc.width as real / 2.0, -v.z / v.x * sc.scale + sc.height as real / 2.0, v.x)
  }

  /** The screen offset from the centre times the depth is the lateral
      (or vertical, flipped) camera coordinate times the scale. */
  lemma ViewToScreenSolves(sc: Scene, v: Vec3f)
    requires v.x != 0.0
    ensures (ViewToScreen(sc, v).x - sc.width as real / 2.0) * v.x == v.y * sc.scale
    ensures (ViewToScreen(sc, v).y - sc.height as real / 2.0) * v.x == -v.z * sc.scale
  {
    DivMul(v.y, v.x, sc.scale);
    DivMul(-v.z, v.x, sc.scale);
  }

  lemma DivMul(a: real, b: real, s: real)
    requires b != 0.0
    ensures a / b * s * b == a * s
  {
  }

  /** Points on one ray from the eye land on the same pixel position. */
  lemma ViewToScreenIsPerspective(sc: Scene, v: Vec3f, k: real)
    requires v.x != 0.0 && k != 0.0
    ensures ViewToScreen(sc, Scale(v, k)).x == ViewToScreen(sc, v).x
    ensures ViewToScreen(sc, Scale(v, k)).y == ViewToScreen(sc, v).y
  {
    var w := Scale(v, k);
    NonzeroProduct(v.x, k);
    Ratio(v.y, v.x, k);
    assert -w.z == (-v.z) * k;
    Ratio(-v.z, v.x, k);
  }

  lemma NonzeroProduct(a: real, b: real)
    requires a != 0.0 && b != 0.0
    ensures a * b != 0.0
  {
  }

  lemma Ratio(a: real, b: real, k: real)
    requires b != 0.0 && k != 0.0
    ensures (a * k) / (b * k) == a / b
  {
  }

  /** One vertex of `transform_to_screen`: project, then clamp x and y to
      the buffer. */
  function ScreenPos(sc: Scene, p: Vec3f): (r: Vec3f)
    requires p.x != 0.0
    ensures r.z == p.x
    ensures 0.0 <= r.x <= sc.width as real && 0.0 <= r.y <= sc.height as real
  {
    ClampXY(ViewToScreen(sc, p), 0.0, sc.width as real, 0.0, sc.height as real)
  }

  predicate NonzeroDepths(t: Tri) {
    t.a.pos.x != 0.0 && t.b.pos.x != 0.0 && t.c.pos.x != 0.0
  }

  /** `transform_to_screen`. */
  function TransformToScreen(sc: Scene, t: Tri): (r: Tri)
    requires NonzeroDepths(t)
    ensures r.a.texpos == t.a.texpos && r.b.texpos == t.b.texpos && r.c.texpos == t.c.texpos
    ensures r.a.color == t.a.color && r.b.color == t.b.color && r.c.color == t.c.color
  {
    Tri(t.a.(pos := ScreenPos(sc, t.a.pos)), t.b.(pos := ScreenPos(sc, t.b.pos)), t.c.(pos := ScreenPos(sc, t.c.pos)))
  }

  /** Some vertex is closer than the near plane in camera space, where
      depth is x. */
  predicate NearClipped(t: Tri) {
    t.a.pos.x < NEAR || t.b.pos.x < NEAR || t.c.pos.x < NEAR
  }

  /** `behind_view` after the screen transform tests the camera-space
      depths, which the transform keeps in z. */
  lemma BehindViewIsNearClip(sc: Scene, t: Tri)
    requires NonzeroDepths(t)
    ensures BehindView(TransformToScreen(sc, t)) <==> NearClipped(t)
  {
  }

  predicate OnScreen(sc: Scene, t: Tri) {
    0.0 <= t.a.pos.x <= sc.width as real && 0.0 <= t.a.pos.y <= sc.height as real
    && 0.0 <= t.b.pos.x <= sc.width as real && 0.0 <= t.b.pos.y <= sc.height as real
    && 0.0 <= t.c.pos.x <= sc.width as real && 0.0 <= t.c.pos.y <= sc.height as real
  }

  // ---------------------------------------------------------------- gating

  /** `initialize_triangle_render`. The lighting comes from the world-space
      normal; the triangle is rejected when its camera-space normal faces
      away (x above 0.20) or a vertex is nearer than the near plane;
      otherwise it is projected, clamped to the screen and sorted.

      A vertex at camera depth exactly 0 is rejected before the division:
      the source divides by it and then rejects the triangle because its z
      slot holds 0 < 0.1. */
  function InitializeTriangleRender(sc: Scene, t: Tri): Option<PolyData> {
    var worldNorm := RotZyx(GetNormal(t, sc.platform.sqrt), sc.meshRotation, sc.platform.sinCos);
    var lighting := Max(InnerProd(sc.lightingVec, worldNorm), MINIMUM_LIGHTING);
    var cam := TransformTri(sc, t);
    var norm := GetNormal(cam, sc.platform.sqrt);
    if norm.x > OVERDRAW_PERCENT then None
    else if NearClipped(cam) then None
    else Some(PolyData(SortVertsVertical(TransformToScreen(sc, cam)), norm, lighting))
  }

  /** A triangle is culled exactly when it faces away past the overdraw
      allowance or crosses the near plane; a kept triangle is the screen
      image of its camera-space vertices, sorted top to bottom, lit at least
      at the minimum, in front of the near plane and inside the buffer. */
  lemma InitializeTriangleRenderGates(sc: Scene, t: Tri)
    ensures var cam := TransformTri(sc, t);
      InitializeTriangleRender(sc, t).None? <==> GetNormal(cam, sc.platform.sqrt).x > OVERDRAW_PERCENT || NearClipped(cam)
    ensures var r := InitializeTriangleRender(sc, t);
      r.Some? ==>
      var cam := TransformTri(sc, t);
      NonzeroDepths(cam)
      && Verts(r.value.tri) == Verts(TransformToScreen(sc, cam))
      && SortedVertically(r.value.tri)
      && r.value.normal == GetNormal(cam, sc.platform.sqrt)
      && r.value.lighting >= MINIMUM_LIGHTING
      && !BehindView(r.value.tri) && OnScreen(sc, r.value.tri)
  {
    var cam := TransformTri(sc, t);
    if !(GetNormal(cam, sc.platform.sqrt).x > OVERDRAW_PERCENT || NearClipped(cam)) {
      var screen := TransformToScreen(sc, cam);
      BehindViewIsNearClip(sc, cam);
      BehindViewIsAboutVertices(screen);
      OnScreenIsAboutVertices(sc, screen);
    }
  }

  /** Being on screen is a property of the vertex set, so sorting keeps it. */
  lemma OnScreenIsAboutVertices(sc: Scene, t: Tri)
    requires OnScreen(sc, t)
    ensures OnScreen(sc, SortVertsVertical(t))
  {
    var s := SortVertsVertical(t);
    assert s.a in Verts(t) && s.b in Verts(t) && s.c in Verts(t);
  }

  // ---------------------------------------------------------------- pixels

  /** `x as usize` for an `i32`: two's-complement reinterpretation, so a
      negative coordinate becomes a huge index. */
  function AsUsize(x: int): nat {
    x % (USIZE_MAX + 1)
  }

  /** A negative `i32` coordinate is never in bounds after the cast. */
  lemma AsUsizeInBounds(x: int, bound: nat)
    requires I32_MIN <= x <= I32_MAX && bound <= MAX_PLANE_LEN
    ensures AsUsize(x) < bound <==> 0 <= x < bound
  {
    if x < 0 {
      assert AsUsize(x) == x + USIZE_MAX + 1;
    }
  }

  /** Each dimension is bounded by the pixel count when the other is not 0. */
  lemma DimsBound(f: Frame)
    requires f.Valid()
    ensures f.height >= 1 ==> f.width <= MAX_PLANE_LEN
    ensures f.width >= 1 ==> f.height <= MAX_PLANE_LEN
  {
    if f.height >= 1 {
      MulMono(1, f.height, f.width);
    }
    if f.width >= 1 {
      MulMono(1, f.width, f.height);
    }
  }

  /** An in-bounds pixel reached from `i32` coordinates has those very
      coordinates as its indices. */
  lemma CastInBounds(f: Frame, x: int, y: int)
    requires f.Valid() && I32_MIN <= x <= I32_MAX && I32_MIN <= y <= I32_MAX
    ensures f.InBounds(AsUsize(x), AsUsize(y)) <==> 0 <= x < f.width && 0 <= y < f.height
    ensures f.InBounds(AsUsize(x), AsUsize(y)) ==> AsUsize(x) == x && AsUsize(y) == y
  {
    DimsBound(f);
    if f.width >= 1 && f.height >= 1 {
      AsUsizeInBounds(x, f.width);
      AsUsizeInBounds(y, f.height);
    }
  }

  /** The colour of a pixel with barycentric weights `w`: the texture
      sample at the interpolated coordinates, or the interpolated vertex
      colours, then attenuated by the lighting. */
  function PixelColor(sc: Scene, poly: PolyData, w: Vec3f): Color
    requires SceneOk(sc)
  {
    var t := poly.tri;
    var base := match sc.texture {
      case Some(tex) => GetTexture(tex, InterpolateTexU(t, w), InterpolateTexV(t, w))
      case None => Color(InnerProd(RedOrdered(t), w), InnerProd(GreenOrdered(t), w), InnerProd(BlueOrdered(t), w))
    };
    Attenuate(base, poly.lighting)
  }

  /** The perspective-correct depth of a pixel. Its reciprocal sum can be 0
      only off the triangle; the source then gets an infinite depth, which
      the depth test always rejects, so the write is dropped. */
  function PixelDepth(poly: PolyData, w: Vec3f): Option<real> {
    var t := poly.tri;
    if t.a.pos.z == 0.0 || t.b.pos.z == 0.0 || t.c.pos.z == 0.0 then None
    else if InnerProd(ReciprocalDepths(t), w) == 0.0 then None
    else Some(InterpolateDepthNonlinear(t, w))
  }

  /** The depth-tested write of pixel (x, y). */
  function WritePixel(f: Frame, sc: Scene, poly: PolyData, bary: Barycentric, x: int, y: int): (r: Frame)
    requires f.Valid() && SceneOk(sc) && f.InBounds(AsUsize(x), AsUsize(y))
    ensures r.Valid() && r.width == f.width && r.height == f.height
    ensures forall i :: 0 <= i < |f.depth| && i != f.Idx(AsUsize(x), AsUsize(y)) ==>
      r.depth[i] == f.depth[i] && r.pixels[i] == f.pixels[i]
    ensures forall i :: 0 <= i < |f.depth| ==> r.depth[i] <= f.depth[i]
  {
    var w := GetCoords(bary, x, y);
    match PixelDepth(poly, w) {
      case None => f
      case Some(d) => f.Set(AsUsize(x), AsUsize(y), PixelColor(sc, poly, w), d)
    }
  }

  /** No stored depth moved farther from the camera: the depth test only
      ever lets a nearer fragment through. */
  predicate NoFarther(f: Frame, r: Frame) {
    |r.depth| == |f.depth| && forall i :: 0 <= i < |f.depth| ==> r.depth[i] <= f.depth[i]
  }

  /** Every storage index whose pixel or depth differs between f and r
      holds an image row between lo and hi (storage row q is image row
      height - 1 - q). */
  predicate RowsBetween(f: Frame, r: Frame, lo: int, hi: int) {
    |r.depth| == |f.depth| && |r.pixels| == |f.pixels|
    && forall i :: 0 <= i < |f.depth| && i < |f.pixels| && (r.pixels[i] != f.pixels[i] || r.depth[i] != f.depth[i]) ==>
         f.width > 0 && Between(f.height - 1 - i / f.width, lo, hi)
  }

  // ---------------------------------------------------------------- span fill

  /** `fill_edge_trace` from column x on: row y, columns x..=ex, stopping
      at the first column out of bounds. */
  function FillRow(f: Frame, sc: Scene, poly: PolyData, bary: Barycentric, y: int, x: int, ex: int): (r: Frame)
    requires f.Valid() && SceneOk(sc)
    ensures r.Valid() && r.width == f.width && r.height == f.height
    decreases ex - x + 1
  {
    if x > ex then f
    else if !f.InBounds(AsUsize(x), AsUsize(y)) then f
    else FillRow(WritePixel(f, sc, poly, bary, x, y), sc, poly, bary, y, x + 1, ex)
  }

  /** A span fill never moves a depth farther. */
  lemma {:induction false} FillRowNoFarther(f: Frame, sc: Scene, poly: PolyData, bary: Barycentric, y: int, x: int, ex: int)
    requires f.Valid() && SceneOk(sc)
    ensures NoFarther(f, FillRow(f, sc, poly, bary, y, x, ex))
    decreases ex - x + 1
  {
    if x <= ex && f.InBounds(AsUsize(x), AsUsize(y)) {
      var g := WritePixel(f, sc, poly, bary, x, y);
      FillRowNoFarther(g, sc, poly, bary, y, x + 1, ex);
    }
  }

  /** A span fill reaches every column it covers while the buffer lasts:
      when pixel (k, y) lies on the buffer, between the span's first column
      and its last, and has depth d, its stored depth ends at most d; and
      when nothing nearer than d was stored there, it ends painted: depth
      exactly d, in the fragment's colour. */
  lemma FillRowReaches(f: Frame, sc: Scene, poly: PolyData, bary: Barycentric, y: int, x: int, ex: int, k: int, d: real)
    requires f.Valid() && SceneOk(sc)
    requires 0 <= x <= k <= ex && k < f.width && 0 <= y < f.height
    requires PixelDepth(poly, GetCoords(bary, k, y)) == Some(d)
    ensures FillRow(f, sc, poly, bary, y, x, ex).depth[f.Idx(k, y)] <= d
    ensures f.depth[f.Idx(k, y)] >= d ==> Painted(FillRow(f, sc, poly, bary, y, x, ex), sc, poly, bary, k, y, d)
  {
    var g := FillRowSkip(f, sc, poly, bary, y, x, ex, k);
    SameShapeIdx(f, g, k, y);
    FillRowReachesFirst(g, sc, poly, bary, y, k, ex, d);
  }

  /** While the columns before k are on the buffer, the fill from column x
      is the fill from column k over the frame with x..k-1 written, which
      still holds pixel (k, y) as it was. */
  lemma {:induction false} FillRowSkip(f: Frame, sc: Scene, poly: PolyData, bary: Barycentric, y: int, x: int, ex: int, k: int)
    returns (g: Frame)
    requires f.Valid() && SceneOk(sc) && 0 <= x <= k <= ex && k < f.width && 0 <= y < f.height
    ensures g.Valid() && g.width == f.width && g.height == f.height
    ensures FillRow(f, sc, poly, bary, y, x, ex) == FillRow(g, sc, poly, bary, y, k, ex)
    ensures g.depth[f.Idx(k, y)] == f.depth[f.Idx(k, y)] && g.pixels[f.Idx(k, y)] == f.pixels[f.Idx(k, y)]
    decreases k - x
  {
    if x == k {
      g := f;
    } else {
      var h := FillRowTail(f, sc, poly, bary, y, x, ex);
      if f.Idx(x, y) == f.Idx(k, y) {
        IdxInjective(f, x, y, k, y);
      }
      SameShapeIdx(f, h, k, y);
      g := FillRowSkip(h, sc, poly, bary, y, x + 1, ex, k);
    }
  }

  /** Past an on-buffer first column the fill goes on from the frame with
      that column written, and nothing else changed. */
  lemma FillRowTail(f: Frame, sc: Scene, poly: PolyData, bary: Barycentric, y: int, x: int, ex: int) returns (g: Frame)
    requires f.Valid() && SceneOk(sc) && 0 <= x <= ex && x < f.width && 0 <= y < f.height
    ensures g.Valid() && g.width == f.width && g.height == f.height
    ensures FillRow(f, sc, poly, bary, y, x, ex) == FillRow(g, sc, poly, bary, y, x + 1, ex)
    ensures forall i :: 0 <= i < |f.depth| && i != f.Idx(x, y) ==> g.depth[i] == f.depth[i] && g.pixels[i] == f.pixels[i]
  {
    NaturalCast(f, x, y);
    FillRowStep(f, sc, poly, bary, y, x, ex);
    g := WritePixel(f, sc, poly, bary, x, y);
  }

  /** The first column of a span is written, and later columns never make
      it farther; if nothing nearer was stored, it ends painted. */
  lemma FillRowReachesFirst(f: Frame, sc: Scene, poly: PolyData, bary: Barycentric, y: int, x: int, ex: int, d: real)
    requires f.Valid() && SceneOk(sc)
    requires 0 <= x <= ex && x < f.width && 0 <= y < f.height
    requires PixelDepth(poly, GetCoords(bary, x, y)) == Some(d)
    ensures FillRow(f, sc, poly, bary, y, x, ex).depth[f.Idx(x, y)] <= d
    ensures f.depth[f.Idx(x, y)] >= d ==> Painted(FillRow(f, sc, poly, bary, y, x, ex), sc, poly, bary, x, y, d)
  {
    NaturalCast(f, x, y);
    FillRowStep(f, sc, poly, bary, y, x, ex);
    var g := WritePixel(f, sc, poly, bary, x, y);
    WritePixelReaches(f, sc, poly, bary, x, y, d);
    FillRowNoFarther(g, sc, poly, bary, y, x + 1, ex);
    assert f.Idx(x, y) < |g.depth|;
    DimsBound(f);
    SameShapeIdx(f, g, x, y);
    FillRowKeeps(g, sc, poly, bary, y, x + 1, ex, x, y, d);
  }

  /** Pixel (k, y) of the buffer holds the fragment of depth d exactly: that
      depth, and the colour of the triangle there. */
  predicate Painted(f: Frame, sc: Scene, poly: PolyData, bary: Barycentric, k: int, y: int, d: real)
    requires SceneOk(sc)
  {
    f.Valid() && 0 <= k < f.width && 0 <= y < f.height
    && f.depth[f.Idx(k, y)] == d
    && f.pixels[f.Idx(k, y)] == ToU32(PixelColor(sc, poly, GetCoords(bary, k, y)))
  }

  /** A cast coordinate from the `i32` range up to the plane size is in
      bounds only as itself. */
  lemma CastExact(f: Frame, x: int, y: int)
    requires f.Valid() && I32_MIN <= x <= MAX_PLANE_LEN && I32_MIN <= y <= MAX_PLANE_LEN
    ensures f.InBounds(AsUsize(x), AsUsize(y)) ==> AsUsize(x) == x && AsUsize(y) == y
  {
    DimsBound(f);
    if x < 0 {
      assert AsUsize(x) == x + USIZE_MAX + 1;
    }
    if y < 0 {
      assert AsUsize(y) == y + USIZE_MAX + 1;
    }
  }

  /** Writing any pixel of the same triangle keeps pixel (k, y) at depth d
      or more if it was, and keeps it painted if it was: a write there
      stores that very fragment again. */
  lemma WritePixelKeeps(f: Frame, sc: Scene, poly: PolyData, bary: Barycentric, wx: int, wy: int, k: int, y: int, d: real)
    requires f.Valid() && SceneOk(sc) && f.InBounds(AsUsize(wx), AsUsize(wy))
    requires I32_MIN <= wx <= MAX_PLANE_LEN && I32_MIN <= wy <= MAX_PLANE_LEN
    requires 0 <= k < f.width && 0 <= y < f.height && PixelDepth(poly, GetCoords(bary, k, y)) == Some(d)
    ensures var r := WritePixel(f, sc, poly, bary, wx, wy);
      && (f.depth[f.Idx(k, y)] >= d ==> r.depth[f.Idx(k, y)] >= d)
      && (Painted(f, sc, poly, bary, k, y, d) ==> Painted(r, sc, poly, bary, k, y, d))
  {
    CastExact(f, wx, wy);
    var r := WritePixel(f, sc, poly, bary, wx, wy);
    SameShapeIdx(f, r, k, y);
    if f.Idx(wx, wy) == f.Idx(k, y) {
      IdxInjective(f, wx, wy, k, y);
    }
  }

  /** A span fill of the same triangle, on any row, keeps pixel (k, y) at
      depth d or more, and painted, if it was. */
  lemma {:induction false} FillRowKeeps(f: Frame, sc: Scene, poly: PolyData, bary: Barycentric, wy: int, x: int, ex: int,
                                         k: int, y: int, d: real)
    requires f.Valid() && SceneOk(sc) && I32_MIN <= x <= MAX_PLANE_LEN && I32_MIN <= wy <= MAX_PLANE_LEN
    requires 0 <= k < f.width && 0 <= y < f.height && PixelDepth(poly, GetCoords(bary, k, y)) == Some(d)
    ensures var r := FillRow(f, sc, poly, bary, wy, x, ex);
      && (f.depth[f.Idx(k, y)] >= d ==> r.depth[f.Idx(k, y)] >= d)
      && (Painted(f, sc, poly, bary, k, y, d) ==> Painted(r, sc, poly, bary, k, y, d))
    decreases ex - x + 1
  {
    if x <= ex && f.InBounds(AsUsize(x), AsUsize(wy)) {
      CastExact(f, x, wy);
      DimsBound(f);
      var g := WritePixel(f, sc, poly, bary, x, wy);
      WritePixelKeeps(f, sc, poly, bary, x, wy, k, y, d);
      SameShapeIdx(f, g, k, y);
      FillRowStep(f, sc, poly, bary, wy, x, ex);
      FillRowKeeps(g, sc, poly, bary, wy, x + 1, ex, k, y, d);
    }
  }

  /** Two frames of the same shape store a pixel at the same index. */
  lemma SameShapeIdx(f: Frame, g: Frame, x: nat, y: nat)
    requires f.width == g.width && f.height == g.height && f.InBounds(x, y)
    ensures g.InBounds(x, y) && g.Idx(x, y) == f.Idx(x, y)
  {
  }

  /** One column of a span: write it, then fill the rest. */
  lemma FillRowStep(f: Frame, sc: Scene, poly: PolyData, bary: Barycentric, y: int, x: int, ex: int)
    requires f.Valid() && SceneOk(sc) && x <= ex && f.InBounds(AsUsize(x), AsUsize(y))
    ensures FillRow(f, sc, poly, bary, y, x, ex) == FillRow(WritePixel(f, sc, poly, bary, x, y), sc, poly, bary, y, x + 1, ex)
  {
  }

  /** An on-buffer coordinate pair casts to itself. */
  lemma NaturalCast(f: Frame, x: int, y: int)
    requires f.Valid() && 0 <= x < f.width && 0 <= y < f.height
    ensures AsUsize(x) == x && AsUsize(y) == y && f.InBounds(AsUsize(x), AsUsize(y))
  {
    DimsBound(f);
  }

  /** A depth-tested write of a pixel with depth d leaves at most d there. */
  lemma WritePixelReaches(f: Frame, sc: Scene, poly: PolyData, bary: Barycentric, x: nat, y: nat, d: real)
    requires f.Valid() && SceneOk(sc) && f.InBounds(x, y) && AsUsize(x) == x && AsUsize(y) == y
    requires PixelDepth(poly, GetCoords(bary, x, y)) == Some(d)
    ensures WritePixel(f, sc, poly, bary, x, y).depth[f.Idx(x, y)] <= d
  {
  }

  /** The span fill touches only row y, columns sx..ex; a span starting
      off the buffer touches nothing. */
  lemma FillRowFrame(f: Frame, sc: Scene, poly: PolyData, bary: Barycentric, y: int, sx: int, ex: int)
    requires f.Valid() && SceneOk(sc)
    requires I32_MIN <= sx && ex <= I32_MAX && I32_MIN <= y <= I32_MAX
    ensures var r := FillRow(f, sc, poly, bary, y, sx, ex);
      forall i :: 0 <= i < |f.depth| && (y < 0 || y >= f.height || i / f.width != f.HeightInversion(y) || i % f.width < sx || i % f.width > ex)
        ==> r.pixels[i] == f.pixels[i] && r.depth[i] == f.depth[i]
    ensures !(0 <= sx < f.width && 0 <= y < f.height) ==> FillRow(f, sc, poly, bary, y, sx, ex) == f
  {
    var r := FillRow(f, sc, poly, bary, y, sx, ex);
    forall i | 0 <= i < |f.depth| && (y < 0 || y >= f.height || i / f.width != f.HeightInversion(y) || i % f.width < sx || i % f.width > ex)
      ensures r.pixels[i] == f.pixels[i] && r.depth[i] == f.depth[i]
    {
      FillRowFrameAt(f, sc, poly, bary, y, sx, ex, i);
    }
    if sx <= ex {
      CastInBounds(f, sx, y);
    }
  }

  /** One storage index off the span keeps its pixel and depth. */
  lemma {:induction false} FillRowFrameAt(f: Frame, sc: Scene, poly: PolyData, bary: Barycentric, y: int, sx: int, ex: int, i: nat)
    requires f.Valid() && SceneOk(sc)
    requires I32_MIN <= sx && ex <= I32_MAX && I32_MIN <= y <= I32_MAX
    requires i < |f.depth|
    requires y < 0 || y >= f.height || i / f.width != f.HeightInversion(y) || i % f.width < sx || i % f.width > ex
    ensures FillRow(f, sc, poly, bary, y, sx, ex).pixels[i] == f.pixels[i]
    ensures FillRow(f, sc, poly, bary, y, sx, ex).depth[i] == f.depth[i]
    decreases ex - sx + 1
  {
    if sx <= ex && f.InBounds(AsUsize(sx), AsUsize(y)) {
      CastInBounds(f, sx, y);
      var g := WritePixel(f, sc, poly, bary, sx, y);
      assert FillRow(f, sc, poly, bary, y, sx, ex) == FillRow(g, sc, poly, bary, y, sx + 1, ex);
      var j := f.Idx(sx, y);
      IdxDivMod(f, sx, y);
      assert i != j;
      assert g.pixels[i] == f.pixels[i] && g.depth[i] == f.depth[i];
      FillRowFrameAt(g, sc, poly, bary, y, sx + 1, ex, i);
    }
  }

  // ---------------------------------------------------------------- trace and fill

  /** The loop of `trace_and_fill`: both tracers advance a row each time
      (both are stepped even when the first has finished); while both give
      a point, the span between them is filled on the first one's row. */
  function TraceFillLoop(f: Frame, sc: Scene, poly: PolyData, bary: Barycentric, s1: TracerState, s2: TracerState): (r: Frame)
    requires f.Valid() && SceneOk(sc) && Inv(s1) && Inv(s2)
    ensures r.Valid() && r.width == f.width && r.height == f.height
    decreases Distance(s1)
  {
    var r1, r2 := StepConstant(s1), StepConstant(s2);
    if r1.point.Some? && r2.point.Some? then
      var p1, p2 := r1.point.value, r2.point.value;
      TraceFillLoop(FillRow(f, sc, poly, bary, p1.y, p1.x, p2.x), sc, poly, bary, r1.next, r2.next)
    else f
  }

  /** One row of `TraceFillLoop`, unfolded for the loop that computes it. */
  lemma TraceFillStep(f: Frame, sc: Scene, poly: PolyData, bary: Barycentric, s1: TracerState, s2: TracerState)
    requires f.Valid() && SceneOk(sc) && Inv(s1) && Inv(s2)
    ensures var r1, r2 := StepConstant(s1), StepConstant(s2);
      && (r1.point.None? || r2.point.None? ==> TraceFillLoop(f, sc, poly, bary, s1, s2) == f)
      && (r1.point.Some? && r2.point.Some? ==>
            Inv(r1.next) && Inv(r2.next)
            && TraceFillLoop(f, sc, poly, bary, s1, s2)
               == TraceFillLoop(FillRow(f, sc, poly, bary, r1.point.value.y, r1.point.value.x, r2.point.value.x),
                                sc, poly, bary, r1.next, r2.next))
  {
  }

  /** The whole row-by-row fill never moves a depth farther. */
  lemma {:induction false} TraceFillLoopNoFarther(f: Frame, sc: Scene, poly: PolyData, bary: Barycentric, s1: TracerState, s2: TracerState)
    requires f.Valid() && SceneOk(sc) && Inv(s1) && Inv(s2)
    ensures NoFarther(f, TraceFillLoop(f, sc, poly, bary, s1, s2))
    decreases Distance(s1)
  {
    var r1, r2 := StepConstant(s1), StepConstant(s2);
    if r1.point.Some? && r2.point.Some? {
      var p1, p2 := r1.point.value, r2.point.value;
      var g := FillRow(f, sc, poly, bary, p1.y, p1.x, p2.x);
      FillRowNoFarther(f, sc, poly, bary, p1.y, p1.x, p2.x);
      TraceFillLoopNoFarther(g, sc, poly, bary, r1.next, r2.next);
    }
  }

  /** The row-by-row fill changes only rows between the first tracer's
      current row and its target row. */
  lemma {:induction false} TraceFillLoopRows(f: Frame, sc: Scene, poly: PolyData, bary: Barycentric, s1: TracerState, s2: TracerState)
    requires f.Valid() && SceneOk(sc) && Inv(s1) && Inv(s2) && Bounded(s1) && Bounded(s2)
    ensures RowsBetween(f, TraceFillLoop(f, sc, poly, bary, s1, s2), s1.current.y, s1.target.y)
    decreases Distance(s1)
  {
    var r1, r2 := StepConstant(s1), StepConstant(s2);
    if r1.point.Some? && r2.point.Some? {
      var p1, p2 := r1.point.value, r2.point.value;
      CurrentInRange(r1.next);
      CurrentInRange(r2.next);
      StepConstantStaysBetween(s1);
      var g := FillRow(f, sc, poly, bary, p1.y, p1.x, p2.x);
      FillRowRows(f, sc, poly, bary, p1.y, p1.x, p2.x);
      TraceFillLoopRows(g, sc, poly, bary, r1.next, r2.next);
      assert TraceFillLoop(f, sc, poly, bary, s1, s2) == TraceFillLoop(g, sc, poly, bary, r1.next, r2.next);
      RowsBetweenTrans(f, g, TraceFillLoop(g, sc, poly, bary, r1.next, r2.next), p1.y, p1.y, p1.y, s1.target.y, s1.current.y, s1.target.y);
    }
  }

  /** `trace_and_fill`: walk edge e1 and edge e2 row by row and fill
      between them. A triangle with zero screen area has no barycentric
      system and is skipped. */
  function TraceAndFill(f: Frame, sc: Scene, poly: PolyData, e1s: Vec3f, e1e: Vec3f, e2s: Vec3f, e2e: Vec3f): (r: Frame)
    requires f.Valid() && SceneOk(sc)
    ensures r.Valid() && r.width == f.width && r.height == f.height
    ensures NoFarther(f, r)
    ensures RowsBetween(f, r, CeilToI32(e1s.y), CeilToI32(e1e.y))
    ensures Den(poly.tri) == 0.0 ==> r == f
  {
    if Den(poly.tri) == 0.0 then f
    else
      InitInv(e1s, e1e);
      InitInv(e2s, e2e);
      InitBounded(e1s, e1e);
      InitBounded(e2s, e2e);
      var bary := BarycentricCons(poly.tri);
      TraceFillLoopNoFarther(f, sc, poly, bary, Init(e1s, e1e), Init(e2s, e2e));
      TraceFillLoopRows(f, sc, poly, bary, Init(e1s, e1e), Init(e2s, e2e));
      TraceFillLoop(f, sc, poly, bary, Init(e1s, e1e), Init(e2s, e2e))
  }

  /** `render_triangle`: gate, then fill the two halves split at the middle
      vertex, choosing the edge pairing by which side b lies on. */
  function RenderTriangle(f: Frame, sc: Scene, t: Tri): (r: Frame)
    requires f.Valid() && SceneOk(sc)
    ensures r.Valid() && r.width == f.width && r.height == f.height
    ensures InitializeTriangleRender(sc, t).None? ==> r == f
  {
    match InitializeTriangleRender(sc, t) {
      case None => f
      case Some(poly) =>
        var a, b, c := poly.tri.a.pos, poly.tri.b.pos, poly.tri.c.pos;
        if LumpedLeft(poly.tri) then
          TraceAndFill(TraceAndFill(f, sc, poly, a, c, a, b), sc, poly, c, a, c, b)
        else
          TraceAndFill(TraceAndFill(f, sc, poly, a, b, a, c), sc, poly, c, b, c, a)
    }
  }

  /** Rendering a triangle never moves a depth farther. */
  lemma RenderTriangleNoFarther(f: Frame, sc: Scene, t: Tri)
    requires f.Valid() && SceneOk(sc)
    ensures NoFarther(f, RenderTriangle(f, sc, t))
  {
    match InitializeTriangleRender(sc, t) {
      case None =>
      case Some(poly) =>
        var a, b, c := poly.tri.a.pos, poly.tri.b.pos, poly.tri.c.pos;
        var g := if LumpedLeft(poly.tri) then TraceAndFill(f, sc, poly, a, c, a, b) else TraceAndFill(f, sc, poly, a, b, a, c);
        assert NoFarther(f, g);
    }
  }

  /** Rendering a triangle changes only the rows of its vertical extent on
      screen, from the rounded-up row of its lowest vertex to that of its
      highest. */
  lemma RenderTriangleRows(f: Frame, sc: Scene, t: Tri)
    requires f.Valid() && SceneOk(sc)
    ensures InitializeTriangleRender(sc, t).Some? ==>
      var tri := InitializeTriangleRender(sc, t).value.tri;
      RowsBetween(f, RenderTriangle(f, sc, t), CeilToI32(tri.c.pos.y), CeilToI32(tri.a.pos.y))
  {
    match InitializeTriangleRender(sc, t) {
      case None =>
      case Some(poly) =>
        var a, b, c := poly.tri.a.pos, poly.tri.b.pos, poly.tri.c.pos;
        var ya, yb, yc := CeilToI32(a.y), CeilToI32(b.y), CeilToI32(c.y);
        CeilMono(b.y, a.y);
        CeilMono(c.y, b.y);
        if LumpedLeft(poly.tri) {
          var g := TraceAndFill(f, sc, poly, a, c, a, b);
          RowsBetweenTrans(f, g, TraceAndFill(g, sc, poly, c, a, c, b), ya, yc, yc, ya, yc, ya);
        } else {
          var g := TraceAndFill(f, sc, poly, a, b, a, c);
          RowsBetweenTrans(f, g, TraceAndFill(g, sc, poly, c, b, c, a), ya, yb, yc, yb, yc, ya);
        }
    }
  }

  // ---------------------------------------------------------------- what a fill covers

  /** One row of a fill: row y, columns x1 to x2. */
  datatype Span = Span(y: int, x1: int, x2: int)

  /** The spans `TraceFillLoop` fills, in order: the rows the two tracers
      reach together in lockstep, each from the first tracer's column to
      the second's. */
  function Spans(s1: TracerState, s2: TracerState): (sp: seq<Span>)
    requires Inv(s1) && Inv(s2)
    ensures |sp| <= Distance(s1)
    decreases Distance(s1)
  {
    var r1, r2 := StepConstant(s1), StepConstant(s2);
    if r1.point.Some? && r2.point.Some? then
      var p1, p2 := r1.point.value, r2.point.value;
      [Span(p1.y, p1.x, p2.x)] + Spans(r1.next, r2.next)
    else []
  }

  /** The spans `trace_and_fill` fills for edges e1 and e2. */
  function EdgeSpans(e1s: Vec3f, e1e: Vec3f, e2s: Vec3f, e2e: Vec3f): seq<Span> {
    InitInv(e1s, e1e);
    InitInv(e2s, e2e);
    Spans(Init(e1s, e1e), Init(e2s, e2e))
  }

  /** The spans of both halves of a triangle, in the order `render_triangle`
      fills them. */
  function TriangleSpans(poly: PolyData): seq<Span> {
    var a, b, c := poly.tri.a.pos, poly.tri.b.pos, poly.tri.c.pos;
    if LumpedLeft(poly.tri) then EdgeSpans(a, c, a, b) + EdgeSpans(c, a, c, b)
    else EdgeSpans(a, b, a, c) + EdgeSpans(c, b, c, a)
  }

  /** Column k of span sp lies on the buffer, with every column from the
      span's first to k, and the triangle has depth d there. */
  predicate Covers(f: Frame, poly: PolyData, bary: Barycentric, sp: Span, k: int, d: real) {
    0 <= sp.x1 <= k <= sp.x2 && k < f.width && 0 <= sp.y < f.height
    && PixelDepth(poly, GetCoords(bary, k, sp.y)) == Some(d)
  }

  /** The first span, then the spans from the states after it. */
  lemma SpansStep(s1: TracerState, s2: TracerState)
    requires Inv(s1) && Inv(s2) && |Spans(s1, s2)| > 0
    ensures var r1, r2 := StepConstant(s1), StepConstant(s2);
      && r1.point.Some? && r2.point.Some? && Inv(r1.next) && Inv(r2.next)
      && Spans(s1, s2) == [Span(r1.point.value.y, r1.point.value.x, r2.point.value.x)] + Spans(r1.next, r2.next)
  {
  }

  /** The row-by-row fill reaches every column of every span it walks: a
      covered pixel with depth d ends with a stored depth of at most d.
      When both edges stay within `i32` and nothing nearer than d was
      stored there, the pixel ends painted with that fragment. */
  lemma {:induction false} TraceFillLoopReaches(f: Frame, sc: Scene, poly: PolyData, bary: Barycentric,
                                                  s1: TracerState, s2: TracerState, j: nat, k: int, d: real)
    requires f.Valid() && SceneOk(sc) && Inv(s1) && Inv(s2)
    requires j < |Spans(s1, s2)| && Covers(f, poly, bary, Spans(s1, s2)[j], k, d)
    ensures TraceFillLoop(f, sc, poly, bary, s1, s2).depth[f.Idx(k, Spans(s1, s2)[j].y)] <= d
    ensures Bounded(s1) && Bounded(s2) && f.depth[f.Idx(k, Spans(s1, s2)[j].y)] >= d ==>
      Painted(TraceFillLoop(f, sc, poly, bary, s1, s2), sc, poly, bary, k, Spans(s1, s2)[j].y, d)
    decreases Distance(s1)
  {
    SpansStep(s1, s2);
    var r1, r2 := StepConstant(s1), StepConstant(s2);
    if j == 0 {
      TraceFillLoopReachesFirst(f, sc, poly, bary, s1, s2, k, d);
    } else {
      var sp := Spans(r1.next, r2.next)[j - 1];
      var g := TraceFillTail(f, sc, poly, bary, s1, s2);
      SameShapeIdx(f, g, k, sp.y);
      TraceFillLoopReaches(g, sc, poly, bary, r1.next, r2.next, j - 1, k, d);
      if Bounded(s1) && Bounded(s2) && f.depth[f.Idx(k, sp.y)] >= d {
        TraceFillLoopPaints(f, sc, poly, bary, s1, s2, j, k, d);
      }
    }
  }

  /** Along confined walks, a covered pixel where nothing nearer than d was
      stored ends painted with that fragment. */
  lemma {:induction false} TraceFillLoopPaints(f: Frame, sc: Scene, poly: PolyData, bary: Barycentric,
                                                 s1: TracerState, s2: TracerState, j: nat, k: int, d: real)
    requires f.Valid() && SceneOk(sc) && Inv(s1) && Inv(s2) && Bounded(s1) && Bounded(s2)
    requires j < |Spans(s1, s2)| && Covers(f, poly, bary, Spans(s1, s2)[j], k, d)
    requires f.depth[f.Idx(k, Spans(s1, s2)[j].y)] >= d
    ensures Painted(TraceFillLoop(f, sc, poly, bary, s1, s2), sc, poly, bary, k, Spans(s1, s2)[j].y, d)
    decreases Distance(s1)
  {
    SpansStep(s1, s2);
    var r1, r2 := StepConstant(s1), StepConstant(s2);
    if j == 0 {
      TraceFillLoopReachesFirst(f, sc, poly, bary, s1, s2, k, d);
    } else {
      var sp := Spans(r1.next, r2.next)[j - 1];
      var g := TraceFillTailKeeps(f, sc, poly, bary, s1, s2, k, sp.y, d);
      TraceFillLoopPaints(g, sc, poly, bary, r1.next, r2.next, j - 1, k, d);
    }
  }

  /** Past a first span the fill goes on from a frame of the same shape
      which, when both walks are confined, still holds pixel (k, y) at
      depth d or more if f did. */
  lemma TraceFillTailKeeps(f: Frame, sc: Scene, poly: PolyData, bary: Barycentric, s1: TracerState, s2: TracerState,
                           k: int, y: int, d: real) returns (g: Frame)
    requires f.Valid() && SceneOk(sc) && Inv(s1) && Inv(s2)
    requires StepConstant(s1).point.Some? && StepConstant(s2).point.Some?
    requires 0 <= k < f.width && 0 <= y < f.height && PixelDepth(poly, GetCoords(bary, k, y)) == Some(d)
    ensures Inv(StepConstant(s1).next) && Inv(StepConstant(s2).next)
    ensures g.Valid() && g.width == f.width && g.height == f.height && g.Idx(k, y) == f.Idx(k, y)
    ensures TraceFillLoop(f, sc, poly, bary, s1, s2) == TraceFillLoop(g, sc, poly, bary, StepConstant(s1).next, StepConstant(s2).next)
    ensures Bounded(s1) && Bounded(s2) ==> Bounded(StepConstant(s1).next) && Bounded(StepConstant(s2).next)
    ensures Bounded(s1) && Bounded(s2) && f.depth[f.Idx(k, y)] >= d ==> g.depth[f.Idx(k, y)] >= d
  {
    var r1, r2 := StepConstant(s1), StepConstant(s2);
    g := TraceFillTail(f, sc, poly, bary, s1, s2);
    SameShapeIdx(f, g, k, y);
    if Bounded(s1) && Bounded(s2) {
      FirstRowInRange(s1, s2);
      FillRowKeeps(f, sc, poly, bary, r1.point.value.y, r1.point.value.x, r2.point.value.x, k, y, d);
    }
  }

  /** The first row a pair of confined walks fills lies within `i32`, and
      the walks stay confined. */
  lemma FirstRowInRange(s1: TracerState, s2: TracerState)
    requires Inv(s1) && Inv(s2) && Bounded(s1) && Bounded(s2)
    requires StepConstant(s1).point.Some? && StepConstant(s2).point.Some?
    ensures Bounded(StepConstant(s1).next) && Bounded(StepConstant(s2).next)
    ensures InI32(StepConstant(s1).point.value) && InI32(StepConstant(s2).point.value)
  {
    CurrentInRange(StepConstant(s1).next);
    CurrentInRange(StepConstant(s2).next);
  }

  /** A row-by-row fill of the same triangle keeps pixel (k, y) at depth d
      or more, and painted, if it was. */
  lemma {:induction false} TraceFillLoopKeeps(f: Frame, sc: Scene, poly: PolyData, bary: Barycentric,
                                                s1: TracerState, s2: TracerState, k: int, y: int, d: real)
    requires f.Valid() && SceneOk(sc) && Inv(s1) && Inv(s2) && Bounded(s1) && Bounded(s2)
    requires 0 <= k < f.width && 0 <= y < f.height && PixelDepth(poly, GetCoords(bary, k, y)) == Some(d)
    ensures var r := TraceFillLoop(f, sc, poly, bary, s1, s2);
      && (f.depth[f.Idx(k, y)] >= d ==> r.depth[f.Idx(k, y)] >= d)
      && (Painted(f, sc, poly, bary, k, y, d) ==> Painted(r, sc, poly, bary, k, y, d))
    decreases Distance(s1)
  {
    TraceFillStep(f, sc, poly, bary, s1, s2);
    var r1, r2 := StepConstant(s1), StepConstant(s2);
    if r1.point.Some? && r2.point.Some? {
      FirstRowInRange(s1, s2);
      var g := TraceFillTail(f, sc, poly, bary, s1, s2);
      FillRowKeeps(f, sc, poly, bary, r1.point.value.y, r1.point.value.x, r2.point.value.x, k, y, d);
      SameShapeIdx(f, g, k, y);
      TraceFillLoopKeeps(g, sc, poly, bary, r1.next, r2.next, k, y, d);
    }
  }

  /** Past a first span the fill goes on from the frame with that span
      filled. */
  lemma TraceFillTail(f: Frame, sc: Scene, poly: PolyData, bary: Barycentric, s1: TracerState, s2: TracerState) returns (g: Frame)
    requires f.Valid() && SceneOk(sc) && Inv(s1) && Inv(s2)
    requires StepConstant(s1).point.Some? && StepConstant(s2).point.Some?
    ensures Inv(StepConstant(s1).next) && Inv(StepConstant(s2).next)
    ensures g.Valid() && g.width == f.width && g.height == f.height
    ensures TraceFillLoop(f, sc, poly, bary, s1, s2) == TraceFillLoop(g, sc, poly, bary, StepConstant(s1).next, StepConstant(s2).next)
    ensures g == FillRow(f, sc, poly, bary, StepConstant(s1).point.value.y, StepConstant(s1).point.value.x,
                         StepConstant(s2).point.value.x)
  {
    var r1, r2 := StepConstant(s1), StepConstant(s2);
    TraceFillStep(f, sc, poly, bary, s1, s2);
    g := FillRow(f, sc, poly, bary, r1.point.value.y, r1.point.value.x, r2.point.value.x);
  }

  /** The first span is filled, and the later rows never make it farther. */
  lemma TraceFillLoopReachesFirst(f: Frame, sc: Scene, poly: PolyData, bary: Barycentric,
                                  s1: TracerState, s2: TracerState, k: int, d: real)
    requires f.Valid() && SceneOk(sc) && Inv(s1) && Inv(s2)
    requires StepConstant(s1).point.Some? && StepConstant(s2).point.Some?
    requires var p1, p2 := StepConstant(s1).point.value, StepConstant(s2).point.value;
      Covers(f, poly, bary, Span(p1.y, p1.x, p2.x), k, d)
    ensures TraceFillLoop(f, sc, poly, bary, s1, s2).depth[f.Idx(k, StepConstant(s1).point.value.y)] <= d
    ensures Bounded(s1) && Bounded(s2) && f.depth[f.Idx(k, StepConstant(s1).point.value.y)] >= d ==>
      Painted(TraceFillLoop(f, sc, poly, bary, s1, s2), sc, poly, bary, k, StepConstant(s1).point.value.y, d)
  {
    var r1, r2 := StepConstant(s1), StepConstant(s2);
    var p1, p2 := r1.point.value, r2.point.value;
    var g := FillRow(f, sc, poly, bary, p1.y, p1.x, p2.x);
    TraceFillStep(f, sc, poly, bary, s1, s2);
    FillRowReaches(f, sc, poly, bary, p1.y, p1.x, p2.x, k, d);
    SameShapeIdx(f, g, k, p1.y);
    TraceFillLoopNoFarther(g, sc, poly, bary, r1.next, r2.next);
    if Bounded(s1) && Bounded(s2) && f.depth[f.Idx(k, p1.y)] >= d {
      FirstRowInRange(s1, s2);
      TraceFillLoopKeeps(g, sc, poly, bary, r1.next, r2.next, k, p1.y, d);
    }
  }

  /** `trace_and_fill` on a triangle with non-zero screen area reaches every
      covered pixel of the spans between its two edges, and paints it with
      its fragment when nothing nearer was stored there. */
  lemma TraceAndFillReaches(f: Frame, sc: Scene, poly: PolyData, e1s: Vec3f, e1e: Vec3f, e2s: Vec3f, e2e: Vec3f,
                            j: nat, k: int, d: real)
    requires f.Valid() && SceneOk(sc) && Den(poly.tri) != 0.0
    requires j < |EdgeSpans(e1s, e1e, e2s, e2e)|
    requires Covers(f, poly, BarycentricCons(poly.tri), EdgeSpans(e1s, e1e, e2s, e2e)[j], k, d)
    ensures TraceAndFill(f, sc, poly, e1s, e1e, e2s, e2e).depth[f.Idx(k, EdgeSpans(e1s, e1e, e2s, e2e)[j].y)] <= d
    ensures f.depth[f.Idx(k, EdgeSpans(e1s, e1e, e2s, e2e)[j].y)] >= d ==>
      Painted(TraceAndFill(f, sc, poly, e1s, e1e, e2s, e2e), sc, poly, BarycentricCons(poly.tri), k,
              EdgeSpans(e1s, e1e, e2s, e2e)[j].y, d)
  {
    InitInv(e1s, e1e);
    InitInv(e2s, e2e);
    InitBounded(e1s, e1e);
    InitBounded(e2s, e2e);
    TraceFillLoopReaches(f, sc, poly, BarycentricCons(poly.tri), Init(e1s, e1e), Init(e2s, e2e), j, k, d);
  }

  /** `trace_and_fill` of the same triangle between any two edges keeps
      pixel (k, y) at depth d or more, and painted, if it was. */
  lemma TraceAndFillKeeps(f: Frame, sc: Scene, poly: PolyData, e1s: Vec3f, e1e: Vec3f, e2s: Vec3f, e2e: Vec3f,
                          k: int, y: int, d: real)
    requires f.Valid() && SceneOk(sc) && Den(poly.tri) != 0.0
    requires 0 <= k < f.width && 0 <= y < f.height
    requires PixelDepth(poly, GetCoords(BarycentricCons(poly.tri), k, y)) == Some(d)
    ensures var r := TraceAndFill(f, sc, poly, e1s, e1e, e2s, e2e);
      && (f.depth[f.Idx(k, y)] >= d ==> r.depth[f.Idx(k, y)] >= d)
      && (Painted(f, sc, poly, BarycentricCons(poly.tri), k, y, d) ==> Painted(r, sc, poly, BarycentricCons(poly.tri), k, y, d))
  {
    InitInv(e1s, e1e);
    InitInv(e2s, e2e);
    InitBounded(e1s, e1e);
    InitBounded(e2s, e2e);
    TraceFillLoopKeeps(f, sc, poly, BarycentricCons(poly.tri), Init(e1s, e1e), Init(e2s, e2e), k, y, d);
  }

  /** Two fills in a row reach every covered pixel of both span lists, and
      paint it with its fragment when nothing nearer was stored there: a
      pixel both fills cover is written twice with the same fragment. */
  lemma TwoFillsReach(f: Frame, sc: Scene, poly: PolyData, e1s: Vec3f, e1e: Vec3f, e2s: Vec3f, e2e: Vec3f,
                      e3s: Vec3f, e3e: Vec3f, e4s: Vec3f, e4e: Vec3f, j: nat, k: int, d: real)
    requires f.Valid() && SceneOk(sc) && Den(poly.tri) != 0.0
    requires var sps := EdgeSpans(e1s, e1e, e2s, e2e) + EdgeSpans(e3s, e3e, e4s, e4e);
      j < |sps| && Covers(f, poly, BarycentricCons(poly.tri), sps[j], k, d)
    ensures var sps := EdgeSpans(e1s, e1e, e2s, e2e) + EdgeSpans(e3s, e3e, e4s, e4e);
      TraceAndFill(TraceAndFill(f, sc, poly, e1s, e1e, e2s, e2e), sc, poly, e3s, e3e, e4s, e4e).depth[f.Idx(k, sps[j].y)] <= d
    ensures var sps := EdgeSpans(e1s, e1e, e2s, e2e) + EdgeSpans(e3s, e3e, e4s, e4e);
      f.depth[f.Idx(k, sps[j].y)] >= d ==>
      Painted(TraceAndFill(TraceAndFill(f, sc, poly, e1s, e1e, e2s, e2e), sc, poly, e3s, e3e, e4s, e4e),
              sc, poly, BarycentricCons(poly.tri), k, sps[j].y, d)
  {
    var first, second := EdgeSpans(e1s, e1e, e2s, e2e), EdgeSpans(e3s, e3e, e4s, e4e);
    var sp: Span := (first + second)[j];
    var g := TraceAndFill(f, sc, poly, e1s, e1e, e2s, e2e);
    SameShapeIdx(f, g, k, sp.y);
    if j < |first| {
      assert sp == first[j];
      TraceAndFillReaches(f, sc, poly, e1s, e1e, e2s, e2e, j, k, d);
      assert NoFarther(g, TraceAndFill(g, sc, poly, e3s, e3e, e4s, e4e));
      TraceAndFillKeeps(g, sc, poly, e3s, e3e, e4s, e4e, k, sp.y, d);
    } else {
      assert sp == second[j - |first|];
      TraceAndFillKeeps(f, sc, poly, e1s, e1e, e2s, e2e, k, sp.y, d);
      TraceAndFillReaches(g, sc, poly, e3s, e3e, e4s, e4e, j - |first|, k, d);
    }
  }

  /** A kept triangle is filled as its two halves. */
  lemma RenderTriangleHalves(f: Frame, sc: Scene, t: Tri, poly: PolyData)
    requires f.Valid() && SceneOk(sc) && InitializeTriangleRender(sc, t) == Some(poly)
    ensures var a, b, c := poly.tri.a.pos, poly.tri.b.pos, poly.tri.c.pos;
      RenderTriangle(f, sc, t)
      == if LumpedLeft(poly.tri) then TraceAndFill(TraceAndFill(f, sc, poly, a, c, a, b), sc, poly, c, a, c, b)
         else TraceAndFill(TraceAndFill(f, sc, poly, a, b, a, c), sc, poly, c, b, c, a)
  {
  }

  /** Triangle t is kept as poly with non-zero screen area, and column k
      of its span j is covered on f with depth d. */
  predicate Fragment(f: Frame, sc: Scene, t: Tri, poly: PolyData, j: nat, k: int, d: real) {
    InitializeTriangleRender(sc, t) == Some(poly) && Den(poly.tri) != 0.0
    && j < |TriangleSpans(poly)| && Covers(f, poly, BarycentricCons(poly.tri), TriangleSpans(poly)[j], k, d)
  }

  /** `render_triangle` on a kept triangle with non-zero screen area reaches
      every covered pixel of both halves: the second half never makes the
      first half's depths farther. A covered pixel where nothing nearer
      than its fragment was stored ends painted with that fragment. */
  lemma RenderTriangleReaches(f: Frame, sc: Scene, t: Tri, poly: PolyData, j: nat, k: int, d: real)
    requires f.Valid() && SceneOk(sc) && Fragment(f, sc, t, poly, j, k, d)
    ensures RenderTriangle(f, sc, t).depth[f.Idx(k, TriangleSpans(poly)[j].y)] <= d
    ensures f.depth[f.Idx(k, TriangleSpans(poly)[j].y)] >= d ==>
      Painted(RenderTriangle(f, sc, t), sc, poly, BarycentricCons(poly.tri), k, TriangleSpans(poly)[j].y, d)
  {
    var a, b, c := poly.tri.a.pos, poly.tri.b.pos, poly.tri.c.pos;
    RenderTriangleHalves(f, sc, t, poly);
    if LumpedLeft(poly.tri) {
      TwoFillsReach(f, sc, poly, a, c, a, b, c, a, c, b, j, k, d);
    } else {
      TwoFillsReach(f, sc, poly, a, b, a, c, c, b, c, a, j, k, d);
    }
  }

  // ---------------------------------------------------------------- zero-area triangles

  /** With no rotations, the camera and the mesh centre at the origin, and
      sin 0 = 0 and cos 0 = 1, the camera transform leaves points alone. */
  lemma CameraSpaceIdentity(sc: Scene, p: Vec3f)
    requires sc.platform.sinCos(0.0) == Trig(0.0, 1.0)
    requires sc.meshRotation == Zero && sc.cameraRotation == Zero
    requires sc.cameraPosition == Zero && sc.meshCenter == Zero
    ensures CameraSpace(sc, p) == p
  {
  }

  /** An untextured 10 x 10 view at scale 1 through the identity camera. */
  function SliverScene(p: Platform): Scene {
    Scene(Zero, Zero, None, Zero, Zero, Zero, 1.0, 10, 10, p)
  }

  /** A sliver one unit ahead of the camera and at least seven units to its
      left: b is a unit below a in y, c a unit above a in z. */
  predicate IsSliver(t: Tri) {
    t.a.pos.x == 1.0 && t.a.pos.y <= -7.0 && t.a.pos.z == 0.0
    && t.b.pos == Vec3f(t.a.pos.x, t.a.pos.y - 1.0, t.a.pos.z)
    && t.c.pos == Vec3f(t.a.pos.x, t.a.pos.y, t.a.pos.z + 1.0)
  }

  /** One such sliver, with vertices (1, -100, 0), (1, -101, 0) and
      (1, -100, 1). */
  function Sliver(): (t: Tri)
    ensures IsSliver(t)
  {
    var black := Color(0.0, 0.0, 0.0);
    Tri(Vert(Vec3f(1.0, -100.0, 0.0), Vec2f(0.0, 0.0), black),
        Vert(Vec3f(1.0, -101.0, 0.0), Vec2f(0.0, 0.0), black),
        Vert(Vec3f(1.0, -100.0, 1.0), Vec2f(0.0, 0.0), black))
  }

  /** Every vertex is off the eye's plane and projects onto or left of the
      buffer's first column. */
  predicate LeftOfScreen(sc: Scene, u: Tri) {
    NonzeroDepths(u)
    && ViewToScreen(sc, u.a.pos).x <= 0.0 && ViewToScreen(sc, u.b.pos).x <= 0.0 && ViewToScreen(sc, u.c.pos).x <= 0.0
  }

  /** The gate as written keeps a triangle whose screen image has zero
      area: one that faces the camera, lies past the near plane and
      projects wholly left of the buffer is clamped onto column 0, so its
      barycentric denominator is 0. */
  lemma ZeroAreaTriangleIsKept(sc: Scene, t: Tri)
    requires KeepConditions(sc, t)
    ensures KeptWithZeroArea(sc, t)
  {
    KeptTriangle(sc, t);
    var s := TransformToScreen(sc, TransformTri(sc, t));
    assert s.a.pos.x == 0.0 && s.b.pos.x == 0.0 && s.c.pos.x == 0.0;
    var r := SortVertsVertical(s);
    assert r.a in Verts(s) && r.b in Verts(s) && r.c in Verts(s);
    OneColumnDen(r);
  }

  /** Faces the camera, lies past the near plane and projects wholly
      left of the buffer. */
  predicate KeepConditions(sc: Scene, t: Tri) {
    var cam := TransformTri(sc, t);
    GetNormal(cam, sc.platform.sqrt).x <= OVERDRAW_PERCENT && !NearClipped(cam) && LeftOfScreen(sc, cam)
  }

  /** Kept by the gate, with a screen image of zero area. */
  predicate KeptWithZeroArea(sc: Scene, t: Tri) {
    InitializeTriangleRender(sc, t).Some? && Den(InitializeTriangleRender(sc, t).value.tri) == 0.0
  }

  /** A triangle that passes both gates is kept as its sorted screen image. */
  lemma KeptTriangle(sc: Scene, t: Tri)
    requires GetNormal(TransformTri(sc, t), sc.platform.sqrt).x <= OVERDRAW_PERCENT
    requires !NearClipped(TransformTri(sc, t))
    ensures InitializeTriangleRender(sc, t).Some?
    ensures InitializeTriangleRender(sc, t).value.tri == SortVertsVertical(TransformToScreen(sc, TransformTri(sc, t)))
  {
  }

  /** Three screen points on column 0 span no area. */
  lemma OneColumnDen(s: Tri)
    requires s.a.pos.x == 0.0 && s.b.pos.x == 0.0 && s.c.pos.x == 0.0
    ensures Den(s) == 0.0
  {
  }

  /** A sliver in camera space meets all three conditions in the sliver
      scene: it faces the camera, lies past the near plane and projects
      left of the buffer. */
  lemma SliverPassesGates(p: Platform, u: Tri)
    requires p.sqrt(1.0) >= 0.0 && IsSliver(u)
    ensures GetNormal(u, p.sqrt).x <= OVERDRAW_PERCENT
    ensures !NearClipped(u) && LeftOfScreen(SliverScene(p), u)
  {
    SliverNormal(u, p.sqrt);
    var sc := SliverScene(p);
    assert ViewToScreen(sc, u.a.pos).x == u.a.pos.y + 5.0;
    assert ViewToScreen(sc, u.b.pos).x == u.a.pos.y + 4.0;
    assert ViewToScreen(sc, u.c.pos).x == u.a.pos.y + 5.0;
  }

  /** The identity camera leaves a sliver where it is. */
  lemma SliverCamera(p: Platform, t: Tri)
    requires p.sinCos(0.0) == Trig(0.0, 1.0)
    requires IsSliver(t)
    ensures IsSliver(TransformTri(SliverScene(p), t))
  {
    var sc := SliverScene(p);
    TransformTriPerVertex(sc, t);
    CameraSpaceIdentity(sc, t.a.pos);
    CameraSpaceIdentity(sc, t.b.pos);
    CameraSpaceIdentity(sc, t.c.pos);
  }

  /** A sliver's normal points back at the camera. */
  lemma SliverNormal(t: Tri, sqrt: real -> real)
    requires IsSliver(t) && sqrt(1.0) >= 0.0
    ensures GetNormal(t, sqrt).x <= 0.0
  {
    SliverFaceCross(t);
    NormalizeBackward(sqrt);
  }

  /** b a unit below a in y and c a unit above a in z wind toward the
      camera. */
  lemma SliverFaceCross(t: Tri)
    requires IsSliver(t)
    ensures FaceCross(t) == Vec3f(-1.0, 0.0, 0.0)
  {
  }

  /** The backward unit vector normalizes to one with x at most 0. */
  lemma NormalizeBackward(sqrt: real -> real)
    requires sqrt(1.0) >= 0.0
    ensures Normalize(Vec3f(-1.0, 0.0, 0.0), sqrt).x <= 0.0
  {
    assert InnerProd(Vec3f(-1.0, 0.0, 0.0), Vec3f(-1.0, 0.0, 0.0)) == 1.0;
  }

  /** Put together: in the sliver scene every sliver, and so the one
      `Sliver` builds, is kept by the gate with a zero denominator. */
  lemma SliverIsKept(p: Platform, t: Tri)
    requires p.sinCos(0.0) == Trig(0.0, 1.0) && p.sqrt(1.0) >= 0.0
    requires IsSliver(t)
    ensures KeptWithZeroArea(SliverScene(p), t)
  {
    SliverMeetsConditions(p, t);
    ZeroAreaTriangleIsKept(SliverScene(p), t);
  }

  /** The concrete input: the sliver (1, -100, 0), (1, -101, 0),
      (1, -100, 1) in the 10 x 10 view is kept with zero area. */
  lemma SliverExampleIsKept(p: Platform)
    requires p.sinCos(0.0) == Trig(0.0, 1.0) && p.sqrt(1.0) >= 0.0
    ensures KeptWithZeroArea(SliverScene(p), Sliver())
  {
    SliverIsKept(p, Sliver());
  }

  /** The camera image of a sliver meets the three conditions of
      `ZeroAreaTriangleIsKept`. */
  lemma SliverMeetsConditions(p: Platform, t: Tri)
    requires p.sinCos(0.0) == Trig(0.0, 1.0) && p.sqrt(1.0) >= 0.0
    requires IsSliver(t)
    ensures KeepConditions(SliverScene(p), t)
  {
    SliverCamera(p, t);
    SliverPassesGates(p, TransformTri(SliverScene(p), t));
  }

  /** A kept triangle of zero screen area leaves the frame as it was. */
  lemma ZeroAreaTriangleDrawsNothing(f: Frame, sc: Scene, t: Tri)
    requires f.Valid() && SceneOk(sc)
    requires InitializeTriangleRender(sc, t).Some? && Den(InitializeTriangleRender(sc, t).value.tri) == 0.0
    ensures RenderTriangle(f, sc, t) == f
  {
  }

  /** Rounding up to an `i32` keeps order. */
  lemma CeilMono(r1: real, r2: real)
    requires r1 <= r2
    ensures CeilToI32(r1) <= CeilToI32(r2)
  {
  }

  /** A span fill on row y changes that row only. */
  lemma FillRowRows(f: Frame, sc: Scene, poly: PolyData, bary: Barycentric, y: int, sx: int, ex: int)
    requires f.Valid() && SceneOk(sc)
    requires I32_MIN <= sx && ex <= I32_MAX && I32_MIN <= y <= I32_MAX
    ensures RowsBetween(f, FillRow(f, sc, poly, bary, y, sx, ex), y, y)
  {
    var r := FillRow(f, sc, poly, bary, y, sx, ex);
    FillRowFrame(f, sc, poly, bary, y, sx, ex);
    forall i | 0 <= i < |f.depth| && i < |f.pixels| && (r.pixels[i] != f.pixels[i] || r.depth[i] != f.depth[i])
      ensures f.width > 0 && Between(f.height - 1 - i / f.width, y, y)
    {
      assert 0 <= y < f.height && i / f.width == f.HeightInversion(y);
    }
  }

  /** Two fills, each confined to rows inside lo..hi, together stay there. */
  lemma RowsBetweenTrans(f: Frame, g: Frame, r: Frame, lo1: int, hi1: int, lo2: int, hi2: int, lo: int, hi: int)
    requires RowsBetween(f, g, lo1, hi1) && RowsBetween(g, r, lo2, hi2)
    requires g.width == f.width && g.height == f.height
    requires Between(lo1, lo, hi) && Between(hi1, lo, hi) && Between(lo2, lo, hi) && Between(hi2, lo, hi)
    ensures RowsBetween(f, r, lo, hi)
  {
    forall i | 0 <= i < |f.depth| && i < |f.pixels| && (r.pixels[i] != f.pixels[i] || r.depth[i] != f.depth[i])
      ensures f.width > 0 && Between(f.height - 1 - i / f.width, lo, hi)
    {
      if r.pixels[i] != g.pixels[i] || r.depth[i] != g.depth[i] {
      } else {
      }
    }
  }

  /** `render_mesh`: every triangle in order. */
  function RenderTris(f: Frame, sc: Scene, tris: seq<Tri>): (r: Frame)
    requires f.Valid() && SceneOk(sc)
    ensures r.Valid() && r.width == f.width && r.height == f.height
    decreases |tris|
  {
    if tris == [] then f
    else RenderTriangle(RenderTris(f, sc, tris[..|tris| - 1]), sc, tris[|tris| - 1])
  }

  /** Rendering one more triangle of a list renders it over the prefix. */
  lemma RenderTrisStep(f: Frame, sc: Scene, tris: seq<Tri>, i: nat)
    requires f.Valid() && SceneOk(sc) && i < |tris|
    ensures RenderTris(f, sc, tris[..i + 1]) == RenderTriangle(RenderTris(f, sc, tris[..i]), sc, tris[i])
  {
    assert tris[..i + 1][..i] == tris[..i];
  }

  /** Over a whole mesh the depth buffer only ever gets nearer. */
  lemma {:induction false} RenderTrisNoFarther(f: Frame, sc: Scene, tris: seq<Tri>)
    requires f.Valid() && SceneOk(sc)
    ensures NoFarther(f, RenderTris(f, sc, tris))
    decreases |tris|
  {
    if tris != [] {
      var init := tris[..|tris| - 1];
      RenderTrisNoFarther(f, sc, init);
      RenderTriangleNoFarther(RenderTris(f, sc, init), sc, tris[|tris| - 1]);
    }
  }

  /** The depth buffer after a whole mesh is no farther than any fragment
      drawn there: every covered pixel of every kept triangle with non-zero
      screen area ends with a stored depth of at most that triangle's depth
      there. It does not say which colour the pixel ends with, since a
      later triangle may paint it at an equal or nearer depth. */
  lemma {:induction false} RenderTrisReaches(f: Frame, sc: Scene, tris: seq<Tri>, i: nat, poly: PolyData, j: nat, k: int, d: real)
    requires f.Valid() && SceneOk(sc) && i < |tris| && Fragment(f, sc, tris[i], poly, j, k, d)
    ensures RenderTris(f, sc, tris).depth[f.Idx(k, TriangleSpans(poly)[j].y)] <= d
    decreases |tris|
  {
    var init := tris[..|tris| - 1];
    var y := TriangleSpans(poly)[j].y;
    if i == |tris| - 1 {
      var g := RenderTris(f, sc, init);
      RenderTrisLast(f, sc, tris);
      SameShapeIdx(f, g, k, y);
      FragmentSameShape(f, g, sc, tris[i], poly, j, k, d);
      RenderTriangleReaches(g, sc, tris[i], poly, j, k, d);
    } else {
      assert init[i] == tris[i];
      RenderTrisReaches(f, sc, init, i, poly, j, k, d);
      var g := RenderTris(f, sc, init);
      RenderTrisLast(f, sc, tris);
      LaterTriangleKeeps(g, sc, tris[|tris| - 1], f.Idx(k, y), d);
    }
  }

  /** Coverage depends on the frame's shape only. */
  lemma FragmentSameShape(f: Frame, g: Frame, sc: Scene, t: Tri, poly: PolyData, j: nat, k: int, d: real)
    requires Fragment(f, sc, t, poly, j, k, d) && g.width == f.width && g.height == f.height
    ensures Fragment(g, sc, t, poly, j, k, d)
  {
  }

  /** A non-empty list renders its last triangle over the rest. */
  lemma RenderTrisLast(f: Frame, sc: Scene, tris: seq<Tri>)
    requires f.Valid() && SceneOk(sc) && tris != []
    ensures RenderTris(f, sc, tris) == RenderTriangle(RenderTris(f, sc, tris[..|tris| - 1]), sc, tris[|tris| - 1])
  {
  }

  /** Rendering one more triangle keeps a stored depth at most d. */
  lemma LaterTriangleKeeps(g: Frame, sc: Scene, t: Tri, i: nat, d: real)
    requires g.Valid() && SceneOk(sc) && i < |g.depth| && g.depth[i] <= d
    ensures RenderTriangle(g, sc, t).depth[i] <= d
  {
    RenderTriangleNoFarther(g, sc, t);
  }

  // ---------------------------------------------------------------- lines

  /** The depth every line pixel is submitted at. */
  const LINE_DEPTH: real := 1.0

  /** `draw_line_screen` from tracer state s: each point `step_once`
      returns is written at depth 1.0, until the walk ends or leaves the
      buffer. The start point itself is never written. */
  function DrawWalk(f: Frame, s: TracerState, color: Color): (r: Frame)
    requires f.Valid() && Inv(s)
    ensures r.Valid() && r.width == f.width && r.height == f.height
    decreases Distance(s)
  {
    var st := StepOnce(s);
    StepOnceProgress(s);
    match st.point {
      case None => f
      case Some(p) =>
        if !f.InBounds(AsUsize(p.x), AsUsize(p.y)) then f
        else DrawWalk(f.Set(AsUsize(p.x), AsUsize(p.y), color, LINE_DEPTH), st.next, color)
    }
  }

  /** One step of `DrawLine`, unfolded for the loop that computes it. */
  lemma DrawWalkStep(f: Frame, s: TracerState, color: Color)
    requires f.Valid() && Inv(s)
    ensures var st := StepOnce(s);
      && (st.point.None? ==> DrawWalk(f, s, color) == f)
      && (st.point.Some? ==> Inv(st.next) && Distance(st.next) < Distance(s))
      && ((st.point.Some? && !f.InBounds(AsUsize(st.point.value.x), AsUsize(st.point.value.y)))
            ==> DrawWalk(f, s, color) == f)
      && ((st.point.Some? && f.InBounds(AsUsize(st.point.value.x), AsUsize(st.point.value.y)))
            ==> DrawWalk(f, s, color)
                == DrawWalk(f.Set(AsUsize(st.point.value.x), AsUsize(st.point.value.y), color, LINE_DEPTH), st.next, color))
  {
    StepOnceProgress(s);
  }

  /** Lines are depth-tested at depth 1.0: a pixel whose stored depth is
      below 1.0 keeps its colour and depth, and any depth that changes
      becomes 1.0. */
  lemma {:induction false} DrawWalkDepths(f: Frame, s: TracerState, color: Color)
    requires f.Valid() && Inv(s)
    ensures var r := DrawWalk(f, s, color);
      forall i :: 0 <= i < |f.depth| ==>
        (f.depth[i] < LINE_DEPTH ==> r.pixels[i] == f.pixels[i] && r.depth[i] == f.depth[i])
        && (r.depth[i] == f.depth[i] || r.depth[i] == LINE_DEPTH)
    decreases Distance(s)
  {
    var st := StepOnce(s);
    StepOnceProgress(s);
    if st.point.Some? {
      var p := st.point.value;
      if f.InBounds(AsUsize(p.x), AsUsize(p.y)) {
        var g := f.Set(AsUsize(p.x), AsUsize(p.y), color, LINE_DEPTH);
        DrawWalkDepths(g, st.next, color);
      }
    }
  }

  /** Pixel p lies on the buffer. */
  predicate OnBuffer(f: Frame, p: Vec2i) {
    0 <= p.x < f.width && 0 <= p.y < f.height
  }

  /** The points ps[0..k] all lie on the buffer. */
  predicate OnBufferUpTo(f: Frame, ps: seq<Vec2i>, k: nat) {
    k < |ps| && forall m :: 0 <= m <= k ==> OnBuffer(f, ps[m])
  }

  /** The storage index of point p of the buffer. */
  function PointIdx(f: Frame, p: Vec2i): (i: nat)
    requires f.Valid() && OnBuffer(f, p)
    ensures i < |f.depth| && i < |f.pixels| && i / f.width == f.HeightInversion(p.y) && i % f.width == p.x
  {
    IdxDivMod(f, p.x, p.y);
    f.Idx(p.x, p.y)
  }

  /** A pixel already holding the line's colour at depth 1.0 keeps both
      through the rest of the walk. */
  lemma {:induction false} DrawWalkKeepsLinePixel(f: Frame, s: TracerState, color: Color, i: nat)
    requires f.Valid() && Inv(s) && i < |f.depth|
    requires f.depth[i] == LINE_DEPTH && f.pixels[i] == ToU32(color)
    ensures DrawWalk(f, s, color).depth[i] == LINE_DEPTH && DrawWalk(f, s, color).pixels[i] == ToU32(color)
    decreases Distance(s)
  {
    DrawWalkStep(f, s, color);
    var st := StepOnce(s);
    if st.point.Some? {
      var p := st.point.value;
      if f.InBounds(AsUsize(p.x), AsUsize(p.y)) {
        var g := f.Set(AsUsize(p.x), AsUsize(p.y), color, LINE_DEPTH);
        DrawWalkKeepsLinePixel(g, st.next, color, i);
      }
    }
  }

  /** The walk draws every point it visits while the buffer lasts: when
      the points up to the k-th all lie on the buffer, the k-th ends with a
      depth of at most 1.0, and if nothing nearer than 1.0 was stored there
      it ends at depth 1.0 in the line's colour. */
  lemma {:induction false} DrawWalkReaches(f: Frame, s: TracerState, color: Color, k: nat)
    requires f.Valid() && Inv(s) && OnBufferUpTo(f, Walk(s), k)
    ensures var p, r := Walk(s)[k], DrawWalk(f, s, color);
      && r.depth[PointIdx(f, p)] <= LINE_DEPTH
      && (f.depth[PointIdx(f, p)] >= LINE_DEPTH ==>
            r.depth[PointIdx(f, p)] == LINE_DEPTH && r.pixels[PointIdx(f, p)] == ToU32(color))
    decreases k
  {
    if k == 0 {
      DrawWalkReachesFirst(f, s, color);
    } else {
      WalkStep(s);
      var st := StepOnce(s);
      var p0 := st.point.value;
      var p := Walk(s)[k];
      var g := WalkTailOnBuffer(f, s, color, k, PointIdx(f, p));
      assert p == Walk(st.next)[k - 1];
      SameShapeIdx(f, g, p.x, p.y);
      DrawWalkReaches(g, st.next, color, k - 1);
    }
  }

  /** The first point of a walk on the buffer is drawn, and the rest of the
      walk keeps it. */
  lemma DrawWalkReachesFirst(f: Frame, s: TracerState, color: Color)
    requires f.Valid() && Inv(s) && OnBufferUpTo(f, Walk(s), 0)
    ensures var p, r := Walk(s)[0], DrawWalk(f, s, color);
      && r.depth[PointIdx(f, p)] <= LINE_DEPTH
      && (f.depth[PointIdx(f, p)] >= LINE_DEPTH ==>
            r.depth[PointIdx(f, p)] == LINE_DEPTH && r.pixels[PointIdx(f, p)] == ToU32(color))
  {
    WalkStep(s);
    DrawWalkStep(f, s, color);
    var st := StepOnce(s);
    var p := st.point.value;
    NaturalCast(f, p.x, p.y);
    var g := f.Set(p.x, p.y, color, LINE_DEPTH);
    var i := PointIdx(f, p);
    DrawWalkDepths(g, st.next, color);
    if f.depth[i] >= LINE_DEPTH {
      DrawWalkKeepsLinePixel(g, st.next, color, i);
    }
  }

  /** Past the first point the walk goes on from the frame with that point
      drawn, and the rest of the prefix is still on the buffer; pixel i,
      if at depth 1.0 or more, stays there. */
  lemma WalkTailOnBuffer(f: Frame, s: TracerState, color: Color, k: nat, i: nat) returns (g: Frame)
    requires f.Valid() && Inv(s) && OnBufferUpTo(f, Walk(s), k) && k > 0
    ensures StepOnce(s).point.Some? && Inv(StepOnce(s).next)
    ensures g.Valid() && g.width == f.width && g.height == f.height
    ensures DrawWalk(f, s, color) == DrawWalk(g, StepOnce(s).next, color)
    ensures OnBufferUpTo(g, Walk(StepOnce(s).next), k - 1)
    ensures i < |f.depth| && f.depth[i] >= LINE_DEPTH ==> g.depth[i] >= LINE_DEPTH
  {
    WalkStep(s);
    DrawWalkStep(f, s, color);
    var st := StepOnce(s);
    var p := st.point.value;
    assert Walk(s)[0] == p;
    NaturalCast(f, p.x, p.y);
    g := f.Set(p.x, p.y, color, LINE_DEPTH);
    forall m | 0 <= m <= k - 1
      ensures OnBuffer(g, Walk(st.next)[m])
    {
      assert Walk(st.next)[m] == Walk(s)[m + 1];
    }
  }

  /** `draw_line_screen`: the walk from p1 to p2 drawn at depth 1.0. */
  function DrawLine(f: Frame, p1: Vec3f, p2: Vec3f, color: Color): (r: Frame)
    requires f.Valid()
    ensures r.Valid() && r.width == f.width && r.height == f.height
  {
    InitInv(p1, p2);
    DrawWalk(f, Init(p1, p2), color)
  }

  /** A line never covers anything nearer than 1.0, and every depth it
      leaves is the old one or 1.0. */
  lemma DrawLineDepths(f: Frame, p1: Vec3f, p2: Vec3f, color: Color)
    requires f.Valid()
    ensures var r := DrawLine(f, p1, p2, color);
      forall i :: 0 <= i < |f.depth| ==>
        (f.depth[i] < LINE_DEPTH ==> r.pixels[i] == f.pixels[i] && r.depth[i] == f.depth[i])
        && (r.depth[i] == f.depth[i] || r.depth[i] == LINE_DEPTH)
  {
    InitInv(p1, p2);
    DrawWalkDepths(f, Init(p1, p2), color);
  }

  /** The points `draw_line_screen` visits from p1 to p2. */
  function LinePoints(p1: Vec3f, p2: Vec3f): seq<Vec2i> {
    InitInv(p1, p2);
    Walk(Init(p1, p2))
  }

  /** A line reaches each of its points while the buffer lasts. */
  lemma DrawLineReaches(f: Frame, p1: Vec3f, p2: Vec3f, color: Color, k: nat)
    requires f.Valid() && OnBufferUpTo(f, LinePoints(p1, p2), k)
    ensures var p, r := LinePoints(p1, p2)[k], DrawLine(f, p1, p2, color);
      && r.depth[PointIdx(f, p)] <= LINE_DEPTH
      && (f.depth[PointIdx(f, p)] >= LINE_DEPTH ==>
            r.depth[PointIdx(f, p)] == LINE_DEPTH && r.pixels[PointIdx(f, p)] == ToU32(color))
  {
    InitInv(p1, p2);
    DrawWalkReaches(f, Init(p1, p2), color, k);
  }

  /** A later line keeps a pixel at depth at most 1.0, and one holding
      this colour at depth 1.0 keeps both. */
  lemma LaterLineKeeps(g: Frame, p1: Vec3f, p2: Vec3f, color: Color, i: nat, marked: bool)
    requires g.Valid() && i < |g.depth| && g.depth[i] <= LINE_DEPTH
    requires marked ==> g.depth[i] == LINE_DEPTH && g.pixels[i] == ToU32(color)
    ensures var r := DrawLine(g, p1, p2, color);
      r.depth[i] <= LINE_DEPTH && (marked ==> r.depth[i] == LINE_DEPTH && r.pixels[i] == ToU32(color))
  {
    DrawLineDepths(g, p1, p2, color);
    if marked {
      InitInv(p1, p2);
      DrawWalkKeepsLinePixel(g, Init(p1, p2), color, i);
    }
  }

  /** Three lines in a row reach every on-buffer point of each. */
  lemma ThreeLinesReach(f: Frame, edges: seq<(Vec3f, Vec3f)>, color: Color, e: nat, k: nat)
    requires f.Valid() && |edges| == 3 && e < 3 && OnBufferUpTo(f, LinePoints(edges[e].0, edges[e].1), k)
    ensures var p := LinePoints(edges[e].0, edges[e].1)[k];
      var r := DrawLine(DrawLine(DrawLine(f, edges[0].0, edges[0].1, color), edges[1].0, edges[1].1, color), edges[2].0, edges[2].1, color);
      && r.depth[PointIdx(f, p)] <= LINE_DEPTH
      && (f.depth[PointIdx(f, p)] >= LINE_DEPTH ==>
            r.depth[PointIdx(f, p)] == LINE_DEPTH && r.pixels[PointIdx(f, p)] == ToU32(color))
  {
    var p := LinePoints(edges[e].0, edges[e].1)[k];
    var g0 := DrawLine(f, edges[0].0, edges[0].1, color);
    var g1 := DrawLine(g0, edges[1].0, edges[1].1, color);
    SameShapeIdx(f, g0, p.x, p.y);
    SameShapeIdx(f, g1, p.x, p.y);
    var i := PointIdx(f, p);
    var far := f.depth[i] >= LINE_DEPTH;
    DrawLineDepths(f, edges[0].0, edges[0].1, color);
    DrawLineDepths(g0, edges[1].0, edges[1].1, color);
    if e == 0 {
      DrawLineReaches(f, edges[0].0, edges[0].1, color, k);
      LaterLineKeeps(g0, edges[1].0, edges[1].1, color, i, far);
      LaterLineKeeps(g1, edges[2].0, edges[2].1, color, i, far);
    } else if e == 1 {
      DrawLineReaches(g0, edges[1].0, edges[1].1, color, k);
      LaterLineKeeps(g1, edges[2].0, edges[2].1, color, i, far);
    } else {
      DrawLineReaches(g1, edges[2].0, edges[2].1, color, k);
    }
  }

  /** The colour wireframe edges are drawn in, before lighting. */
  const WIRE_COLOR: Color := FromInts(0, 255, 255)

  /** `render_wireframe` for one triangle: its three edges a-b, a-c, c-b. */
  function WireTriangle(f: Frame, sc: Scene, t: Tri): (r: Frame)
    requires f.Valid()
    ensures r.Valid() && r.width == f.width && r.height == f.height
    ensures InitializeTriangleRender(sc, t).None? ==> r == f
  {
    match InitializeTriangleRender(sc, t) {
      case None => f
      case Some(poly) =>
        var color := Attenuate(WIRE_COLOR, poly.lighting);
        var a, b, c := poly.tri.a.pos, poly.tri.b.pos, poly.tri.c.pos;
        DrawLine(DrawLine(DrawLine(f, a, b, color), a, c, color), c, b, color)
    }
  }

  /** The three edges `render_wireframe` draws for a kept triangle, in
      order: a-b, a-c, c-b. */
  function WireEdges(poly: PolyData): (es: seq<(Vec3f, Vec3f)>)
    ensures |es| == 3
  {
    var a, b, c := poly.tri.a.pos, poly.tri.b.pos, poly.tri.c.pos;
    [(a, b), (a, c), (c, b)]
  }

  /** A kept triangle's wireframe reaches every point of each of its three
      edges while the buffer lasts: it ends at depth at most 1.0 there, and
      where nothing nearer than 1.0 was stored, in the lit wire colour. */
  lemma WireTriangleReaches(f: Frame, sc: Scene, t: Tri, poly: PolyData, e: nat, k: nat)
    requires f.Valid() && InitializeTriangleRender(sc, t) == Some(poly) && e < 3
    requires OnBufferUpTo(f, LinePoints(WireEdges(poly)[e].0, WireEdges(poly)[e].1), k)
    ensures var p, r := LinePoints(WireEdges(poly)[e].0, WireEdges(poly)[e].1)[k], WireTriangle(f, sc, t);
      && r.depth[PointIdx(f, p)] <= LINE_DEPTH
      && (f.depth[PointIdx(f, p)] >= LINE_DEPTH ==>
            r.depth[PointIdx(f, p)] == LINE_DEPTH
            && r.pixels[PointIdx(f, p)] == ToU32(Attenuate(WIRE_COLOR, poly.lighting)))
  {
    ThreeLinesReach(f, WireEdges(poly), Attenuate(WIRE_COLOR, poly.lighting), e, k);
  }

  /** `render_wireframe`: every triangle in order. */
  function WireTris(f: Frame, sc: Scene, tris: seq<Tri>): (r: Frame)
    requires f.Valid()
    ensures r.Valid() && r.width == f.width && r.height == f.height
    decreases |tris|
  {
    if tris == [] then f
    else WireTriangle(WireTris(f, sc, tris[..|tris| - 1]), sc, tris[|tris| - 1])
  }

  /** A wireframe triangle keeps a stored depth at most 1.0. */
  lemma WireTriangleKeeps(g: Frame, sc: Scene, t: Tri, i: nat)
    requires g.Valid() && i < |g.depth| && g.depth[i] <= LINE_DEPTH
    ensures WireTriangle(g, sc, t).depth[i] <= LINE_DEPTH
  {
    match InitializeTriangleRender(sc, t) {
      case None =>
      case Some(poly) =>
        var color := Attenuate(WIRE_COLOR, poly.lighting);
        var a, b, c := poly.tri.a.pos, poly.tri.b.pos, poly.tri.c.pos;
        var g0 := DrawLine(g, a, b, color);
        var g1 := DrawLine(g0, a, c, color);
        LaterLineKeeps(g, a, b, color, i, false);
        LaterLineKeeps(g0, a, c, color, i, false);
        LaterLineKeeps(g1, c, b, color, i, false);
    }
  }

  /** After the whole wireframe, every on-buffer point of every edge of
      every kept triangle holds a depth of at most 1.0: a later triangle
      may draw over it in its own colour, never behind it. */
  lemma {:induction false} WireTrisReaches(f: Frame, sc: Scene, tris: seq<Tri>, ti: nat, poly: PolyData, e: nat, k: nat)
    requires f.Valid() && ti < |tris| && InitializeTriangleRender(sc, tris[ti]) == Some(poly) && e < 3
    requires OnBufferUpTo(f, LinePoints(WireEdges(poly)[e].0, WireEdges(poly)[e].1), k)
    ensures var p := LinePoints(WireEdges(poly)[e].0, WireEdges(poly)[e].1)[k];
      WireTris(f, sc, tris).depth[PointIdx(f, p)] <= LINE_DEPTH
    decreases |tris|
  {
    var init := tris[..|tris| - 1];
    var p := LinePoints(WireEdges(poly)[e].0, WireEdges(poly)[e].1)[k];
    if ti == |tris| - 1 {
      var g := WireTris(f, sc, init);
      WireTrisLast(f, sc, tris);
      SameShapeIdx(f, g, p.x, p.y);
      OnBufferUpToSameShape(f, g, LinePoints(WireEdges(poly)[e].0, WireEdges(poly)[e].1), k);
      WireTriangleReaches(g, sc, tris[ti], poly, e, k);
    } else {
      assert init[ti] == tris[ti];
      WireTrisReaches(f, sc, init, ti, poly, e, k);
      var g := WireTris(f, sc, init);
      WireTrisLast(f, sc, tris);
      WireTriangleKeeps(g, sc, tris[|tris| - 1], PointIdx(f, p));
    }
  }

  /** A non-empty list draws its last triangle's wireframe over the rest. */
  lemma WireTrisLast(f: Frame, sc: Scene, tris: seq<Tri>)
    requires f.Valid() && tris != []
    ensures WireTris(f, sc, tris) == WireTriangle(WireTris(f, sc, tris[..|tris| - 1]), sc, tris[|tris| - 1])
  {
  }

  /** Lying on the buffer depends on its shape only. */
  lemma OnBufferUpToSameShape(f: Frame, g: Frame, ps: seq<Vec2i>, k: nat)
    requires OnBufferUpTo(f, ps, k) && g.width == f.width && g.height == f.height
    ensures OnBufferUpTo(g, ps, k)
  {
  }

  // ---------------------------------------------------------------- the class

  /** `Renderer`: borrows the buffer mutably and the mesh and camera
      immutably for one frame. */
  class Renderer {
    const buffer: Buffer
    const mesh: Mesh
    const camera: Camera
    const lightingVec: Vec3f
    const scale: real
    const platform: Platform

    predicate Valid()
      reads this
    {
      buffer.Valid() && (mesh.texture.Some? ==> mesh.texture.value.Sampleable())
    }

    /** The scene as the renderer sees it now. */
    function CurrentScene(): (sc: Scene)
      reads this, mesh, camera
      ensures Valid() ==> SceneOk(sc)
    {
      Scene(mesh.rotation, mesh.center, mesh.texture, camera.position, camera.rotation,
                      lightingVec, scale, buffer.width, buffer.height, platform)
    }

    /** `Renderer::cons`: the light direction (-3, 1, -4) normalised, and
        the projection scale from the field of view. */
    constructor (buffer: Buffer, mesh: Mesh, camera: Camera, fov: real, platform: Platform)
      requires buffer.Valid() && (mesh.texture.Some? ==> mesh.texture.value.Sampleable())
      requires platform.tan(fov / 2.0 * DEGREES_PER_RADIAN) != 0.0
      ensures Valid()
      ensures this.buffer == buffer && this.mesh == mesh && this.camera == camera && this.platform == platform
      ensures lightingVec == Normalize(Vec3f(-3.0, 1.0, -4.0), platform.sqrt)
      ensures scale * platform.tan(fov / 2.0 * DEGREES_PER_RADIAN) == buffer.HalfWidth()
    {
      this.buffer := buffer;
      this.mesh := mesh;
      this.camera := camera;
      this.platform := platform;
      lightingVec := Normalize(Vec3f(-3.0, 1.0, -4.0), platform.sqrt);
      scale := buffer.HalfWidth() / platform.tan(fov / 2.0 * DEGREES_PER_RADIAN);
    }

    /** `fill_edge_trace`. */
    method FillEdgeTrace(starting: Vec2i, ending: Vec2i, poly: PolyData, bary: Barycentric)
      requires Valid()
      modifies buffer.pixels, buffer.depth
      ensures buffer.View() == FillRow(old(buffer.View()), CurrentScene(), poly, bary, starting.y, starting.x, ending.x)
    {
      var sc := CurrentScene();
      var y := starting.y;
      var x := starting.x;
      while x <= ending.x
        invariant FillRow(old(buffer.View()), sc, poly, bary, y, starting.x, ending.x)
               == FillRow(buffer.View(), sc, poly, bary, y, x, ending.x)
        decreases ending.x - x
      {
        var ux, uy := AsUsize(x), AsUsize(y);
        if !(ux < buffer.width && uy < buffer.height) {
          return;
        }
        var coords := GetCoords(bary, x, y);
        var color := PixelColor(sc, poly, coords);
        var depth := PixelDepth(poly, coords);
        if depth.Some? {
          buffer.Set(ux, uy, color, depth.value);
        }
        x := x + 1;
      }
    }

    /** `trace_and_fill`. */
    method TraceAndFillMut(poly: PolyData, e1s: Vec3f, e1e: Vec3f, e2s: Vec3f, e2e: Vec3f)
      requires Valid()
      modifies buffer.pixels, buffer.depth
      ensures buffer.View() == TraceAndFill(old(buffer.View()), CurrentScene(), poly, e1s, e1e, e2s, e2e)
    {
      var e1 := new EdgeTracer(e1s, e1e);
      var e2 := new EdgeTracer(e2s, e2e);
      if Den(poly.tri) == 0.0 {
        return;
      }
      var bary := BarycentricCons(poly.tri);
      ghost var sc := CurrentScene();
      var more := true;
      while more
        invariant e1 != e2
        invariant Inv(e1.State()) && Inv(e2.State())
        invariant TraceAndFill(old(buffer.View()), sc, poly, e1s, e1e, e2s, e2e)
               == if more then TraceFillLoop(buffer.View(), sc, poly, bary, e1.State(), e2.State()) else buffer.View()
        decreases more, Distance(e1.State())
      {
        more := TraceRowMut(e1, e2, poly, bary, sc);
      }
    }

    /** One turn of `trace_and_fill`'s loop: each tracer advances to its next
        row and, when both produced a point, the span between them is filled. */
    method TraceRowMut(e1: EdgeTracer, e2: EdgeTracer, poly: PolyData, bary: Barycentric, ghost sc: Scene)
      returns (more: bool)
      requires Valid() && sc == CurrentScene()
      requires e1 != e2 && Inv(e1.State()) && Inv(e2.State())
      modifies e1, e2, buffer.pixels, buffer.depth
      ensures Inv(e1.State()) && Inv(e2.State())
      ensures more ==> Distance(e1.State()) < old(Distance(e1.State()))
      ensures TraceFillLoop(old(buffer.View()), sc, poly, bary, old(e1.State()), old(e2.State()))
              == if more then TraceFillLoop(buffer.View(), sc, poly, bary, e1.State(), e2.State()) else buffer.View()
    {
      ghost var f := buffer.View();
      ghost var s1, s2 := e1.State(), e2.State();
      TraceFillStep(f, sc, poly, bary, s1, s2);
      var p1 := e1.StepConstantMut();
      var p2 := e2.StepConstantMut();
      assert buffer.View() == f;
      if p1.None? || p2.None? {
        return false;
      }
      FillEdgeTrace(p1.value, p2.value, poly, bary);
      return true;
    }

    /** `render_triangle`. */
    method RenderTriangleMut(t: Tri)
      requires Valid()
      modifies buffer.pixels, buffer.depth
      ensures buffer.View() == RenderTriangle(old(buffer.View()), CurrentScene(), t)
    {
      var sc := CurrentScene();
      ghost var f0 := buffer.View();
      var polydata := InitializeTriangleRender(sc, t);
      if polydata.Some? {
        var poly := polydata.value;
        var a, b, c := poly.tri.a.pos, poly.tri.b.pos, poly.tri.c.pos;
        if LumpedLeft(poly.tri) {
          TraceAndFillMut(poly, a, c, a, b);
          ghost var f1 := buffer.View();
          assert f1 == TraceAndFill(f0, sc, poly, a, c, a, b);
          TraceAndFillMut(poly, c, a, c, b);
          assert buffer.View() == TraceAndFill(f1, sc, poly, c, a, c, b);
        } else {
          TraceAndFillMut(poly, a, b, a, c);
          ghost var f1 := buffer.View();
          assert f1 == TraceAndFill(f0, sc, poly, a, b, a, c);
          TraceAndFillMut(poly, c, b, c, a);
          assert buffer.View() == TraceAndFill(f1, sc, poly, c, b, c, a);
        }
      }
    }

    /** One iteration of `render_mesh`: triangle i over the first i. */
    method RenderNextMut(ghost f0: Frame, ghost sc: Scene, tris: seq<Tri>, i: nat)
      requires Valid() && f0.Valid() && sc == CurrentScene() && i < |tris|
      requires buffer.View() == RenderTris(f0, sc, tris[..i])
      modifies buffer.pixels, buffer.depth
      ensures buffer.View() == RenderTris(f0, sc, tris[..i + 1])
    {
      RenderTrisStep(f0, sc, tris, i);
      RenderTriangleMut(tris[i]);
    }

    /** `render_mesh`. */
    method RenderMesh()
      requires Valid()
      modifies buffer.pixels, buffer.depth
      ensures buffer.View() == RenderTris(old(buffer.View()), CurrentScene(), mesh.tris)
    {
      ghost var sc := CurrentScene();
      ghost var f0 := buffer.View();
      var tris := mesh.tris;
      var i := 0;
      while i < |tris|
        invariant 0 <= i <= |tris|
        invariant buffer.View() == RenderTris(f0, sc, tris[..i])
      {
        RenderNextMut(f0, sc, tris, i);
        i := i + 1;
      }
      assert tris[..|tris|] == tris;
    }

    /** `draw_line_screen`. */
    method DrawLineScreen(p1: Vec3f, p2: Vec3f, color: Color)
      requires Valid()
      modifies buffer.pixels, buffer.depth
      ensures buffer.View() == DrawLine(old(buffer.View()), p1, p2, color)
    {
      var edge := new EdgeTracer(p1, p2);
      var more := true;
      while more
        invariant Inv(edge.State())
        invariant DrawLine(old(buffer.View()), p1, p2, color)
               == if more then DrawWalk(buffer.View(), edge.State(), color) else buffer.View()
        decreases more, Distance(edge.State())
      {
        more := DrawStepMut(edge, color);
      }
    }

    /** One turn of `draw_line_screen`'s loop: one Bresenham step, then the
        pixel it reaches is drawn, unless the walk is over or has left the
        buffer. */
    method DrawStepMut(edge: EdgeTracer, color: Color) returns (more: bool)
      requires Valid() && Inv(edge.State())
      modifies edge, buffer.pixels, buffer.depth
      ensures Inv(edge.State())
      ensures more ==> Distance(edge.State()) < old(Distance(edge.State()))
      ensures DrawWalk(old(buffer.View()), old(edge.State()), color)
              == if more then DrawWalk(buffer.View(), edge.State(), color) else buffer.View()
    {
      ghost var f := buffer.View();
      var before := edge.State();
      DrawWalkStep(f, before, color);
      var point := edge.StepOnceMut();
      if point.None? {
        return false;
      }
      var ux, uy := AsUsize(point.value.x), AsUsize(point.value.y);
      if !(ux < buffer.width && uy < buffer.height) {
        return false;
      }
      buffer.Set(ux, uy, color, LINE_DEPTH);
      return true;
    }

    /** `render_wireframe`. */
    method RenderWireframe()
      requires Valid()
      modifies buffer.pixels, buffer.depth
      ensures buffer.View() == WireTris(old(buffer.View()), CurrentScene(), mesh.tris)
    {
      var sc := CurrentScene();
      ghost var f0 := buffer.View();
      var i := 0;
      while i < |mesh.tris|
        invariant 0 <= i <= |mesh.tris|
        invariant buffer.View() == WireTris(f0, sc, mesh.tris[..i])
      {
        assert mesh.tris[..i + 1][..i] == mesh.tris[..i];
        ghost var g := buffer.View();
        var polydata := InitializeTriangleRender(sc, mesh.tris[i]);
        if polydata.Some? {
          var color := Attenuate(WIRE_COLOR, polydata.value.lighting);
          var t := polydata.value.tri;
          DrawLineScreen(t.a.pos, t.b.pos, color);
          DrawLineScreen(t.a.pos, t.c.pos, color);
          DrawLineScreen(t.c.pos, t.b.pos, color);
        }
        assert buffer.View() == WireTriangle(g, sc, mesh.tris[i]);
        i := i + 1;
      }
      assert mesh.tris[..|mesh.tris|] == mesh.tris;
    }
  }
}
