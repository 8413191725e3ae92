/**
 * The OBJ reading loop of `Mesh::build_from_file_extended`
 * (mesh/src/geometry.rs:204-262), over lines that are already split into
 * keywords and parsed numbers.
 *
 * A `v` line adds a scaled vertex, a `vt` line a texture coordinate with v
 * flipped to 1 - v, and an `f` line resolves its 1-based references and
 * fans the polygon into triangles. Where the source would panic (index 0
 * underflowing, an index past the end) the model returns an error.
 */
module MeshLoader {
  import opened Wrappers
  import opened VecMath
  import opened RenderUtils
  import opened Textures
  import opened Geometry

  /** One `v/vt` reference of a face: the 1-based vertex index and the
      optional 1-based texture index (absent or empty after the slash). */
  datatype FaceRef = FaceRef(vert: nat, tex: Option<nat>)

  /** A tokenised OBJ line. */
  datatype ObjLine =
    | V(x: real, y: real, z: real)
    | Vt(u: real, v: real)
    | F(refs: seq<FaceRef>)
    | Other

  datatype LoadError = ZeroIndex | VertexOutOfRange | TexCoordOutOfRange

  /** The loop's three growing vectors. */
  datatype ObjState = ObjState(vertices: seq<Vec3f>, texCoords: seq<Vec2f>, tris: seq<Tri>)

  const EMPTY: ObjState := ObjState([], [], [])

  /** A resolved face corner. */
  datatype Corner = Corner(pos: Vec3f, tex: Vec2f)

  /** The colour every loaded vertex gets. */
  const WHITE: Color := FromInts(255, 255, 255)

  /** Resolve one reference. */
  function ResolveRef(st: ObjState, r: FaceRef): Result<Corner, LoadError> {
    if r.vert == 0 then Err(ZeroIndex)
    else if r.vert > |st.vertices| then Err(VertexOutOfRange)
    else match r.tex {
      case None => Ok(Corner(st.vertices[r.vert - 1], Vec2f(0.0, 0.0)))
      case Some(k) =>
        if k == 0 then Err(ZeroIndex)
        else if k > |st.texCoords| then Err(TexCoordOutOfRange)
        else Ok(Corner(st.vertices[r.vert - 1], st.texCoords[k - 1]))
    }
  }

  /** Indices are 1-based; a missing texture index gives (0, 0). */
  lemma ResolveRefIsOneBased(st: ObjState, r: FaceRef)
    ensures ResolveRef(st, r).Ok? <==>
      1 <= r.vert <= |st.vertices| && (r.tex.Some? ==> 1 <= r.tex.value <= |st.texCoords|)
    ensures ResolveRef(st, r).Ok? ==> ResolveRef(st, r).value.pos == st.vertices[r.vert - 1]
    ensures ResolveRef(st, r).Ok? ==>
      ResolveRef(st, r).value.tex == if r.tex.Some? then st.texCoords[r.tex.value - 1] else Vec2f(0.0, 0.0)
  {
  }

  /** Resolve the references of a face in order; the first bad one fails. */
  function ResolveFace(st: ObjState, refs: seq<FaceRef>): (r: Result<seq<Corner>, LoadError>)
    ensures r.Ok? ==> |r.value| == |refs|
    decreases |refs|
  {
    if refs == [] then Ok([])
    else match ResolveFace(st, refs[..|refs| - 1]) {
      case Err(e) => Err(e)
      case Ok(cs) =>
        match ResolveRef(st, refs[|refs| - 1]) {
          case Err(e) => Err(e)
          case Ok(c) => Ok(cs + [c])
        }
    }
  }

  /** A face resolves exactly when each of its references does, and then
      corner k is reference k resolved. */
  lemma {:induction false} ResolveFaceElementwise(st: ObjState, refs: seq<FaceRef>)
    ensures ResolveFace(st, refs).Ok? <==> forall k :: 0 <= k < |refs| ==> ResolveRef(st, refs[k]).Ok?
    ensures ResolveFace(st, refs).Ok? ==>
      forall k :: 0 <= k < |refs| ==> ResolveFace(st, refs).value[k] == ResolveRef(st, refs[k]).value
    decreases |refs|
  {
    if refs != [] {
      var pre := refs[..|refs| - 1];
      ResolveFaceElementwise(st, pre);
      assert forall k :: 0 <= k < |pre| ==> pre[k] == refs[k];
    }
  }

  function WhiteVert(c: Corner): Vert {
    Vert(c.pos, c.tex, WHITE)
  }

  /** The fan over corners 0..n-1: triangles (0, i-1, i) for i in 2..n. */
  function Fan(cs: seq<Corner>): seq<Tri>
    decreases |cs|
  {
    if |cs| < 3 then []
    else Fan(cs[..|cs| - 1]) + [Tri(WhiteVert(cs[0]), WhiteVert(cs[|cs| - 2]), WhiteVert(cs[|cs| - 1]))]
  }

  /** A polygon of n >= 3 corners gives n - 2 white triangles, the k-th
      being (c0, c(k+1), c(k+2)); fewer corners give none. */
  lemma {:induction false} FanShape(cs: seq<Corner>)
    ensures |Fan(cs)| == if |cs| < 3 then 0 else |cs| - 2
    ensures forall k :: 0 <= k < |Fan(cs)| ==>
      Fan(cs)[k] == Tri(WhiteVert(cs[0]), WhiteVert(cs[k + 1]), WhiteVert(cs[k + 2]))
    decreases |cs|
  {
    if |cs| >= 3 {
      var pre := cs[..|cs| - 1];
      FanShape(pre);
      assert forall k :: 0 <= k < |pre| ==> pre[k] == cs[k];
    }
  }

  /** One line of the reading loop. */
  function StepLine(st: ObjState, line: ObjLine, scaling: real): Result<ObjState, LoadError> {
    match line {
      case V(x, y, z) => Ok(st.(vertices := st.vertices + [Scale(Vec3f(x, y, z), scaling)]))
      case Vt(u, v) => Ok(st.(texCoords := st.texCoords + [Vec2f(u, v * -1.0 + 1.0)]))
      case F(refs) =>
        match ResolveFace(st, refs) {
          case Err(e) => Err(e)
          case Ok(cs) => Ok(st.(tris := st.tris + Fan(cs)))
        }
      case Other => Ok(st)
    }
  }

  /** The whole loop: the lines in order, stopping at the first error. */
  function Load(lines: seq<ObjLine>, scaling: real): Result<ObjState, LoadError>
    decreases |lines|
  {
    if lines == [] then Ok(EMPTY)
    else match Load(lines[..|lines| - 1], scaling) {
      case Err(e) => Err(e)
      case Ok(st) => StepLine(st, lines[|lines| - 1], scaling)
    }
  }

  /** The state only grows: the lists after a prefix of the file. */
  predicate Extends(st: ObjState, st': ObjState) {
    st.vertices <= st'.vertices && st.texCoords <= st'.texCoords && st.tris <= st'.tris
  }

  /** A line that reads successfully only appends to the lists, so every
      reference that resolved before it resolves to the same corner after
      it. */
  lemma StepLineExtends(st: ObjState, line: ObjLine, scaling: real)
    ensures StepLine(st, line, scaling).Ok? ==> Extends(st, StepLine(st, line, scaling).value)
    ensures StepLine(st, line, scaling).Ok? ==>
      forall r :: ResolveRef(st, r).Ok? ==> ResolveRef(StepLine(st, line, scaling).value, r) == ResolveRef(st, r)
  {
  }

  /** Over a whole file: when the file loads, every prefix of it loads too,
      to a state whose lists are prefixes of the final ones. */
  lemma {:induction false} LoadExtends(lines: seq<ObjLine>, scaling: real, n: nat)
    requires n <= |lines|
    ensures Load(lines, scaling).Ok? ==>
      Load(lines[..n], scaling).Ok? && Extends(Load(lines[..n], scaling).value, Load(lines, scaling).value)
    decreases |lines| - n
  {
    if n < |lines| && Load(lines, scaling).Ok? {
      LoadExtends(lines, scaling, n + 1);
      var pre := lines[..n + 1];
      assert pre[..|pre| - 1] == lines[..n];
      StepLineExtends(Load(lines[..n], scaling).value, lines[n], scaling);
    } else if n == |lines| {
      assert lines[..n] == lines;
    }
  }

  /** Every vertex of every loaded triangle is white, has a position from
      the vertex list and a texture coordinate from the `vt` list or (0, 0). */
  predicate FromLists(st: ObjState, v: Vert) {
    v.color == WHITE && v.pos in st.vertices && (v.texpos in st.texCoords || v.texpos == Vec2f(0.0, 0.0))
  }

  predicate TrisFromLists(st: ObjState) {
    forall k :: 0 <= k < |st.tris| ==>
      FromLists(st, st.tris[k].a) && FromLists(st, st.tris[k].b) && FromLists(st, st.tris[k].c)
  }

  lemma {:induction false} LoadedTrianglesComeFromLists(lines: seq<ObjLine>, scaling: real)
    ensures Load(lines, scaling).Ok? ==> TrisFromLists(Load(lines, scaling).value)
    decreases |lines|
  {
    if lines != [] && Load(lines, scaling).Ok? {
      var pre := lines[..|lines| - 1];
      LoadedTrianglesComeFromLists(pre, scaling);
      var st := Load(pre, scaling).value;
      var line := lines[|lines| - 1];
      var st' := Load(lines, scaling).value;
      assert st' == StepLine(st, line, scaling).value;
      // The lists only grow, so old triangles still come from them.
      assert forall v :: FromLists(st, v) ==> FromLists(st', v);
      if line.F? {
        FaceTrianglesComeFromLists(st, line.refs);
        forall k | 0 <= k < |st'.tris|
          ensures FromLists(st', st'.tris[k].a) && FromLists(st', st'.tris[k].b) && FromLists(st', st'.tris[k].c)
        {
          if k >= |st.tris| {
            assert st'.tris[k] == Fan(ResolveFace(st, line.refs).value)[k - |st.tris|];
          }
        }
      }
    }
  }

  /** Every corner of every triangle a face adds is a stored vertex with a
      stored (or default) texture coordinate and the default colour. */
  lemma FaceTrianglesComeFromLists(st: ObjState, refs: seq<FaceRef>)
    requires ResolveFace(st, refs).Ok?
    ensures var fan := Fan(ResolveFace(st, refs).value);
      forall j :: 0 <= j < |fan| ==> FromLists(st, fan[j].a) && FromLists(st, fan[j].b) && FromLists(st, fan[j].c)
  {
    var cs := ResolveFace(st, refs).value;
    ResolveFaceElementwise(st, refs);
    FanShape(cs);
    forall k | 0 <= k < |cs|
      ensures FromLists(st, WhiteVert(cs[k]))
    {
      ResolveRefIsOneBased(st, refs[k]);
      assert cs[k] == ResolveRef(st, refs[k]).value;
    }
  }

  // ---------------------------------------------------------------- the loop itself

  /** The reading loop of `build_from_file_extended`: the vertex, texture
      coordinate and triangle vectors grown line by line. */
  method LoadTris(lines: seq<ObjLine>, scaling: real) returns (r: Result<seq<Tri>, LoadError>)
    ensures Load(lines, scaling).Ok? <==> r.Ok?
    ensures r.Ok? ==> r.value == Load(lines, scaling).value.tris
    ensures r.Err? ==> r.error == Load(lines, scaling).error
  {
    var vertices: seq<Vec3f> := [];
    var texCoords: seq<Vec2f> := [];
    var tris: seq<Tri> := [];
    var n := 0;
    while n < |lines|
      invariant 0 <= n <= |lines|
      invariant Load(lines[..n], scaling) == Ok(ObjState(vertices, texCoords, tris))
    {
      assert lines[..n + 1][..n] == lines[..n];
      var st := ObjState(vertices, texCoords, tris);
      match lines[n] {
        case V(x, y, z) =>
          vertices := vertices + [Scale(Vec3f(x, y, z), scaling)];
          assert StepLine(st, lines[n], scaling) == Ok(ObjState(vertices, texCoords, tris));
        case Vt(u, v) =>
          texCoords := texCoords + [Vec2f(u, v * -1.0 + 1.0)];
          assert StepLine(st, lines[n], scaling) == Ok(ObjState(vertices, texCoords, tris));
        case F(refs) =>
          var corners := ResolveCorners(st, refs);
          if corners.Err? {
            r := Err(corners.error);
            assert lines[..n + 1][..n] == lines[..n];
            LoadFailsFrom(lines, scaling, n + 1, corners.error);
            return;
          }
          var fan := FanTris(corners.value);
          tris := tris + fan;
          assert StepLine(st, lines[n], scaling) == Ok(ObjState(vertices, texCoords, tris));
        case Other =>
      }
      n := n + 1;
    }
    assert lines[..|lines|] == lines;
    r := Ok(tris);
  }

  /** The corner loop of `build_from_file_extended`: each reference is
      checked and looked up in turn, and the first bad one aborts the load. */
  method ResolveCorners(st: ObjState, refs: seq<FaceRef>) returns (r: Result<seq<Corner>, LoadError>)
    ensures r == ResolveFace(st, refs)
  {
    var corners: seq<Corner> := [];
    var j := 0;
    while j < |refs|
      invariant 0 <= j <= |refs|
      invariant ResolveFace(st, refs[..j]) == Ok(corners)
    {
      assert refs[..j + 1][..j] == refs[..j];
      var ref := refs[j];
      var err: Option<LoadError> := None;
      var tex := Vec2f(0.0, 0.0);
      if ref.vert == 0 {
        err := Some(ZeroIndex);
      } else if ref.vert > |st.vertices| {
        err := Some(VertexOutOfRange);
      } else if ref.tex.Some? {
        var k := ref.tex.value;
        if k == 0 {
          err := Some(ZeroIndex);
        } else if k > |st.texCoords| {
          err := Some(TexCoordOutOfRange);
        } else {
          tex := st.texCoords[k - 1];
        }
      }
      if err.Some? {
        r := Err(err.value);
        ResolveFailsFrom(st, refs, j + 1);
        return;
      }
      corners := corners + [Corner(st.vertices[ref.vert - 1], tex)];
      j := j + 1;
    }
    assert refs[..|refs|] == refs;
    r := Ok(corners);
  }

  /** The triangle loop of `build_from_file_extended`: the fan over the
      corners, one triangle per corner after the second. */
  method FanTris(corners: seq<Corner>) returns (tris: seq<Tri>)
    ensures tris == Fan(corners)
  {
    tris := [];
    var i := 2;
    while i < |corners|
      invariant 2 <= i && (i <= |corners| || |corners| < 2)
      invariant tris == Fan(corners[..if i <= |corners| then i else |corners|])
    {
      assert corners[..i + 1][..i] == corners[..i];
      tris := tris + [Tri(WhiteVert(corners[0]), WhiteVert(corners[i - 1]), WhiteVert(corners[i]))];
      i := i + 1;
    }
    assert corners[..|corners|] == corners;
  }

  /** Once a prefix of a face fails, so does every longer prefix. */
  lemma {:induction false} ResolveFailsFrom(st: ObjState, refs: seq<FaceRef>, m: nat)
    requires 0 < m <= |refs| && ResolveFace(st, refs[..m]).Err?
    ensures ResolveFace(st, refs) == ResolveFace(st, refs[..m])
    decreases |refs| - m
  {
    if m < |refs| {
      assert refs[..m + 1][..m] == refs[..m];
      ResolveFailsFrom(st, refs, m + 1);
    } else {
      assert refs[..m] == refs;
    }
  }

  /** Once a prefix of the lines fails, so does the whole load. */
  lemma {:induction false} LoadFailsFrom(lines: seq<ObjLine>, scaling: real, m: nat, e: LoadError)
    requires 0 < m <= |lines| && Load(lines[..m], scaling) == Err(e)
    ensures Load(lines, scaling) == Err(e)
    decreases |lines| - m
  {
    if m < |lines| {
      assert lines[..m + 1][..m] == lines[..m];
      LoadFailsFrom(lines, scaling, m + 1, e);
    } else {
      assert lines[..m] == lines;
    }
  }

  /** `build_from_file_extended` after reading the file and loading the
      texture: a mesh at the origin, unrotated. */
  method BuildFromFileExtended(lines: seq<ObjLine>, scaling: real, texture: Option<Texture>)
    returns (r: Result<Mesh, LoadError>)
    ensures Load(lines, scaling).Ok? <==> r.Ok?
    ensures r.Ok? ==> fresh(r.value)
    ensures r.Ok? ==> r.value.tris == Load(lines, scaling).value.tris && r.value.texture == texture
    ensures r.Ok? ==> r.value.center == Zero && r.value.rotation == Zero
  {
    var tris := LoadTris(lines, scaling);
    match tris {
      case Err(e) => r := Err(e);
      case Ok(ts) =>
        var m := new Mesh(ts, Zero, texture);
        r := Ok(m);
    }
  }
}
