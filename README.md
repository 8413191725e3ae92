# viscera mesh rasterizer, modelled in Dafny

This project models the core of the `mesh` crate of viscera. The crate is a
CPU software rasterizer: it loads a Wavefront OBJ mesh and places it in front
of a camera. Each frame it draws the mesh into a packed-`u32` colour buffer
paired with a depth buffer.

Per triangle, the pipeline does this:

1. Rotate the triangle about the mesh centre, move it into camera space and
   rotate it by the camera.
2. Cull it if it faces away from the viewer beyond a 20 % overdraw
   allowance, or if any vertex lies in front of the near plane (`z < 0.1`
   after projection).
3. Perspective-project it to screen space and sort its vertices by height.
4. Shade it by a fixed light direction, with 0.15 as the minimum lighting.
5. Walk its edges with an integer Bresenham tracer that advances one row
   per call, and fill the spans between the two edges.
6. For each pixel, compute barycentric weights and interpolate the depth
   (perspective-correct reciprocal interpolation), the colour and, when a
   texture is present, the nearest-texel colour.
7. Write the pixel through the depth-tested `Buffer::set`. A write wins
   when its depth is not farther than the stored one.

The wireframe path culls the same way and draws the three edges as lines at
depth 1.0.

## Modules

| file | module | source |
|---|---|---|
| `vec_math.dfy` | `VecMath` | `mesh/src/math.rs` |
| `render_utils.dfy` | `RenderUtils` | `mesh/src/render_utils.rs` |
| `texture.dfy` | `Textures` | `mesh/src/texture.rs` |
| `geometry.dfy` | `Geometry` | `mesh/src/geometry.rs` (triangles, barycentrics, `Mesh`) |
| `mesh_loader.dfy` | `MeshLoader` | `mesh/src/geometry.rs` (`Mesh::build_from_file_extended`) |
| `edge_tracer.dfy` | `EdgeTracing` | `mesh/src/renderer.rs` (`EdgeTracer`) |
| `renderer.dfy` | `Rendering` | `mesh/src/renderer.rs` (`Renderer`) |
| `wrappers.dfy` | `Wrappers` | `Option`/`Result` |

## Modelling choices

- **Numbers.**
  - `f32` is `real` and `i32` is `int`.
  - `u32` is a subset type, with shifts and `|` written out.
  - Rust's saturating float-to-int casts are written out: `as u32`, `as usize` and `ceil() as i32`.
  - The `i32`-to-`usize` cast wraps modulo 2^64, and `AsUsize` models that wrap.
- **Platform functions.** `sin_cos`, `sqrt` and `tan` are parameters, bundled in `Rendering.Platform`. Rotations take a `(sin, cos)` pair. Properties that need `sin² + cos² = 1` assume it as a precondition (`VecMath.IsUnit`).
- **Plain values.** Copy structs become datatypes: `Vec2i`, `Vec2f`, `Vec3f`, `Color`, `Vert`, `Tri`, `PolyData` and `BarycentricSystem`. Their `&mut self` methods become functions from the old value to the new one.
- **Objects with state.** Types whose fields are updated in place become classes:
  - `Buffer`: two arrays. It is specified through the value `Frame` it holds, via `Buffer.View()`.
  - `EdgeTracer`: specified through the value `TracerState`.
  - `Camera`, `Mesh` and `Renderer`.

  Each method is proved equal to a function on that value, such as `Frame.Set`, `StepOnce` or `RenderTris`. The lemmas are proved about the functions.
- **Mesh file input.** The OBJ file is read as a sequence of tokenised lines (`ObjLine`), and the texture as its decoded RGB8 bytes.
- **Panics become errors.**
  - A face index 0 makes `usize` subtraction underflow in the source. The model returns an `Err` for it.
  - Out-of-range `v`/`vt` indices panic in the source. The model returns an `Err` for those too.
- **Behaviour kept as the code has it.**
  - The projection scale is `half_width / tan((fov / 2).to_degrees())`: `tan` is applied to the half field of view after a radians-to-degrees conversion. The model applies the `tan` parameter to that same converted value.
  - Wireframe lines are written at the constant depth 1.0, whatever the depth of the triangle they outline.
  - `step_once` has a third, fall-through branch that returns the current point unchanged. The model keeps that branch, and `EdgeTracing.StepOnceProgress` shows it is unreachable under the tracer invariant.
- **Floating-point special values.** IEEE NaN and infinity outcomes are replaced by the behaviour the pixel output shows:
  - A triangle with a zero barycentric denominator is not filled. The source does reach this case and then writes NaN-weighted pixels; see "## Findings".
  - When the interpolated reciprocal depths sum to zero, that pixel write is dropped.
  - Normalising the zero vector gives the zero vector. At both call sites this gives the same observable result as the source's NaN: `NaN.max(0.15)` is 0.15, and `NaN > 0.2` is false.

## Model

| member | source | states |
|---|---|---|
| VecMath.Determinant | mesh/src/math.rs:53-55 | the 2D determinant `x·y' - y·x'`; its antisymmetry is stated by `DeterminantAntisymmetric` |
| VecMath.Add | mesh/src/math.rs:260-273 | componentwise sum (`+` and `+=`); `Sub` and `AddSubCancel` state that subtraction undoes it |
| VecMath.Scale | mesh/src/math.rs:290-303 | componentwise product with a scalar (`*` and `*=`); `Div` states that it undoes division, `InnerProdLinear` that it factors out of a dot product |
| VecMath.InnerProd | mesh/src/math.rs:229-231 | the dot product; `InnerProdSymmetric` and `InnerProdLinear` state its symmetry and linearity |
| VecMath.Cross | mesh/src/math.rs:246-252 | the crate's cross product, y component negated; `CrossAntisymmetric`, `CrossBilinear` and `ReflectedCrossOrthogonal` state its algebra |
| VecMath.Normalize | mesh/src/math.rs:233-244 | division by the platform square root of the squared length, zero for the zero vector; `NormalizeUnit` and `NormalizeNeg` state unit length and sign symmetry |
| VecMath.RotXyz | mesh/src/math.rs:193-197 | `rot_x`, then `rot_y`, then `rot_z`; `InvRotZyxUndoesRotXyz` states that `inv_rot_zyx` undoes it |
| VecMath.RotZyx | mesh/src/math.rs:199-203 | `rot_z`, then `rot_y`, then `rot_x`; `InvRotXyzUndoesRotZyx` states that `inv_rot_xyz` undoes it |
| VecMath.DeterminantAntisymmetric | mesh/src/math.rs:53-55 | the 2D determinant changes sign when its arguments are swapped, and is zero for a vector with itself |
| VecMath.Sub | mesh/src/math.rs:275-279 | subtraction is the inverse of addition: `(a - b) + b == a` |
| VecMath.Neg | mesh/src/math.rs:320-324 | negation is the additive inverse, and negating twice gives the vector back |
| VecMath.Div | mesh/src/math.rs:305-309 | dividing by a non-zero scalar is undone by multiplying by it |
| VecMath.AddSubCancel | mesh/src/math.rs:260-279 | adding and then subtracting a vector is the identity, and `-(-a) == a` |
| VecMath.InnerProdSymmetric | mesh/src/math.rs:229-231 | the dot product is symmetric |
| VecMath.InnerProdLinear | mesh/src/math.rs:229-231 | the dot product is linear in its first argument, for both sums and scalar multiples |
| VecMath.CrossAntisymmetric | mesh/src/math.rs:246-252 | the crate's cross product is antisymmetric, and is zero for a vector with itself |
| VecMath.CrossBilinear | mesh/src/math.rs:246-252 | the cross product distributes over addition and commutes with negation of either argument |
| VecMath.ReflectedCrossOrthogonal | mesh/src/math.rs:246-252 | the crate's cross product has its y component negated: mirrored in y, it is orthogonal to both factors |
| VecMath.Clamp | mesh/src/math.rs:254-257 | the result lies in [lo, hi], equals the input when the input is inside, and equals the nearer bound otherwise |
| VecMath.ClampXY | mesh/src/math.rs:254-257 | x and y are clamped into their ranges, values already in range are kept, and z is untouched |
| VecMath.NormalizeUnit | mesh/src/math.rs:233-244 | with an exact square root, a non-zero vector normalises to unit length |
| VecMath.NormalizeNeg | mesh/src/math.rs:233-244 | normalising commutes with negation |
| VecMath.ReflX | mesh/src/math.rs:217-219 | negates x and keeps y and z |
| VecMath.ReflY | mesh/src/math.rs:221-223 | negates y and keeps x and z |
| VecMath.ReflZ | mesh/src/math.rs:225-227 | negates z and keeps x and y |
| VecMath.ReflInvolution | mesh/src/math.rs:217-227 | each reflection is an involution and preserves length |
| VecMath.RotX | mesh/src/math.rs:145-151 | rotation about x leaves the x component fixed |
| VecMath.RotY | mesh/src/math.rs:153-159 | rotation about y leaves the y component fixed |
| VecMath.RotZ | mesh/src/math.rs:161-167 | rotation about z leaves the z component fixed |
| VecMath.InvRotX | mesh/src/math.rs:169-175 | inverse rotation about x leaves the x component fixed |
| VecMath.InvRotY | mesh/src/math.rs:177-183 | inverse rotation about y leaves the y component fixed |
| VecMath.InvRotZ | mesh/src/math.rs:185-191 | inverse rotation about z leaves the z component fixed |
| VecMath.InvRotUndoesRot | mesh/src/math.rs:145-191 | for a unit (sin, cos) pair, each `inv_rot_*` undoes the matching `rot_*`, in both orders |
| VecMath.RotPreservesLength | mesh/src/math.rs:145-167 | for a unit (sin, cos) pair, every axis rotation preserves length |
| VecMath.InvRotZyxUndoesRotXyz | mesh/src/math.rs:193-215 | `inv_rot_zyx` undoes `rot_xyz` for the same angles, in both orders |
| VecMath.InvRotXyzUndoesRotZyx | mesh/src/math.rs:193-215 | `inv_rot_xyz` undoes `rot_zyx` for the same angles, in both orders |
| VecMath.InvRotXyz | mesh/src/math.rs:205-209 | the inverse rotations about x, then y, then z; `InvRotXyzUndoesRotZyx` states that it undoes `rot_zyx` for unit angles |
| VecMath.InvRotZyx | mesh/src/math.rs:211-215 | the inverse rotations about z, then y, then x; `InvRotZyxUndoesRotXyz` states that it undoes `rot_xyz` for unit angles |
| RenderUtils.SatU32 | mesh/src/render_utils.rs:29-31 | the float-to-`u32` cast truncates in range and saturates at 0 below |
| RenderUtils.ToU32 | mesh/src/render_utils.rs:29-31 | packs the saturated channels as `(r << 16) \| (g << 8) \| b`; `ToU32OfBytes` and `PackRoundTrip` state its value and its inverse |
| RenderUtils.FromU32 | mesh/src/render_utils.rs:22-27 | unpacks the three low bytes; `UnpackRoundTrip` and `UnpackIgnoresHighByte` state its relation to `ToU32` |
| RenderUtils.Attenuate | mesh/src/render_utils.rs:37-41 | scales every channel by the lighting factor; `AttenuateStaysInRange` states its bounds |
| RenderUtils.ToU32OfBytes | mesh/src/render_utils.rs:29-31 | for whole-byte channels, `to_u32` is `r * 2^16 + g * 2^8 + b` |
| RenderUtils.FromInts | mesh/src/render_utils.rs:15-20 | `Color::cons` from integers: each channel is its integer as a float; `Textures.TexelsOfIndex` states that texel k is `FromInts` of bytes 3k..3k+2 |
| RenderUtils.PackRoundTrip | mesh/src/render_utils.rs:22-31 | `from_u32(to_u32(c)) == c` for whole-byte colours, and the packed value uses only the low 24 bits |
| RenderUtils.UnpackRoundTrip | mesh/src/render_utils.rs:22-31 | `to_u32(from_u32(x))` is `x` with its high byte cleared, and unpacked channels are whole bytes |
| RenderUtils.UnpackIgnoresHighByte | mesh/src/render_utils.rs:22-27 | `from_u32` ignores the alpha/high byte |
| RenderUtils.BytesUnique | mesh/src/render_utils.rs:22-31 | the byte decomposition of a 32-bit value is unique |
| RenderUtils.DefaultIsWhite | mesh/src/render_utils.rs:44-47 | the default colour packs to `0xffffff` |
| RenderUtils.AttenuateStaysInRange | mesh/src/render_utils.rs:37-41 | attenuating by a factor in [0, 1] keeps each channel between 0 and its old value |
| RenderUtils.Frame.HeightInversion | mesh/src/render_utils.rs:111-113 | the inverted row is still a row of the buffer |
| RenderUtils.HeightInversionInvolutive | mesh/src/render_utils.rs:111-113 | inverting the row twice gives it back |
| RenderUtils.Frame.Idx | mesh/src/render_utils.rs:106-108 | an in-bounds pixel has a storage index inside the buffer |
| RenderUtils.Frame.InBounds | mesh/src/render_utils.rs:100-103 | `inbounds`: both coordinates below the buffer's dimensions; `Rendering.CastInBounds` states what it means for cast `i32` coordinates |
| RenderUtils.IdxDivMod | mesh/src/render_utils.rs:106-113 | storage is row-major over the inverted rows: index div width is the stored row, index mod width is x |
| RenderUtils.IdxInjective | mesh/src/render_utils.rs:101-113 | distinct in-bounds pixels have distinct storage indices |
| RenderUtils.IdxCovers | mesh/src/render_utils.rs:101-113 | every storage index is the index of some in-bounds pixel |
| RenderUtils.Frame.Set | mesh/src/render_utils.rs:62-73 | depth test: the stored depth becomes the minimum, the colour is written unless the stored depth is strictly nearer, and every other pixel is unchanged |
| RenderUtils.Frame.Clear | mesh/src/render_utils.rs:95-98 | clearing gives the fresh buffer: every pixel the background colour, every depth 1e12 |
| RenderUtils.ClearIsIdempotent | mesh/src/render_utils.rs:95-98 | clearing twice is the same as clearing once |
| RenderUtils.NearerWriteWinsAndTiesGoToLater | mesh/src/render_utils.rs:62-73 | a farther write after a nearer one leaves the nearer colour, and at equal depth the later write wins |
| RenderUtils.SetCommutes | mesh/src/render_utils.rs:62-73 | writes to different pixels, or at different depths, commute |
| RenderUtils.StoredDepthIsMinimum | mesh/src/render_utils.rs:62-73 | after any sequence of writes, each stored depth is the minimum of the initial depth and the depths written there |
| RenderUtils.Buffer.constructor | mesh/src/render_utils.rs:58-60 | the new buffer holds the fresh frame: background colour, depth 1e12 |
| RenderUtils.Buffer.Set | mesh/src/render_utils.rs:62-73 | the arrays afterwards hold exactly `Frame.Set` of the old frame |
| RenderUtils.Buffer.Clear | mesh/src/render_utils.rs:95-98 | the arrays afterwards hold exactly the cleared frame |
| RenderUtils.Buffer.HalfWidth | mesh/src/render_utils.rs:91-93 | half the width as a float; `Rendering.Renderer.constructor` states that the projection scale maps the half field of view onto it |
| RenderUtils.Buffer.HalfHeight | mesh/src/render_utils.rs:87-89 | half the height as a float, the vertical screen centre; `Rendering.ViewToScreenSolves` states that projected rows are measured from it, with the scene carrying the buffer's height |
| RenderUtils.Camera.constructor | mesh/src/render_utils.rs:123-125 | the camera starts at the given position with zero rotation |
| RenderUtils.Camera.RotateHorizontal | mesh/src/render_utils.rs:127-129 | adds the angle to the y rotation only; the position is unchanged |
| RenderUtils.Camera.RotateVertical | mesh/src/render_utils.rs:131-133 | adds the angle to the z rotation only; the position is unchanged |
| Textures.BuildFromImage | mesh/src/texture.rs:15-26 | texel k is built from bytes 3k, 3k+1 and 3k+2 of the decoded image, in order, and the dimensions are kept |
| Textures.TexelsOf | mesh/src/texture.rs:20-23 | one colour per three bytes of the decoded image; `TexelsOfIndex` states which bytes make texel k |
| Textures.TexelsOfIndex | mesh/src/texture.rs:15-26 | there is one texel per three bytes, and texel k comes from bytes 3k..3k+2 |
| Textures.DecodedImageIsWellFormed | mesh/src/texture.rs:15-26 | an image of width × height pixels gives one whole-byte texel per cell |
| Textures.SatUsize | mesh/src/texture.rs:44-53 | the float-to-`usize` cast truncates in range, gives 0 at or below 0 and `usize::MAX` at or above it |
| Textures.TexelCoord | mesh/src/texture.rs:44-53 | the clamped texel coordinate is always a valid cell |
| Textures.TexelCoordSelectsCell | mesh/src/texture.rs:44-53 | a coordinate in [0, 1) selects the cell it falls in, at or above 1 the last cell, at or below 0 the first |
| Textures.TexelCoordMonotone | mesh/src/texture.rs:44-53 | texel selection is monotone in the coordinate |
| Textures.Idx | mesh/src/texture.rs:44-58 | the lookup index is in bounds; divided by the width it gives the selected texel row, and its remainder is the selected texel column |
| Textures.InBounds | mesh/src/texture.rs:55-58 | `inbounds`: both texel coordinates below the texture's dimensions; `Textures.Idx` states that every lookup's texel coordinates meet it |
| Textures.GetTexture | mesh/src/texture.rs:28-31 | the sample is always one of the texture's texels |
| Textures.SampleIsNearestTexel | mesh/src/texture.rs:28-53 | for coordinates in [0, 1) the sample is the texel in row floor(v·h) and column floor(u·w) |
| Geometry.SortVertsVertical | mesh/src/geometry.rs:58-71 | the result is sorted by height and is a permutation of the vertices |
| Geometry.SortKeepsSorted | mesh/src/geometry.rs:58-71 | sorting an already sorted triangle leaves it unchanged |
| Geometry.InterpolateDepthLinear | mesh/src/geometry.rs:89-92 | the weighted sum of the vertex depths; `InterpolationAtVertices` and `InterpolationOfFlatTriangle` state its values |
| Geometry.InterpolateDepthNonlinear | mesh/src/geometry.rs:94-97 | the reciprocal of the weighted sum of reciprocal depths; `NonlinearDepthAtVertices` and `InterpolationOfFlatTriangle` state its values |
| Geometry.InterpolateTexU | mesh/src/geometry.rs:99-101 | the weighted sum of the vertices' u coordinates; `InterpolationAtVertices` states its vertex values |
| Geometry.InterpolateTexV | mesh/src/geometry.rs:103-105 | the weighted sum of the vertices' v coordinates; `InterpolationAtVertices` states its vertex values |
| Geometry.InterpolationAtVertices | mesh/src/geometry.rs:73-105 | at a vertex's unit weight, linear depth, texture coordinates and colour channels all give that vertex's values |
| Geometry.RedOrdered | mesh/src/geometry.rs:73-75 | the red channel of the three vertices as a vector; `InterpolationAtVertices` states that its inner product with a vertex's unit weight is that vertex's red |
| Geometry.GreenOrdered | mesh/src/geometry.rs:77-79 | the green channel of the three vertices; `InterpolationAtVertices` states the same for green |
| Geometry.BlueOrdered | mesh/src/geometry.rs:81-83 | the blue channel of the three vertices; `InterpolationAtVertices` states the same for blue |
| Geometry.NonlinearDepthAtVertices | mesh/src/geometry.rs:94-97 | the perspective-correct depth is the vertex depth at a vertex |
| Geometry.InterpolationOfFlatTriangle | mesh/src/geometry.rs:89-97 | on a triangle of constant depth, both interpolations give that depth for weights summing to 1 |
| Geometry.GetNormal | mesh/src/geometry.rs:85-87 | the normalised cross product of the edges b - a and c - a; `SwapFlipsNormal` states how vertex order decides its sign |
| Geometry.SwapFlipsNormal | mesh/src/geometry.rs:85-87 | swapping any two vertices (b and c, a and b, or a and c) negates the edge cross product and reverses the face normal |
| Geometry.MapPos | mesh/src/geometry.rs:107-141 | per-vertex position maps keep texture coordinates and colours |
| Geometry.TriRotationIsPerVertex | mesh/src/geometry.rs:107-135 | rotating a triangle rotates each vertex by the composed rotation, and applying `inv_rot_zyx` to each vertex undoes `rot_xyz` |
| Geometry.TriRotX | mesh/src/geometry.rs:107-111 | rotates each vertex position about x and keeps colours and texture coordinates |
| Geometry.TriRotY | mesh/src/geometry.rs:113-117 | rotates each vertex position about y and keeps colours and texture coordinates |
| Geometry.TriRotZ | mesh/src/geometry.rs:119-123 | rotates each vertex position about z and keeps colours and texture coordinates |
| Geometry.TriRotXyz | mesh/src/geometry.rs:125-129 | x, then y, then z; `TriRotationIsPerVertex` states that it rotates each vertex by `RotXyz` and that `InvRotZyx` brings it back for unit angles |
| Geometry.TriRotZyx | mesh/src/geometry.rs:131-135 | z, then y, then x; `TriRotationIsPerVertex` states that it rotates each vertex by `RotZyx` |
| Geometry.Translate | mesh/src/geometry.rs:137-141 | each vertex moves by exactly the vector, with texture coordinates and colour kept |
| Geometry.TranslateProperties | mesh/src/geometry.rs:137-141 | translating back undoes a translation, and translation keeps the face normal |
| Geometry.LumpedLeft | mesh/src/geometry.rs:143-147 | the screen-space cross term is at most zero; `LumpedCover` and `LumpedSwap` state its relation to `LumpedRight` |
| Geometry.LumpedRight | mesh/src/geometry.rs:149-153 | the screen-space cross term is at least zero; `LumpedCover` and `LumpedSwap` state its relation to `LumpedLeft` |
| Geometry.LumpedCover | mesh/src/geometry.rs:143-153 | every triangle is lumped left or right, and both exactly when its screen-space cross term is zero |
| Geometry.LumpedSwap | mesh/src/geometry.rs:143-153 | swapping the last two vertices exchanges lumped-left for lumped-right |
| Geometry.BehindView | mesh/src/geometry.rs:155-157 | some vertex has z below 0.1; `BehindViewIsAboutVertices` states that vertex order does not matter |
| Geometry.BehindViewIsAboutVertices | mesh/src/geometry.rs:155-157 | a triangle is behind the view exactly when some vertex is nearer than 0.1, independent of vertex order |
| Geometry.Den | mesh/src/geometry.rs:294 | the barycentric denominator; `BarycentricCons` stores its inverse and `CoordsUnique` needs it non-zero |
| Geometry.BarycentricCons | mesh/src/geometry.rs:290-308 | the stored inverse denominator is the inverse of the triangle's denominator |
| Geometry.CoordsAt | mesh/src/geometry.rs:310-318 | barycentric weights always sum to 1 |
| Geometry.GetCoords | mesh/src/geometry.rs:310-318 | integer pixel weights always sum to 1 |
| Geometry.CoordsAtVertices | mesh/src/geometry.rs:290-318 | the weights at each vertex are that vertex's unit vector |
| Geometry.CoordsReconstructPoint | mesh/src/geometry.rs:290-318 | the weighted sum of the vertices is the point the weights were computed for |
| Geometry.CoordsUnique | mesh/src/geometry.rs:290-318 | for a non-degenerate triangle, weights summing to 1 are recovered exactly from the point they combine, so barycentric weights are unique |
| Geometry.InteriorWeights | mesh/src/geometry.rs:310-318 | at a point where all three weights are positive, each weight lies strictly between 0 and 1 |
| Geometry.Mesh.constructor | mesh/src/geometry.rs:168-170 | the mesh keeps its triangles, centre and texture, with zero rotation |
| Geometry.Mesh.RotateX | mesh/src/geometry.rs:264-266 | adds the angle to the x rotation only |
| Geometry.Mesh.RotateY | mesh/src/geometry.rs:268-270 | adds the angle to the y rotation only |
| Geometry.Mesh.RotateZ | mesh/src/geometry.rs:272-274 | adds the angle to the z rotation only |
| MeshLoader.ResolveRef | mesh/src/geometry.rs:230-242 | resolves one `v/vt` reference or fails with the error the source would panic with; `ResolveRefIsOneBased` states when and to what |
| MeshLoader.ResolveRefIsOneBased | mesh/src/geometry.rs:231-242 | an OBJ reference resolves exactly when its 1-based indices are non-zero and in range, to the vertex and texture coordinate at index - 1, and to texture coordinate (0, 0) when it has none |
| MeshLoader.ResolveFace | mesh/src/geometry.rs:228-243 | a resolved face has one corner per reference |
| MeshLoader.ResolveFaceElementwise | mesh/src/geometry.rs:228-243 | a face resolves exactly when each of its references does, corner k being reference k resolved |
| MeshLoader.ResolveFailsFrom | mesh/src/geometry.rs:228-243 | the first failing reference decides the error of the face |
| MeshLoader.Fan | mesh/src/geometry.rs:245-255 | the fan triangulation of a face; `FanShape` states its size and triangles |
| MeshLoader.FanShape | mesh/src/geometry.rs:245-255 | an n-gon gives n - 2 triangles, triangle k being (0, k+1, k+2), all white |
| MeshLoader.StepLine | mesh/src/geometry.rs:216-258 | one line of the reading loop; `StepLineExtends` states that it only appends |
| MeshLoader.Load | mesh/src/geometry.rs:210-259 | the whole reading loop, stopping at the first error; `LoadTris`, `LoadFailsFrom` and `LoadedTrianglesComeFromLists` state its results |
| MeshLoader.StepLineExtends | mesh/src/geometry.rs:216-258 | a line that reads successfully keeps the old vertex, texture-coordinate and triangle lists as prefixes of the new ones, so every reference that resolved before resolves to the same corner after |
| MeshLoader.LoadExtends | mesh/src/geometry.rs:210-259 | when a file loads, every prefix of it loads too, to lists that are prefixes of the final ones |
| MeshLoader.LoadedTrianglesComeFromLists | mesh/src/geometry.rs:204-262 | every loaded triangle corner is a listed vertex and texture coordinate |
| MeshLoader.FaceTrianglesComeFromLists | mesh/src/geometry.rs:245-255 | the triangles of a face are built from the listed vertices |
| MeshLoader.LoadFailsFrom | mesh/src/geometry.rs:204-262 | once a prefix of the file fails, the whole load fails with the same error |
| MeshLoader.LoadTris | mesh/src/geometry.rs:204-262 | the loop succeeds exactly when the line-by-line load does, with its triangles or its error |
| MeshLoader.ResolveCorners | mesh/src/geometry.rs:228-243 | the loop over a face's references computes the face's resolution |
| MeshLoader.FanTris | mesh/src/geometry.rs:245-255 | the triangulating loop computes the fan |
| MeshLoader.BuildFromFileExtended | mesh/src/geometry.rs:204-262 | a mesh is built exactly when the file loads, with the loaded triangles, the texture, centre zero and rotation zero |
| EdgeTracing.CeilToI32 | mesh/src/renderer.rs:214-216 | `ceil() as i32` lands in the `i32` range and is the ceiling for in-range values |
| EdgeTracing.ErrorCountsSteps | mesh/src/renderer.rs:242-259 | the Bresenham error term equals the deltas plus the steps taken on each axis weighted by the other delta |
| EdgeTracing.Init | mesh/src/renderer.rs:214-240 | the tracer's first state; `InitInv` states its invariant and `InitBounded` that its coordinates fit `i32` |
| EdgeTracing.StepOnce | mesh/src/renderer.rs:242-259 | one Bresenham step; `StepOnceProgress` states its progress and invariant |
| EdgeTracing.StepConstantFrom | mesh/src/renderer.rs:261-267 | stepping while still on the starting row keeps the invariant and the endpoints, never moves away from the target, and ends one row on or with None at the target |
| EdgeTracing.InitInv | mesh/src/renderer.rs:214-240 | a new tracer satisfies the tracer invariant, with dx ≥ 0 ≥ dy and error dx + dy |
| EdgeTracing.StepOnceProgress | mesh/src/renderer.rs:242-259 | `step_once` returns None exactly at the target and then changes nothing; otherwise it moves one unit along one axis toward the target, decreases the distance by one and keeps the invariant |
| EdgeTracing.StepConstant | mesh/src/renderer.rs:261-267 | `step_constant` advances exactly one row or reaches the target; it keeps the invariant and strictly approaches the target |
| EdgeTracing.StepConstantExample | mesh/src/renderer.rs:261-267 | a vertical edge from (0,0) to (0,5) first yields (0,1) |
| EdgeTracing.InitBounded | mesh/src/renderer.rs:214-240 | a new tracer's current point and target, and their sums with the deltas, lie in the `i32` range |
| EdgeTracing.CurrentInRange | mesh/src/renderer.rs:242-267 | under the invariant and those bounds, the current point is an `i32` pair |
| EdgeTracing.StepConstantStaysBetween | mesh/src/renderer.rs:261-267 | a row step lands on a row between the current row and the target row, and only when they differ |
| EdgeTracing.Walk | mesh/src/renderer.rs:242-259 | the points stepped through number exactly the distance, and the walk ends at the target |
| EdgeTracing.WalkStep | mesh/src/renderer.rs:242-259 | a walk with ground left starts with the point `step_once` returns and goes on as the walk from the state after it |
| EdgeTracing.EdgeTracer.constructor | mesh/src/renderer.rs:214-240 | the tracer starts in the initial state, which satisfies the invariant |
| EdgeTracing.EdgeTracer.StepOnceMut | mesh/src/renderer.rs:242-259 | the fields and result are exactly `StepOnce` of the old state |
| EdgeTracing.EdgeTracer.StepConstantMut | mesh/src/renderer.rs:261-267 | the fields and result are exactly `StepConstant` of the old state |
| Rendering.TransformTri | mesh/src/renderer.rs:139-144 | model rotation, camera translation, mesh centre, then rotation by the negated camera angles, z then y then x; `TransformTriPerVertex` states that it acts per vertex |
| Rendering.TransformTriPerVertex | mesh/src/renderer.rs:139-144 | the camera-space transform acts on each vertex separately |
| Rendering.ViewToScreen | mesh/src/renderer.rs:197-202 | the projected depth is the camera-space depth |
| Rendering.ViewToScreenSolves | mesh/src/renderer.rs:197-202 | screen offsets from the centre times depth are the lateral coordinates times the scale, with y flipped |
| Rendering.ViewToScreenIsPerspective | mesh/src/renderer.rs:197-202 | scaling a point along its ray does not move its projection |
| Rendering.ScreenPos | mesh/src/renderer.rs:130-137 | the projected point is clamped onto the screen and keeps the depth |
| Rendering.TransformToScreen | mesh/src/renderer.rs:130-137 | projecting a triangle keeps texture coordinates and colours |
| Rendering.BehindViewIsNearClip | mesh/src/renderer.rs:93-119 | the screen-space behind-view test is a test of camera-space depths against 0.1 |
| Rendering.InitializeTriangleRender | mesh/src/renderer.rs:93-119 | the cull gate and screen projection; `InitializeTriangleRenderGates` states when it keeps a triangle and what it returns |
| Rendering.InitializeTriangleRenderGates | mesh/src/renderer.rs:93-119 | a triangle is culled exactly when it faces away beyond 20 % or crosses the near plane; a kept one is sorted, lit at least 0.15 and on screen |
| Rendering.OnScreenIsAboutVertices | mesh/src/renderer.rs:93-119 | sorting the vertices keeps a triangle on screen |
| Rendering.CastInBounds | mesh/src/renderer.rs:146-178 | the wrapping `as usize` cast is in bounds exactly when the `i32` coordinates are, and then is the identity |
| Rendering.AsUsize | mesh/src/renderer.rs:155 | `x as usize` on an `i32`: the two's-complement reinterpretation; `CastInBounds` and `CastExact` state that a cast coordinate is in bounds exactly when the `i32` is, and then equals it |
| Rendering.PixelColor | mesh/src/renderer.rs:159-173 | the texel under the interpolated texture coordinates, or the weighted vertex colours, attenuated by the lighting |
| Rendering.PixelDepth | mesh/src/renderer.rs:174 | the perspective-correct depth at the pixel's weights |
| Rendering.WritePixel | mesh/src/renderer.rs:146-178 | one pixel write changes only its own pixel and never raises a depth |
| Rendering.FillRowNoFarther | mesh/src/renderer.rs:146-178 | filling a span never raises any stored depth |
| Rendering.FillRow | mesh/src/renderer.rs:146-178 | the span fill of one row; it keeps the frame's shape |
| Rendering.FillRowReaches | mesh/src/renderer.rs:146-178 | every on-buffer column from the span's start to its end is written: its stored depth ends at most at the pixel's depth d, and where the old depth was at least d it ends exactly d with the pixel in the fragment's colour (`Painted`) |
| Rendering.CastExact | mesh/src/renderer.rs:155 | a cast coordinate between the `i32` minimum and the plane size is in bounds only as itself |
| Rendering.WritePixelKeeps | mesh/src/renderer.rs:146-178 | writing any pixel of the same triangle keeps another pixel at depth d or more, and painted with its fragment, if it was |
| Rendering.FillRowKeeps | mesh/src/renderer.rs:146-178 | a span fill of the same triangle on any row keeps a pixel at depth d or more, and painted, if it was |
| Rendering.FillRowTail | mesh/src/renderer.rs:146-178 | past an on-buffer first column the fill goes on from the frame with that column written, and every other pixel unchanged |
| Rendering.FillRowSkip | mesh/src/renderer.rs:146-178 | while the columns before k are on the buffer, the fill reaches column k: it equals the fill from k over a frame with the earlier columns written, which still holds pixel k as it was |
| Rendering.FillRowRows | mesh/src/renderer.rs:146-178 | a span fill changes only its own row |
| Rendering.FillRowFrame | mesh/src/renderer.rs:146-178 | a span fill touches only pixels of its own row between its ends, and nothing when it starts off screen |
| Rendering.TraceFillLoop | mesh/src/renderer.rs:121-128 | the `while let` over both tracers' row steps; it keeps the frame's shape, and `TraceFillLoopReaches` states that it fills every span of `Spans` |
| Rendering.TraceFillLoopNoFarther | mesh/src/renderer.rs:121-128 | tracing both edges and filling between them never raises a depth |
| Rendering.TraceFillLoopRows | mesh/src/renderer.rs:121-128 | the loop changes only rows between the first tracer's current row and its target row |
| Rendering.TraceAndFill | mesh/src/renderer.rs:121-128 | never raises a depth, changes only rows between the rounded ends of the first edge, and leaves the frame unchanged for a zero barycentric denominator; `TraceAndFillReaches` states that otherwise it fills every span between the edges |
| Rendering.Spans | mesh/src/renderer.rs:121-128 | the spans the loop fills, one per lockstep row step of both tracers while both give a point, from the first tracer's column to the second's; there are at most as many as the first tracer's distance |
| Rendering.TraceFillLoopReaches | mesh/src/renderer.rs:121-128 | every covered pixel of every span (on the buffer, the span's columns up to it on the buffer, with depth d) ends with a stored depth of at most d; when both edges stay within `i32` and the old depth was at least d, it ends exactly d in the fragment's colour |
| Rendering.TraceFillLoopPaints | mesh/src/renderer.rs:121-128 | along confined edges, a covered pixel whose old depth was at least its fragment's ends painted with that fragment |
| Rendering.TraceFillLoopKeeps | mesh/src/renderer.rs:121-128 | the row-by-row fill of the same triangle keeps a pixel at depth d or more, and painted, if it was |
| Rendering.TraceFillTailKeeps | mesh/src/renderer.rs:121-128 | past a first span the fill goes on from a frame which, along confined edges, keeps a pixel at depth d or more |
| Rendering.FirstRowInRange | mesh/src/renderer.rs:121-128 | the first row two confined edges fill lies within `i32`, and the edges stay confined |
| Rendering.TraceFillLoopReachesFirst | mesh/src/renderer.rs:121-128 | the first span's covered pixels end at most at their depth, the later rows never make them farther, and along confined edges they end painted where nothing nearer was stored |
| Rendering.TraceAndFillReaches | mesh/src/renderer.rs:121-128 | for a non-zero barycentric denominator, every covered pixel of the spans between the two edges ends at most at its depth d, and where the old depth was at least d it ends exactly d in the fragment's colour |
| Rendering.TraceAndFillKeeps | mesh/src/renderer.rs:121-128 | `trace_and_fill` of the same triangle between any two edges keeps a pixel at depth d or more, and painted, if it was |
| Rendering.TwoFillsReach | mesh/src/renderer.rs:79-91 | two `trace_and_fill` calls in a row reach every covered pixel of both span lists, and paint it with its fragment where nothing nearer was stored, even on the row both halves share |
| Rendering.RenderTriangleReaches | mesh/src/renderer.rs:79-91 | for a kept triangle with non-zero screen area, every covered pixel of both halves' spans ends at most at the triangle's depth d there, and where the old depth was at least d it ends exactly d with the triangle's lit, textured or interpolated colour |
| Rendering.RenderTriangle | mesh/src/renderer.rs:79-91 | a culled triangle leaves the frame unchanged; `RenderTriangleReaches` states that a kept one is filled |
| Rendering.RenderTriangleNoFarther | mesh/src/renderer.rs:79-91 | rendering a triangle never raises a depth |
| Rendering.RenderTriangleRows | mesh/src/renderer.rs:79-91 | rendering a kept triangle changes only rows between its lowest and highest vertex, rounded up |
| Rendering.ZeroAreaTriangleIsKept | mesh/src/renderer.rs:93-137 | a triangle that faces the camera, lies past the near plane and projects wholly left of the buffer passes the gate, and its clamped screen image has barycentric denominator 0 |
| Rendering.SliverPassesGates | mesh/src/renderer.rs:93-119 | a sliver in camera space faces the camera, lies past the near plane and projects left of the buffer in the sliver scene |
| Rendering.SliverCamera | mesh/src/renderer.rs:139-144 | the identity camera maps a sliver to a sliver |
| Rendering.SliverMeetsConditions | mesh/src/renderer.rs:93-144 | the camera image of any sliver meets the three conditions of `ZeroAreaTriangleIsKept` |
| Rendering.SliverIsKept | mesh/src/renderer.rs:93-137 | every sliver is kept by the gate with a zero barycentric denominator |
| Rendering.SliverExampleIsKept | mesh/src/renderer.rs:93-137 | the sliver (1, -100, 0), (1, -101, 0), (1, -100, 1) in a 10 × 10 view is kept with a zero denominator |
| Rendering.ZeroAreaTriangleDrawsNothing | mesh/src/renderer.rs:79-128 | a kept triangle of zero screen area leaves the frame unchanged |
| Rendering.RenderTris | mesh/src/renderer.rs:36-40 | every mesh triangle rendered in order; it keeps the frame's shape, and `RenderTrisReaches` states that every pixel's final depth is no farther than any fragment drawn there |
| Rendering.RenderTrisStep | mesh/src/renderer.rs:36-40 | rendering one more triangle renders it over the previous ones |
| Rendering.RenderTrisNoFarther | mesh/src/renderer.rs:36-40 | rendering a whole mesh never raises a depth |
| Rendering.RenderTrisReaches | mesh/src/renderer.rs:36-40 | after the whole mesh, every covered pixel of every kept triangle with non-zero screen area holds a depth no farther than that triangle's depth there; it does not name the final colour, which belongs to whichever fragment won the depth test (`RenderTriangleReaches` gives it for one triangle) |
| Rendering.DrawWalk | mesh/src/renderer.rs:180-189 | the `while let` over `step_once`, writing each point at depth 1.0 until the walk ends or leaves the buffer; it keeps the frame's shape, and `DrawWalkReaches` states that every point of `Walk` is drawn while the buffer lasts |
| Rendering.DrawWalkDepths | mesh/src/renderer.rs:180-189 | a line walk never covers a pixel nearer than 1.0, and each depth it leaves is the old one or 1.0 |
| Rendering.DrawWalkKeepsLinePixel | mesh/src/renderer.rs:180-189 | a pixel already at depth 1.0 in the line's colour keeps both through the rest of the walk |
| Rendering.DrawWalkReaches | mesh/src/renderer.rs:180-189 | when `Walk` points 0 to k lie on the buffer, point k ends at depth at most 1.0, and where nothing nearer than 1.0 was stored, at depth 1.0 in the line's colour |
| Rendering.DrawWalkReachesFirst | mesh/src/renderer.rs:180-189 | the first point of the walk is drawn in that sense |
| Rendering.WalkTailOnBuffer | mesh/src/renderer.rs:180-189 | past the first point the walk goes on from the frame with that point drawn; a pixel at depth 1.0 or more stays so |
| Rendering.DrawLine | mesh/src/renderer.rs:180-189 | the walk from the rounded start to the rounded end at depth 1.0; it keeps the frame's shape, and `DrawLineReaches` states which pixels it draws |
| Rendering.DrawLineDepths | mesh/src/renderer.rs:180-189 | a line never covers a pixel nearer than 1.0, and each depth it leaves is the old one or 1.0 |
| Rendering.DrawLineReaches | mesh/src/renderer.rs:180-189 | the line draws each of its points while the buffer lasts, as `DrawWalkReaches` states |
| Rendering.LaterLineKeeps | mesh/src/renderer.rs:180-189 | a later line keeps a depth of at most 1.0, and a pixel at 1.0 in its colour keeps both |
| Rendering.ThreeLinesReach | mesh/src/renderer.rs:42-52 | three lines drawn in a row in one colour each reach their on-buffer points |
| Rendering.WireEdges | mesh/src/renderer.rs:46-49 | the three edges a-b, a-c, c-b in drawing order |
| Rendering.WireTriangleReaches | mesh/src/renderer.rs:42-52 | for a kept triangle, every on-buffer point of each edge ends at depth at most 1.0, and where nothing nearer than 1.0 was stored, in the lit wire colour |
| Rendering.WireTriangleKeeps | mesh/src/renderer.rs:42-52 | a wireframe triangle keeps a depth of at most 1.0 |
| Rendering.WireTrisReaches | mesh/src/renderer.rs:42-52 | after the whole wireframe every on-buffer edge point of every kept triangle holds depth at most 1.0 (a later triangle may recolour it) |
| Rendering.WireTriangle | mesh/src/renderer.rs:42-52 | a culled triangle draws no wireframe; `WireTriangleReaches` states that a kept one's three edges are drawn |
| Rendering.WireTris | mesh/src/renderer.rs:42-52 | every triangle's wireframe drawn in order; it keeps the frame's shape, and `WireTrisReaches` states that every kept edge point ends at depth at most 1.0 |
| Rendering.Renderer.constructor | mesh/src/renderer.rs:26-34 | the light vector is the normalised (-3, 1, -4) and the scale times `tan` of the converted half-FOV is half the width |
| Rendering.Renderer.FillEdgeTrace | mesh/src/renderer.rs:146-178 | the buffer afterwards holds `FillRow` of the old frame |
| Rendering.Renderer.TraceAndFillMut | mesh/src/renderer.rs:121-128 | the buffer afterwards holds `TraceAndFill` of the old frame |
| Rendering.Renderer.RenderTriangleMut | mesh/src/renderer.rs:79-91 | the buffer afterwards holds `RenderTriangle` of the old frame |
| Rendering.Renderer.RenderMesh | mesh/src/renderer.rs:36-40 | the buffer afterwards holds every mesh triangle rendered in order over the old frame |
| Rendering.Renderer.DrawLineScreen | mesh/src/renderer.rs:180-189 | the buffer afterwards holds `DrawLine` of the old frame |
| Rendering.Renderer.RenderWireframe | mesh/src/renderer.rs:42-52 | the buffer afterwards holds every kept triangle's three edges drawn in order over the old frame |

## Left out

- Window, event loop, keyboard and mouse handling (`main.rs`, `utils.rs`): I/O outside the rasterizer core.
- `Renderer::render_refframe` (renderer.rs:54-77), `Renderer::draw_line_world` (renderer.rs:191-195) and `RefFrame`: the debug axis overlay. It rotates the three axis arms by `rot_zyx` with the negated camera rotation and then with the mesh rotation. It moves the frame centre by minus the camera position and adds that centre to each arm. It draws each arm in red, green or blue through `draw_line_world`, which projects both ends with `view_to_screen` and calls `draw_line_screen`. The overlay is a debugging aid; the operations it is built from (`RotZyx`, `ViewToScreen`, `DrawLine`) are modelled.
- `Mesh::build_from_file` (geometry.rs:172-202), the older loader, superseded by the extended one. It reads `v` lines and, for an `f` line, only tokens 1 to 3, each parsed as a plain integer, so a `v/vt` token panics. It builds one triangle per face with no fan, through `Tri::cons_pos`, which colours the vertices red, green and blue (geometry.rs:46-52), and it attaches no texture.
- Reading files and decoding images: the model starts from tokenised OBJ lines and decoded RGB8 bytes. A malformed number in the file panics in the source and is not modelled.
- `Floatify`, `Vec2u`, `Vec3i`, `Vec2i` addition and subtraction, and `Color::as_vec3f`: helpers the modelled code does not depend on.
- `Buffer::get_pixels`, `get_height` and `get_width`: plain accessors, represented by `Buffer.View()`.
- `Scene` (`render_utils.rs:136-144`): a placeholder with no behaviour. `Rendering.Scene` is a different value: the renderer's read-only inputs bundled together.
- IEEE `f32` rounding, NaN and infinity: all arithmetic is exact over the reals.
- `i32` overflow in the edge tracer's arithmetic: not modelled. Coordinates come from the saturating `ceil() as i32` cast.
- VecMath.NormalizeUnit: assumes an exact square root, because `sqrt` is a parameter.
- VecMath.InvRotUndoesRot: holds only when `sin² + cos² = 1` exactly, because `sin_cos` is a parameter.
- Rendering.Renderer.constructor: requires that `tan` of the converted half-FOV is non-zero, because the source divides by it and the resulting infinity is not modelled.
- Geometry.NonlinearDepthAtVertices: requires all three depths to be non-zero, because in IEEE arithmetic `inf * 0` is NaN at the other vertices.
- Rendering.TraceAndFill: a triangle with a zero denominator is left unfilled. The source writes pixels whose weights are NaN or infinite; see "## Findings".
- Textures.Texture.Sampleable: a texture of width and height at least 1, required by `Textures.Idx`, `Textures.GetTexture`, `Rendering.SceneOk` and the `Renderer` constructor, because `idx` computes `width - 1` and `height - 1` (texture.rs:45-46), which underflows on an empty texture.
- Textures.BuildFromImage: requires `|data| % 3 == 0`, because on a trailing chunk of fewer than three bytes `window[2]` (texture.rs:21-22) panics.
- VecMath.Clamp: requires `lo <= hi`, because `f32::clamp` panics otherwise; `VecMath.ClampXY` requires the same of both ranges.
- Rendering.ZeroAreaTriangleIsKept: the input is stated in camera space; `Rendering.SliverMeetsConditions` connects it to a model-space sliver under the identity camera, with `sin 0 = 0`, `cos 0 = 1` and `sqrt(1) >= 0` as hypotheses on the platform functions.
- RenderUtils.Buffer.constructor: requires `width * height <= MAX_PLANE_LEN` (2^61 - 1). Beyond that `vec![..; width * height]` (render_utils.rs:59) panics with a capacity overflow, and a `usize` product that wraps is not modelled.
- Rendering.PixelDepth: drops the write when the interpolated reciprocal depths sum to zero. The source writes an infinite depth, which the depth test then discards.

## Findings

| source | as written | input that shows it | evidently intended | confidence | as-written member | corrected member |
|---|---|---|---|---|---|---|
| mesh/src/renderer.rs:121-128 | `trace_and_fill` builds the barycentric system with `1. / den` (geometry.rs:294-295) and never checks `den`. The gate (renderer.rs:93-119) keeps a front-facing triangle past the near plane even when its projection lies wholly left of the buffer, and `transform_to_screen` (renderer.rs:130-137) then clamps all three vertices onto column 0, so `den` is 0. The weights become `0 * inf = NaN`, `depth < NaN` is false in `Buffer::set` (render_utils.rs:62-73), and the row is written in black (`NaN as u32` is 0) with NaN depths. | the sliver (1, -100, 0), (1, -101, 0), (1, -100, 1) in a 10 × 10 view at scale 1, with the identity camera | a triangle with no screen area draws nothing | not executed | Rendering.SliverExampleIsKept | Rendering.ZeroAreaTriangleDrawsNothing |
