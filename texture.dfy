/**
 * Textures (mesh/src/texture.rs): a row-major grid of colours sampled by
 * nearest texel from texture coordinates in [0, 1].
 */
module Textures {
  import opened RenderUtils

  type U8 = x: int | 0 <= x < 0x100

  /** The largest `usize`. */
  const USIZE_MAX: nat := 0xffff_ffff_ffff_ffff

  datatype Texture = Texture(height: nat, width: nat, texels: seq<Color>) {

    /** One texel per grid cell. */
    predicate WellFormed() {
      |texels| == width * height
    }

    /** Sampling needs a non-empty grid: `width - 1` underflows otherwise. */
    predicate Sampleable() {
      WellFormed() && width >= 1 && height >= 1
    }
  }

  /** The texel colours of raw RGB bytes, three bytes per texel, in order. */
  function TexelsOf(data: seq<U8>): seq<Color>
    requires |data| % 3 == 0
    decreases |data|
  {
    if data == [] then []
    else [FromInts(data[0], data[1], data[2])] + TexelsOf(data[3..])
  }

  /** Texel k of raw bytes is built from bytes 3k, 3k+1, 3k+2, and there is
      one texel per three bytes. */
  lemma {:induction false} TexelsOfIndex(data: seq<U8>)
    requires |data| % 3 == 0
    ensures |TexelsOf(data)| == |data| / 3
    ensures forall k :: 0 <= k < |data| / 3 ==>
      TexelsOf(data)[k] == FromInts(data[3 * k], data[3 * k + 1], data[3 * k + 2])
    decreases |data|
  {
    if data != [] {
      var rest := data[3..];
      TexelsOfIndex(rest);
      forall k | 0 <= k < |data| / 3
        ensures TexelsOf(data)[k] == FromInts(data[3 * k], data[3 * k + 1], data[3 * k + 2])
      {
        if k > 0 {
          assert TexelsOf(data)[k] == TexelsOf(rest)[k - 1];
          assert rest[3 * (k - 1)] == data[3 * k];
        }
      }
    }
  }

  /** `build_from_file` after decoding: `data` is the decoded RGB8 image,
      walked three bytes at a time. A trailing chunk shorter than three
      bytes would index out of bounds, so `data` comes in whole texels. */
  method BuildFromImage(width: nat, height: nat, data: seq<U8>) returns (t: Texture)
    requires |data| % 3 == 0
    ensures t.width == width && t.height == height
    ensures t.texels == TexelsOf(data)
  {
    var texels: seq<Color> := [];
    var i := 0;
    while i < |data|
      invariant 0 <= i <= |data| && i % 3 == 0
      invariant |texels| == i / 3
      invariant forall k :: 0 <= k < i / 3 ==>
        texels[k] == FromInts(data[3 * k], data[3 * k + 1], data[3 * k + 2])
    {
      texels := texels + [FromInts(data[i], data[i + 1], data[i + 2])];
      i := i + 3;
    }
    TexelsOfIndex(data);
    t := Texture(height, width, texels);
  }

  /** A decoded image of `width * height` texels gives a well-formed texture
      whose every texel has whole 0..255 channels. */
  lemma DecodedImageIsWellFormed(width: nat, height: nat, data: seq<U8>)
    requires |data| == 3 * (width * height)
    ensures Texture(height, width, TexelsOf(data)).WellFormed()
    ensures forall k :: 0 <= k < |TexelsOf(data)| ==> IsByteColor(TexelsOf(data)[k])
  {
    TexelsOfIndex(data);
  }

  /** Rust's saturating float-to-`usize` cast. */
  function SatUsize(r: real): (n: nat)
    ensures n <= USIZE_MAX
    ensures 0.0 <= r < USIZE_MAX as real ==> n == r.Floor
    ensures r <= 0.0 ==> n == 0
    ensures r >= USIZE_MAX as real ==> n == USIZE_MAX
  {
    if r <= 0.0 then 0
    else if r >= USIZE_MAX as real then USIZE_MAX
    else r.Floor
  }

  /** A texture coordinate measured in texels: `u * size as f32`. */
  function Scaled(u: real, size: nat): real {
    u * size as real
  }

  /** The texel column (or row) of a coordinate: `((u * size) as usize).min(size - 1)`. */
  function TexelCoord(u: real, size: nat): (n: nat)
    requires size >= 1
    ensures n < size
  {
    var s := SatUsize(Scaled(u, size));
    if s < size - 1 then s else size - 1
  }

  /** Inside [0, 1) a coordinate selects the texel it falls in; at or past 1
      it saturates to the last texel, at or below 0 to the first. */
  lemma TexelCoordSelectsCell(u: real, size: nat)
    requires 1 <= size <= USIZE_MAX
    ensures 0.0 <= u < 1.0 ==> TexelCoord(u, size) == Scaled(u, size).Floor
    ensures 0.0 <= u < 1.0 ==> TexelCoord(u, size) as real <= Scaled(u, size) < (TexelCoord(u, size) + 1) as real
    ensures u >= 1.0 ==> TexelCoord(u, size) == size - 1
    ensures u <= 0.0 ==> TexelCoord(u, size) == 0
  {
    if 0.0 <= u < 1.0 {
      Below(u, size);
      FloorBelow(Scaled(u, size), size);
    } else if u >= 1.0 {
      Above(u, size);
    } else {
      NonPos(u, size);
    }
  }

  /** A value inside [0, size) saturates to its own floor, which is a valid cell. */
  lemma FloorBelow(p: real, size: nat)
    requires size <= USIZE_MAX && 0.0 <= p < size as real
    ensures SatUsize(p) == p.Floor < size
  {
  }

  lemma Below(u: real, size: nat)
    requires 0.0 <= u < 1.0 && size >= 1
    ensures 0.0 <= Scaled(u, size) < size as real
  {
    var s := size as real;
    assert s - u * s == (1.0 - u) * s;
  }

  lemma Above(u: real, size: nat)
    requires u >= 1.0 && size >= 1
    ensures Scaled(u, size) >= size as real
  {
    var s := size as real;
    assert u * s - s == (u - 1.0) * s;
  }

  lemma NonPos(u: real, size: nat)
    requires u <= 0.0
    ensures Scaled(u, size) <= 0.0
  {
    var s := size as real;
    assert -(u * s) == (-u) * s;
  }

  /** Texel selection is monotone in the coordinate. */
  lemma TexelCoordMonotone(u1: real, u2: real, size: nat)
    requires size >= 1 && u1 <= u2
    ensures TexelCoord(u1, size) <= TexelCoord(u2, size)
  {
    assert Scaled(u1, size) <= Scaled(u2, size) by {
      assert u2 * size as real - u1 * size as real == (u2 - u1) * size as real;
    }
  }

  /** `inbounds`. */
  predicate InBounds(t: Texture, x: nat, y: nat) {
    x < t.width && y < t.height
  }

  /** `idx`: the storage index of the texel under (u, v), in row-major
      order: its row is the texel row of v and its column the texel column
      of u. */
  function Idx(t: Texture, u: real, v: real): (i: nat)
    requires t.Sampleable()
    ensures InBounds(t, TexelCoord(u, t.width), TexelCoord(v, t.height))
    ensures i < |t.texels|
    ensures i / t.width == TexelCoord(v, t.height) && i % t.width == TexelCoord(u, t.width)
  {
    var nx, ny := TexelCoord(u, t.width), TexelCoord(v, t.height);
    RowMajor(ny, nx, t.width, t.height);
    ny * t.width + nx
  }

  /** `get_texture`: nearest-texel lookup. */
  function GetTexture(t: Texture, u: real, v: real): (c: Color)
    requires t.Sampleable()
    ensures c in t.texels
  {
    t.texels[Idx(t, u, v)]
  }

  /** For coordinates in [0, 1) the sample is the texel in column
      floor(u * width) of row floor(v * height). */
  lemma SampleIsNearestTexel(t: Texture, u: real, v: real)
    requires t.Sampleable() && t.width <= USIZE_MAX && t.height <= USIZE_MAX
    requires 0.0 <= u < 1.0 && 0.0 <= v < 1.0
    ensures GetTexture(t, u, v) == t.texels[Idx(t, u, v)]
    ensures Idx(t, u, v) / t.width == Scaled(v, t.height).Floor
    ensures Idx(t, u, v) % t.width == Scaled(u, t.width).Floor
  {
    var nx, ny := TexelCoord(u, t.width), TexelCoord(v, t.height);
    assert nx == Scaled(u, t.width).Floor by { TexelCoordSelectsCell(u, t.width); }
    assert ny == Scaled(v, t.height).Floor by { TexelCoordSelectsCell(v, t.height); }
  }
}
