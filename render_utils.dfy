/**
 * Colours, their packing into a 32-bit pixel, the framebuffer and the
 * camera (mesh/src/render_utils.rs).
 *
 * A `u32` is an `int` in [0, 2^32); the source's `<<`, `>>`, `& 0xff` and
 * `|` on `u32` are written out arithmetically (BitOr bit by bit), so that
 * the packing is exact for every input, including channels outside 0..255.
 */
module RenderUtils {
  import opened VecMath

  // ---------------------------------------------------------------- u32 arithmetic

  const U32_MODULUS: int := 0x1_0000_0000

  type U32 = x: int | 0 <= x < U32_MODULUS

  function Pow2(k: nat): (r: nat)
    ensures r >= 1
  {
    if k == 0 then 1 else 2 * Pow2(k - 1)
  }

  lemma {:induction false} Pow2Add(a: nat, b: nat)
    ensures Pow2(a + b) == Pow2(a) * Pow2(b)
  {
    if a > 0 {
      Pow2Add(a - 1, b);
      assert Pow2(a + b) == 2 * Pow2(a - 1 + b);
    }
  }

  lemma Pow2Values()
    ensures Pow2(8) == 0x100
    ensures Pow2(16) == 0x1_0000
    ensures Pow2(24) == 0x100_0000
    ensures Pow2(32) == U32_MODULUS
  {
    assert Pow2(2) == 4;
    assert Pow2(4) == 16;
    assert Pow2(6) == 64;
    assert Pow2(8) == 0x100;
    Pow2Add(8, 8);
    Pow2Add(16, 8);
    Pow2Add(16, 16);
  }

  /** `x << k` on a `u32`: bits shifted past bit 31 are lost. */
  function Shl(x: U32, k: nat): U32 {
    (x * Pow2(k)) % U32_MODULUS
  }

  /** `x >> k` on a `u32`. */
  function Shr(x: U32, k: nat): U32 {
    var d := Pow2(k);
    DivShrinks(x, d);
    x / d
  }

  lemma DivShrinks(x: nat, d: nat)
    requires d >= 1
    ensures 0 <= x / d <= x
  {
    var q, r := x / d, x % d;
    assert x == q * d + r;
    MulMono(1, d, q);
  }

  /** `x & 0xff`. */
  function LowByte(x: nat): (r: nat)
    ensures r < 256
  {
    x % 256
  }

  /** Bitwise `|` on naturals, one bit at a time. */
  function BitOr(a: nat, b: nat): nat
    decreases a + b
  {
    if a == 0 then b
    else if b == 0 then a
    else 2 * BitOr(a / 2, b / 2) + (if a % 2 == 1 || b % 2 == 1 then 1 else 0)
  }

  /** Or-ing two k-bit numbers gives a k-bit number. */
  lemma {:induction false} BitOrBound(a: nat, b: nat, k: nat)
    requires a < Pow2(k) && b < Pow2(k)
    ensures BitOr(a, b) < Pow2(k)
    decreases a + b
  {
    if a != 0 && b != 0 {
      assert k > 0;
      BitOrBound(a / 2, b / 2, k - 1);
    }
  }

  /** Or-ing a value shifted left by k with a k-bit value is addition. */
  lemma {:induction false} BitOrShifted(a: nat, b: nat, k: nat)
    requires b < Pow2(k)
    ensures BitOr(a * Pow2(k), b) == a * Pow2(k) + b
  {
    if k == 0 {
      assert b == 0;
    } else if a != 0 && b != 0 {
      var p := Pow2(k - 1);
      assert a * Pow2(k) == 2 * (a * p);
      assert (a * Pow2(k)) / 2 == a * p;
      assert (a * Pow2(k)) % 2 == 0;
      BitOrShifted(a, b / 2, k - 1);
    }
  }

  // ---------------------------------------------------------------- Color

  /** Three channels kept as floats (0..255 for image colours). */
  datatype Color = Color(red: real, green: real, blue: real)

  /** `Color::default()`: white. */
  function Default(): Color {
    Color(255.0, 255.0, 255.0)
  }

  /** `Color::cons` from three integers (`u8` or `Int`). */
  function FromInts(r: int, g: int, b: int): Color {
    Color(r as real, g as real, b as real)
  }

  /** Rust's saturating float-to-`u32` cast: truncation toward zero,
      negative values to 0, values too large to `u32::MAX`. */
  function SatU32(r: real): (n: U32)
    ensures 0.0 <= r < U32_MODULUS as real ==> n == r.Floor
    ensures r < 0.0 ==> n == 0
  {
    if r <= 0.0 then 0
    else if r >= (U32_MODULUS - 1) as real then U32_MODULUS - 1
    else r.Floor
  }

  /** `to_u32`: `(red << 16) | (green << 8) | blue`. */
  function ToU32(c: Color): U32 {
    var r, g, b := Shl(SatU32(c.red), 16), Shl(SatU32(c.green), 8), SatU32(c.blue);
    Pow2Values();
    BitOrBound(r, g, 32);
    BitOrBound(BitOr(r, g), b, 32);
    BitOr(BitOr(r, g), b)
  }

  /** `from_u32`: the three low bytes, high byte first. */
  function FromU32(x: U32): Color {
    Color(LowByte(Shr(x, 16)) as real, LowByte(Shr(x, 8)) as real, LowByte(x) as real)
  }

  /** `attenuate`: scale every channel by the lighting factor. */
  function Attenuate(c: Color, value: real): Color {
    Color(c.red * value, c.green * value, c.blue * value)
  }

  /** A channel holding a whole number in 0..255. */
  predicate IsByte(r: real) {
    0.0 <= r <= 255.0 && r.Floor as real == r
  }

  predicate IsByteColor(c: Color) {
    IsByte(c.red) && IsByte(c.green) && IsByte(c.blue)
  }

  /** For byte channels the packing is the plain sum of shifted bytes. */
  lemma ToU32OfBytes(c: Color)
    requires IsByteColor(c)
    ensures ToU32(c) == c.red.Floor * 0x1_0000 + c.green.Floor * 0x100 + c.blue.Floor
  {
    Pow2Values();
    var R, G, B := c.red.Floor, c.green.Floor, c.blue.Floor;
    assert SatU32(c.red) == R && SatU32(c.green) == G && SatU32(c.blue) == B;
    assert Shl(R, 16) == R * 0x1_0000;
    assert Shl(G, 8) == G * 0x100;
    BitOrShifted(R, G * 0x100, 16);
    assert (R * 0x100 + G) * Pow2(8) == R * 0x1_0000 + G * 0x100;
    BitOrShifted(R * 0x100 + G, B, 8);
  }

  /** Packing then unpacking a colour with byte channels gives it back, and
      the packed value leaves the high byte zero. */
  lemma PackRoundTrip(c: Color)
    requires IsByteColor(c)
    ensures FromU32(ToU32(c)) == c
    ensures ToU32(c) < 0x100_0000
  {
    ToU32OfBytes(c);
    Pow2Values();
    var R, G, B := c.red.Floor, c.green.Floor, c.blue.Floor;
    var x := ToU32(c);
    DivModUnique(x, 0x1_0000, R, G * 0x100 + B);
    DivModUnique(x, 0x100, R * 0x100 + G, B);
    DivModUnique(R * 0x100 + G, 0x100, R, G);
    DivModUnique(R, 0x100, 0, R);
  }

  /** The four bytes of a `u32`, and what `>>` and `& 0xff` read from them. */
  lemma Bytes(x: U32) returns (b3: nat, b2: nat, b1: nat, b0: nat)
    ensures b3 < 0x100 && b2 < 0x100 && b1 < 0x100 && b0 < 0x100
    ensures x == b3 * 0x100_0000 + b2 * 0x1_0000 + b1 * 0x100 + b0
    ensures x % 0x100_0000 == b2 * 0x1_0000 + b1 * 0x100 + b0
    ensures LowByte(Shr(x, 16)) == b2 && LowByte(Shr(x, 8)) == b1 && LowByte(x) == b0
  {
    Pow2Values();
    b0 := x % 0x100;
    var t1 := x / 0x100;
    b1 := t1 % 0x100;
    var t2 := t1 / 0x100;
    b2 := t2 % 0x100;
    b3 := t2 / 0x100;
    assert t2 == b3 * 0x100 + b2;
    assert t1 == t2 * 0x100 + b1;
    assert x == t1 * 0x100 + b0;
    assert t1 < 0x100_0000;
    assert t2 < 0x1_0000;
    assert x == b3 * 0x100_0000 + (b2 * 0x1_0000 + b1 * 0x100 + b0);
    DivModUnique(x, 0x100_0000, b3, b2 * 0x1_0000 + b1 * 0x100 + b0);
    DivModUnique(x, 0x1_0000, t2, b1 * 0x100 + b0);
  }

  /** Unpacking then packing keeps exactly the low three bytes. */
  lemma UnpackRoundTrip(x: U32)
    ensures IsByteColor(FromU32(x))
    ensures ToU32(FromU32(x)) == x % 0x100_0000
  {
    var b3, b2, b1, b0 := Bytes(x);
    var c := FromU32(x);
    assert c == Color(b2 as real, b1 as real, b0 as real);
    ToU32OfBytes(c);
  }

  /** `from_u32` ignores the high byte. */
  lemma UnpackIgnoresHighByte(x: U32)
    ensures FromU32(x) == FromU32(x % 0x100_0000)
  {
    var b3, b2, b1, b0 := Bytes(x);
    var c3, c2, c1, c0 := Bytes(x % 0x100_0000);
    BytesUnique(x % 0x100_0000, c3, c2, c1, c0, 0, b2, b1, b0);
  }

  lemma BytesUnique(x: nat, a3: nat, a2: nat, a1: nat, a0: nat, b3: nat, b2: nat, b1: nat, b0: nat)
    requires a2 < 0x100 && a1 < 0x100 && a0 < 0x100
    requires b2 < 0x100 && b1 < 0x100 && b0 < 0x100
    requires x == a3 * 0x100_0000 + a2 * 0x1_0000 + a1 * 0x100 + a0
    requires x == b3 * 0x100_0000 + b2 * 0x1_0000 + b1 * 0x100 + b0
    ensures a3 == b3 && a2 == b2 && a1 == b1 && a0 == b0
  {
    DivModUnique(x, 0x100, a3 * 0x1_0000 + a2 * 0x100 + a1, a0);
    DivModUnique(x, 0x100, b3 * 0x1_0000 + b2 * 0x100 + b1, b0);
    var t := x / 0x100;
    DivModUnique(t, 0x100, a3 * 0x100 + a2, a1);
    DivModUnique(t, 0x100, b3 * 0x100 + b2, b1);
    var u := t / 0x100;
    DivModUnique(u, 0x100, a3, a2);
    DivModUnique(u, 0x100, b3, b2);
  }

  /** The default colour packs to pure white with a zero high byte. */
  lemma DefaultIsWhite()
    ensures ToU32(Default()) == 0xff_ffff
  {
    ToU32OfBytes(Default());
  }

  /** Attenuating by a factor in [0, 1] keeps each channel within [0, its
      old value]. */
  lemma AttenuateStaysInRange(c: Color, value: real)
    requires 0.0 <= c.red && 0.0 <= c.green && 0.0 <= c.blue
    requires 0.0 <= value <= 1.0
    ensures 0.0 <= Attenuate(c, value).red <= c.red
    ensures 0.0 <= Attenuate(c, value).green <= c.green
    ensures 0.0 <= Attenuate(c, value).blue <= c.blue
  {
    var a := Attenuate(c, value);
    var r, g, b := c.red, c.green, c.blue;
    var pr, pg, pb := r * value, g * value, b * value;
    ScaleDown(r, value);
    ScaleDown(g, value);
    ScaleDown(b, value);
    assert a.red == pr && a.green == pg && a.blue == pb;
  }

  lemma ScaleDown(r: real, v: real)
    requires 0.0 <= r && 0.0 <= v <= 1.0
    ensures 0.0 <= r * v <= r
  {
    assert r - r * v == r * (1.0 - v);
  }

  // ---------------------------------------------------------------- framebuffer

  /** The background colour the planes are filled with. */
  const BACKGROUND: U32 := 0xffbb_bbbb

  /** The "very far" depth the depth plane starts from (`1e12`). */
  const FAR_DEPTH: real := 1000000000000.0

  /** A `Vec<u32>` or `Vec<f32>` cannot hold more than `isize::MAX` bytes,
      so a plane has at most 2^61 - 1 entries of four bytes. */
  const MAX_PLANE_LEN: nat := 0x1FFF_FFFF_FFFF_FFFF

  function Min(a: real, b: real): real {
    if a <= b then a else b
  }

  /** The contents of a `Buffer`: its dimensions and its two planes. */
  datatype Frame = Frame(height: nat, width: nat, pixels: seq<U32>, depth: seq<real>) {

    predicate Valid() {
      |pixels| == width * height && |depth| == width * height && width * height <= MAX_PLANE_LEN
    }

    /** `inbounds`. */
    predicate InBounds(x: nat, y: nat) {
      x < width && y < height
    }

    /** `height_inversion`: row 0 is the bottom of the image. Applied twice
        it gives the row back. */
    function HeightInversion(y: nat): (r: nat)
      requires y < height
      ensures r < height
    {
      height - 1 - y
    }

    /** `idx`: the storage index of an in-bounds pixel. */
    function Idx(x: nat, y: nat): (i: nat)
      requires InBounds(x, y)
      ensures i < width * height
    {
      var row := HeightInversion(y);
      RowMajor(row, x, width, height);
      row * width + x
    }

    /** `set`: the depth-tested write. A stored depth strictly below the
        incoming one blocks the write; otherwise (ties included) both planes
        take the new values. Every other pixel is untouched. */
    function Set(x: nat, y: nat, color: Color, d: real): (r: Frame)
      requires Valid() && InBounds(x, y)
      ensures r.Valid() && r.height == height && r.width == width
      ensures r.depth[Idx(x, y)] == Min(depth[Idx(x, y)], d)
      ensures r.pixels[Idx(x, y)] == if depth[Idx(x, y)] < d then pixels[Idx(x, y)] else ToU32(color)
      ensures forall i :: 0 <= i < |depth| && i != Idx(x, y) ==> r.depth[i] == depth[i] && r.pixels[i] == pixels[i]
    {
      var i := Idx(x, y);
      if depth[i] < d then this
      else this.(depth := depth[i := d], pixels := pixels[i := ToU32(color)])
    }

    /** `clear`: both planes back to their initial fill. */
    function Clear(): (r: Frame)
      requires Valid()
      ensures r == NewFrame(height, width)
    {
      this.(pixels := seq(|pixels|, _ => BACKGROUND), depth := seq(|depth|, _ => FAR_DEPTH))
    }
  }

  /** What `Buffer::cons(height, width)` holds. */
  function NewFrame(height: nat, width: nat): Frame {
    Frame(height, width, seq(width * height, _ => BACKGROUND), seq(width * height, _ => FAR_DEPTH))
  }

  /** Row-major indexing: (row, col) is recovered from `row * width + col`. */
  lemma RowMajor(row: nat, col: nat, width: nat, height: nat)
    requires row < height && col < width
    ensures row * width + col < width * height
    ensures (row * width + col) / width == row && (row * width + col) % width == col
  {
    assert row * width + col < (row + 1) * width;
    assert (row + 1) * width <= height * width by {
      MulMono(row + 1, height, width);
    }
    DivModUnique(row * width + col, width, row, col);
  }

  lemma MulMono(a: nat, b: nat, w: nat)
    requires a <= b
    ensures a * w <= b * w
  {
    assert b * w == a * w + (b - a) * w;
  }

  lemma DivModUnique(i: nat, w: nat, q: nat, r: nat)
    requires r < w && i == q * w + r
    ensures i / w == q && i % w == r
  {
    var q', r' := i / w, i % w;
    assert i == q' * w + r';
    if q' < q {
      MulMono(q' + 1, q, w);
      assert false;
    } else if q < q' {
      MulMono(q + 1, q', w);
      assert false;
    }
  }

  /** Row inversion is its own inverse. */
  lemma HeightInversionInvolutive(f: Frame, y: nat)
    requires y < f.height
    ensures f.HeightInversion(f.HeightInversion(y)) == y
  {
  }

  /** The storage index is row-major: its quotient by the width is the
      stored row and its remainder the column. */
  lemma IdxDivMod(f: Frame, x: nat, y: nat)
    requires f.InBounds(x, y)
    ensures f.Idx(x, y) / f.width == f.HeightInversion(y) && f.Idx(x, y) % f.width == x
  {
    RowMajor(f.HeightInversion(y), x, f.width, f.height);
  }

  /** `idx` is injective over in-bounds pixels. */
  lemma IdxInjective(f: Frame, x1: nat, y1: nat, x2: nat, y2: nat)
    requires f.InBounds(x1, y1) && f.InBounds(x2, y2)
    requires f.Idx(x1, y1) == f.Idx(x2, y2)
    ensures x1 == x2 && y1 == y2
  {
    IdxDivMod(f, x1, y1);
    IdxDivMod(f, x2, y2);
    assert f.HeightInversion(y1) == f.HeightInversion(y2);
  }

  /** Every storage index belongs to exactly one in-bounds pixel. */
  lemma IdxCovers(f: Frame, i: nat)
    requires i < f.width * f.height
    ensures f.width > 0 && f.height > 0
    ensures f.InBounds(i % f.width, f.HeightInversion(i / f.width))
    ensures f.Idx(i % f.width, f.HeightInversion(i / f.width)) == i
  {
    if f.width == 0 || f.height == 0 {
      assert false;
    }
    var row := i / f.width;
    assert i == row * f.width + i % f.width;
    if row >= f.height {
      MulMono(f.height, row, f.width);
      assert false;
    }
  }

  /** Clearing any frame gives the frame a fresh buffer starts with. */
  lemma ClearIsIdempotent(f: Frame)
    requires f.Valid()
    ensures f.Clear().Valid() && f.Clear().Clear() == f.Clear()
  {
  }

  /** Worked example: depth 5 then depth 10 keeps the depth-5 colour;
      depth 5 twice keeps the later colour. */
  lemma NearerWriteWinsAndTiesGoToLater(f: Frame, x: nat, y: nat, c1: Color, c2: Color)
    requires f.Valid() && f.InBounds(x, y) && f.depth[f.Idx(x, y)] >= 5.0
    ensures var g := f.Set(x, y, c1, 5.0).Set(x, y, c2, 10.0);
      g.pixels[f.Idx(x, y)] == ToU32(c1) && g.depth[f.Idx(x, y)] == 5.0
    ensures var g := f.Set(x, y, c1, 5.0).Set(x, y, c2, 5.0);
      g.pixels[f.Idx(x, y)] == ToU32(c2) && g.depth[f.Idx(x, y)] == 5.0
  {
  }

  /** Two writes commute unless they hit the same pixel at the same depth:
      submission order only breaks ties. */
  lemma SetCommutes(f: Frame, x1: nat, y1: nat, c1: Color, d1: real,
                    x2: nat, y2: nat, c2: Color, d2: real)
    requires f.Valid() && f.InBounds(x1, y1) && f.InBounds(x2, y2)
    requires f.Idx(x1, y1) != f.Idx(x2, y2) || d1 != d2
    ensures f.Set(x1, y1, c1, d1).Set(x2, y2, c2, d2) == f.Set(x2, y2, c2, d2).Set(x1, y1, c1, d1)
  {
    var g, h := f.Set(x1, y1, c1, d1).Set(x2, y2, c2, d2), f.Set(x2, y2, c2, d2).Set(x1, y1, c1, d1);
    forall i | 0 <= i < |f.depth|
      ensures g.depth[i] == h.depth[i] && g.pixels[i] == h.pixels[i]
    {
      SetCommutesAt(f, x1, y1, c1, d1, x2, y2, c2, d2, i);
    }
    assert g.depth == h.depth;
    assert g.pixels == h.pixels;
  }

  /** SetCommutes at one storage index. */
  lemma SetCommutesAt(f: Frame, x1: nat, y1: nat, c1: Color, d1: real,
                      x2: nat, y2: nat, c2: Color, d2: real, i: nat)
    requires f.Valid() && f.InBounds(x1, y1) && f.InBounds(x2, y2)
    requires f.Idx(x1, y1) != f.Idx(x2, y2) || d1 != d2
    requires i < |f.depth|
    ensures f.Set(x1, y1, c1, d1).Set(x2, y2, c2, d2).depth[i] == f.Set(x2, y2, c2, d2).Set(x1, y1, c1, d1).depth[i]
    ensures f.Set(x1, y1, c1, d1).Set(x2, y2, c2, d2).pixels[i] == f.Set(x2, y2, c2, d2).Set(x1, y1, c1, d1).pixels[i]
  {
    var i1, i2 := f.Idx(x1, y1), f.Idx(x2, y2);
    var a, b := f.Set(x1, y1, c1, d1), f.Set(x2, y2, c2, d2);
    var g, h := a.Set(x2, y2, c2, d2), b.Set(x1, y1, c1, d1);
    if i != i1 && i != i2 {
      assert g.depth[i] == a.depth[i] == f.depth[i] && h.depth[i] == b.depth[i] == f.depth[i];
    } else if i1 != i2 && i == i1 {
      assert g.depth[i] == a.depth[i] && h.depth[i] == Min(b.depth[i], d1);
    } else if i1 != i2 {
      assert g.depth[i] == Min(a.depth[i], d2) && h.depth[i] == b.depth[i];
    } else {
      var p1, p2, d := ToU32(c1), ToU32(c2), f.depth[i];
      assert a.pixels[i] == if d < d1 then f.pixels[i] else p1;
      assert b.pixels[i] == if d < d2 then f.pixels[i] else p2;
      assert g.pixels[i] == if Min(d, d1) < d2 then a.pixels[i] else p2;
      assert h.pixels[i] == if Min(d, d2) < d1 then b.pixels[i] else p1;
    }
  }

  /** One depth-tested write, as submitted by the renderer. */
  datatype PixelWrite = PixelWrite(x: nat, y: nat, color: Color, depth: real)

  predicate AllInBounds(f: Frame, ws: seq<PixelWrite>) {
    forall k :: 0 <= k < |ws| ==> f.InBounds(ws[k].x, ws[k].y)
  }

  /** The frame after submitting `ws` in order. */
  function ApplyWrites(f: Frame, ws: seq<PixelWrite>): (r: Frame)
    requires f.Valid() && AllInBounds(f, ws)
    ensures r.Valid() && r.height == f.height && r.width == f.width
    decreases |ws|
  {
    if ws == [] then f
    else
      var w := ws[|ws| - 1];
      ApplyWrites(f, ws[..|ws| - 1]).Set(w.x, w.y, w.color, w.depth)
  }

  /** The smallest of `d` and the depths of the writes in `ws` that land on
      storage index `i`. */
  function MinDepthAt(f: Frame, d: real, ws: seq<PixelWrite>, i: nat): real
    requires AllInBounds(f, ws)
    decreases |ws|
  {
    if ws == [] then d
    else
      var w := ws[|ws| - 1];
      var m := MinDepthAt(f, d, ws[..|ws| - 1], i);
      if f.Idx(w.x, w.y) == i then Min(m, w.depth) else m
  }

  /** The framebuffer invariant: a pixel's stored depth is the minimum of
      its initial depth and every depth written to it. */
  lemma {:induction false} StoredDepthIsMinimum(f: Frame, ws: seq<PixelWrite>, i: nat)
    requires f.Valid() && AllInBounds(f, ws) && i < |f.depth|
    ensures ApplyWrites(f, ws).depth[i] == MinDepthAt(f, f.depth[i], ws, i)
    decreases |ws|
  {
    if ws != [] {
      var pre := ws[..|ws| - 1];
      assert AllInBounds(f, pre);
      StoredDepthIsMinimum(f, pre, i);
    }
  }

  // ---------------------------------------------------------------- Buffer

  /** `Buffer`: the two planes are arrays the methods write in place. */
  class Buffer {
    const height: nat
    const width: nat
    const pixels: array<U32>
    const depth: array<real>

    predicate Valid() {
      pixels.Length == width * height && depth.Length == width * height
      && width * height <= MAX_PLANE_LEN
    }

    function View(): (f: Frame)
      reads pixels, depth
      ensures Valid() ==> f.Valid()
    {
      Frame(height, width, pixels[..], depth[..])
    }

    /** `Buffer::cons(height, width)`. */
    constructor (height: nat, width: nat)
      requires width * height <= MAX_PLANE_LEN
      ensures Valid() && fresh(pixels) && fresh(depth)
      ensures View() == NewFrame(height, width)
    {
      this.height := height;
      this.width := width;
      pixels := new U32[width * height](_ => BACKGROUND);
      depth := new real[width * height](_ => FAR_DEPTH);
    }

    function HalfWidth(): real {
      width as real / 2.0
    }

    function HalfHeight(): real {
      height as real / 2.0
    }

    /** `set`, which asserts (in debug builds) that the pixel is in bounds. */
    method Set(x: nat, y: nat, color: Color, d: real)
      requires Valid() && View().InBounds(x, y)
      modifies pixels, depth
      ensures View() == old(View()).Set(x, y, color, d)
    {
      var i := View().Idx(x, y);
      if depth[i] < d {
        return;
      }
      depth[i] := d;
      pixels[i] := ToU32(color);
    }

    /** `clear`. */
    method Clear()
      requires Valid()
      modifies pixels, depth
      ensures View() == old(View()).Clear()
    {
      forall i | 0 <= i < pixels.Length {
        pixels[i] := BACKGROUND;
      }
      forall i | 0 <= i < depth.Length {
        depth[i] := FAR_DEPTH;
      }
    }
  }

  // ---------------------------------------------------------------- Camera

  /** `Camera`: a position and Euler angles that input handlers bump. */
  class Camera {
    var position: Vec3f
    var rotation: Vec3f

    constructor (position: Vec3f)
      ensures this.position == position && rotation == Zero
    {
      this.position := position;
      rotation := Zero;
    }

    /** `rotate_horizontal`: turn about the y axis. */
    method RotateHorizontal(angle: real)
      modifies this
      ensures rotation == old(rotation).(y := old(rotation.y) + angle)
      ensures position == old(position)
    {
      rotation := rotation.(y := rotation.y + angle);
    }

    /** `rotate_vertical`: turn about the z axis. */
    method RotateVertical(angle: real)
      modifies this
      ensures rotation == old(rotation).(z := old(rotation.z) + angle)
      ensures position == old(position)
    {
      rotation := rotation.(z := rotation.z + angle);
    }
  }
}
